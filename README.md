# Modem command sessions of the DICOM uploader and the SMS-controlled vehicle

Two Raspberry Pi programs drive a SIMCom GSM modem over a serial line.

- `FTP_DICOM/dcm_2_jpg_ftp.cpp` uploads a JPEG to an FTP server.
  - It sends one AT command at a time, guarded by the half-duplex flag `tx_enable`.
  - It opens the GPRS bearer with up to five `AT+SAPBR=1,1` attempts.
  - It pushes the file with `AT+FTPPUT=2,<n>` in chunks of 1000 bytes.
- `GPS_CAMERA/gps_camera.cpp` waits for SMS envelopes ending in `MSGOVER`.
  - An authorised `STOP` stops the vehicle, takes a picture and texts back the GPS fix.
  - An authorised `RESET` releases the vehicle again.

The model keeps everything the programs do beneath the system calls:

- **Inbound serial line.** It is a finite sequence of one-byte read results (`Wire.Rx`: a byte or a failed `read`). The end of the sequence stands for a `read` that would block for ever.
- **Outbound line.** Writes are recorded in a log: `FtpUpload.Event` for the uploader, `Vehicle.Effect` for the vehicle unit.
- **Replies.** Every session method returns, as ghost outputs, the replies of the readers it ran and the stream positions between them.
  - In the uploader, each phase has a reader script: the list of readers `upload_file` calls in that phase, in order (`FtpUpload.PreambleReads`, `BearerReads`, `SetupReads`, `TransferReads`, `UploadReads` and their parts).
  - `Matchers.Ran(rx, script, from, to, marks, replies, alive)` says that reply `i` is the first stop of reader `i` of the script on the stream from mark `i`, and the next reply starts where it ended. The marks run from `from` to `to`.
  - A session that goes on (`alive`) answered the whole script, every reply a stop. A session that gives up (`alive == false`, `Stalled`, `Blocked`) ends with an `Exhausted` reply, every earlier reply a stop, and has read the stream to its end.
  - A reader that returns sets `tx_enable` back to 1 only on its target (and `uart_read_gen` also on `ERROR`); the log records each returned reader as a response that did or did not release the line. `FtpUpload.Released(trace, n)` says no response from index `n` on failed. Each uploader method states that this holds of its own stretch of the log exactly when every reply of its script released the line (`FtpUpload.AllRelease(script, replies)`), so the claims made "with every reader succeeding" rest on the replies the stream gives.
  - The bearer loop's replies are also chained on their own (`FtpUpload.GenReplies`), and so are those of the vehicle's waits (`Vehicle.UntilReplies`). A vehicle exchange that gives up has a reply that did not find its target.

Modules:

- `Wire` (wire.dfy): the stream, the bytes a reader stores, what `strstr`/`strlen` see of a C buffer, command framing (`text + CR`, SMS body `+ Ctrl-Z`) and `%d` formatting.
- `Matchers` (matchers.dfy): one scanning method per reader loop (`uart_read_OK`, `uart_read_MSG`, `uart_read_FTPPUT`, `uart_read_gen`, `uart_read_until`).
  - Each method is proved to stop at the FIRST read that satisfies the reader's stop predicate.
  - The 256-byte response buffers are zero-filled, so a search sees at most 255 stored bytes. The 256th byte is still stored in bounds, but it may remove the last NUL (a received NUL keeps the buffer terminated), and the next `strstr` could then read past the end of the buffer. The model stops at that byte with the outcome `Overflowed`.
- `FtpUpload` (ftp_upload.dfy): the class `FtpSession`, with fields `rx`, `pos`, `txEnable` and `trace`. It holds one method per reader call and per write, and `upload_file` split into phases.
- `GpsFix` (gps_fix.dfy): `process_gps_coordinates` as pure functions.
  - `ProcessAsWritten` follows the code's index arithmetic.
  - `ProcessCorrected` follows the evident intent.
  - Lemmas prove what each yields on an RMC answer (NMEA 0183).
- `Vehicle` (vehicle.dfy):
  - the decision of `read_sms` as the function `Decide`;
  - the class `VehicleController`, whose fields mirror the globals `uart_read_str` (`readBuf`, an array of 256), `gps_str` (`gpsStr`, an array of 100) and `sys_state`, plus the effect log.

Where the system's design asks for something the code does not do, the model follows the code:

- A remainder of zero still sends the declaration `AT+FTPPUT=2,0` with no data. That is the same text as the closing command, so it goes out twice (`FtpUpload.DeclareRestApart`, `FtpUpload.FtpSession.Transfer`).
- A failed read (`-1`) in the bearer loop is retried like an `ERROR`. It does not end the loop early.
- Only an `ERROR` on the fifth attempt aborts the upload. A failed read on the fifth attempt lets the upload go on.
- Short reads of the file are not errors. The data written is whatever `read(fd, ...)` returns, and `total_bytes` adds 1000 (or `mod`) regardless.
- `uart_read_until` only reports `ERROR`. It does not stop on it.
- No reader has a timeout.
- The GPS text is `"LATITUDE " + lat + "LONGITUDE " + lon`, with no separator before `LONGITUDE`.
- `send_sms` of the vehicle unit waits with `uart_read(MSG)` and `uart_read(OK)` (gps_camera.cpp lines 150 and 159). The file defines no `uart_read`; the model reads both as `uart_read_until`, like the other waits of `send_sms`.
- `uart_read_until` compares against `ptr_l` (gps_camera.cpp line 185), which the file never declares; the model reads it as the parameter `p_label`, the target the caller passes.
- `send_sms` and `uart_write` build and write every command in `uart_str` (gps_camera.cpp lines 126, 153 and 167), which the file never declares either; the model reads it as a command buffer large enough for each command, and logs what `strlen` sees of it.
- `init_gps` extracts the fix with `process_gps_coordinates` as written, so `AcquireFix` runs `ProcessGpsCoordinatesAsWritten`. The corrected extraction is modelled beside it (see Findings).

## Model

| member | source | states |
|---|---|---|
| Wire.LastByte | GPS_CAMERA/gps_camera.cpp:174-183 | the value in `tmp` after a run of reads is the last byte received |
| Wire.Stored | FTP_DICOM/dcm_2_jpg_ftp.cpp:245-251 | a reader stores exactly one byte per `read` call |
| Wire.StoredStep | GPS_CAMERA/gps_camera.cpp:174-183 | one more read stores one more byte: the byte received, or for a failed read the value `tmp` already held |
| Wire.StoredOfBytes | FTP_DICOM/dcm_2_jpg_ftp.cpp:248-251 | when no read fails, the stored bytes are the received bytes, index by index |
| Wire.Visible | FTP_DICOM/dcm_2_jpg_ftp.cpp:252 | what `strstr` sees of a buffer is a NUL-free prefix of it, ended by the buffer's first NUL |
| Wire.VisibleOfCString | FTP_DICOM/dcm_2_jpg_ftp.cpp:187 | `strlen` sees all of a string without NUL |
| Wire.HitGrows | FTP_DICOM/dcm_2_jpg_ftp.cpp:247-253 | a target that `strstr` has found stays found as more bytes are appended |
| Wire.VisiblePrefix | FTP_DICOM/dcm_2_jpg_ftp.cpp:251-252 | appending to a buffer only extends what `strstr` sees |
| Wire.VisibleNulTail | GPS_CAMERA/gps_camera.cpp:177 | bytes after a NUL (the zeroed rest of the buffer) are invisible to `strstr` |
| Wire.Frame | FTP_DICOM/dcm_2_jpg_ftp.cpp:185-190 | a line built by `strcpy` and `strcat` goes out as a prefix of its text, then the single terminator byte, assuming a NUL after the one-byte `at_D`/`at_A` arrays (see Left out) |
| Wire.FrameOfCString | FTP_DICOM/dcm_2_jpg_ftp.cpp:45 | a command from a string literal goes out as its text and then exactly one 0x0D, assuming a NUL after `at_D` (see Left out) |
| Wire.Decimal | FTP_DICOM/dcm_2_jpg_ftp.cpp:503 | `%d` of a non-negative value is a non-empty run of decimal digits without a leading zero |
| Wire.DecimalRoundTrip | FTP_DICOM/dcm_2_jpg_ftp.cpp:502-504 | the modem reads back the declared count: parsing the digits returns the number |
| Matchers.ReadOkScan | FTP_DICOM/dcm_2_jpg_ftp.cpp:200-219 | `uart_read_OK` stops at the first failed read or the first `K` right after `O`, and reports `ReadFailed` exactly when that read failed |
| Matchers.ReadPromptScan | FTP_DICOM/dcm_2_jpg_ftp.cpp:221-237 | `uart_read_MSG` stops at the first failed read or the first `>`, and reports which one |
| Matchers.ReadTargetScan | FTP_DICOM/dcm_2_jpg_ftp.cpp:239-258 | `uart_read_FTPPUT` stops at the first read after which the stored bytes contain the target; it also stops on a failed read or a full buffer; never `ErrorReply`; `Overflowed` exactly when the 256th byte arrives |
| Matchers.ReadGenScan | FTP_DICOM/dcm_2_jpg_ftp.cpp:260-283 | `uart_read_gen` stops at the first read after which the stored bytes contain `ERROR` or `OK`; it reports `ErrorReply` exactly when `ERROR` is there (ERROR wins); it also stops on a failed read or a full buffer |
| Matchers.ReadUntilScan | GPS_CAMERA/gps_camera.cpp:172-189 | `uart_read_until` stops only at the first read after which the stored bytes contain the target, or on overflow; a failed read re-stores `tmp`; returns the bytes stored and whether `ERROR` was ever reported on the way |
| Matchers.UntilFirstStop | GPS_CAMERA/gps_camera.cpp:180-186 | a reply at a stopping read with no stopping read before it is the first stop of `uart_read_until` |
| Matchers.UntilGoesOn | GPS_CAMERA/gps_camera.cpp:180-186 | a read that neither fills the buffer nor completes the target does not end `uart_read_until` |
| Matchers.GenGoesOn | FTP_DICOM/dcm_2_jpg_ftp.cpp:264-280 | a stored byte that completes neither `ERROR` nor `OK` and fits the buffer does not end `uart_read_gen` |
| Matchers.FirstStopUnique | FTP_DICOM/dcm_2_jpg_ftp.cpp:200-283 | a reader has one first stop on a stream: two first stops are the same read, or both say the stream ran out |
| Matchers.GenReplyCode | FTP_DICOM/dcm_2_jpg_ftp.cpp:260-283 | the code `uart_read_gen` returns is fixed by the stream at its stop: -1 for a failed read, overflow for a full buffer, 6 when the stored bytes contain `ERROR`, 0 otherwise |
| Matchers.ErrorSeenStep | GPS_CAMERA/gps_camera.cpp:184 | `ERROR` has been reported after one more read exactly when it had been before, or the new stored bytes contain it |
| Matchers.OkWindowIsSubstringSearch | FTP_DICOM/dcm_2_jpg_ftp.cpp:207-213 | without failed reads, the two-byte window of `uart_read_OK` is a substring search: it stops at the shortest prefix containing `OK`, and an exhausted stream never contained `OK` |
| Matchers.TargetScanFindsShortestPrefix | FTP_DICOM/dcm_2_jpg_ftp.cpp:245-253 | without failed reads or NULs, `uart_read_FTPPUT` matches on a prefix containing the target, and no shorter prefix that fits the buffer contains it |
| Matchers.GenOkExcludesError | FTP_DICOM/dcm_2_jpg_ftp.cpp:274-275 | when `uart_read_gen` reports success, `ERROR` was in none of the stored prefixes, and `OK` is in the last one |
| FtpUpload.NoWriteAfterFailedRead | FTP_DICOM/dcm_2_jpg_ftp.cpp:309-317 | under the half-duplex discipline, after a failed read nothing is written until a later reader releases the line |
| FtpUpload.CountCommandAppend | FTP_DICOM/dcm_2_jpg_ftp.cpp:473-478 | the number of times a command was written adds up over consecutive stretches of the log |
| FtpUpload.CountCommandAbsent | FTP_DICOM/dcm_2_jpg_ftp.cpp:306-448 | (helper) a stretch whose commands avoid a command never counts it |
| FtpUpload.PayloadsAppend | FTP_DICOM/dcm_2_jpg_ftp.cpp:489-492 | the data written adds up, in order, over consecutive stretches of the log |
| FtpUpload.PayloadsAbsent | FTP_DICOM/dcm_2_jpg_ftp.cpp:306-448 | (helper) a stretch without chunk writes carries no data |
| FtpUpload.CommandStep | FTP_DICOM/dcm_2_jpg_ftp.cpp:309-317 | a guarded command and its reader add only that command, at most once, and no data; the stretch has no failed reader exactly when the reader, if it stopped, released the line |
| FtpUpload.PayloadStep | FTP_DICOM/dcm_2_jpg_ftp.cpp:487-495 | a guarded chunk write and its `OK` add no command, and exactly the chunk as data when it was written |
| FtpUpload.ResponseStep | FTP_DICOM/dcm_2_jpg_ftp.cpp:447-448 | a second reader after an exchange adds no write, keeps the commands, counts and data; the log has no failed reader exactly when it had none before and this reader, if it stopped, released the line |
| FtpUpload.PieceJoin | FTP_DICOM/dcm_2_jpg_ftp.cpp:474-495 | a declaration and its data write together carry the declaration's count and exactly the data written |
| FtpUpload.ChunkPlan | FTP_DICOM/dcm_2_jpg_ftp.cpp:458-459 | `div * 1000 + mod == size` and `mod < 1000` |
| FtpUpload.DeclareRest | FTP_DICOM/dcm_2_jpg_ftp.cpp:502-505 | the last declaration contains no NUL, so it goes out whole |
| FtpUpload.DecimalBelowChunk | FTP_DICOM/dcm_2_jpg_ftp.cpp:500-504 | the remainder is at most three digits, so it fits `mod_tmp[10]` |
| FtpUpload.DeclareRestApart | FTP_DICOM/dcm_2_jpg_ftp.cpp:502-505 | the last declaration never equals the 1000-byte one, and it equals `AT+FTPPUT=2,0` (line 533) exactly when the remainder is zero |
| FtpUpload.PhasesApart | FTP_DICOM/dcm_2_jpg_ftp.cpp:306-448 | `AT+SAPBR=1,1` is no other command of the upload, and no chunk declaration is a command of the opening phases |
| FtpUpload.OpenApart | FTP_DICOM/dcm_2_jpg_ftp.cpp:341-357 | `AT+SAPBR=1,1` differs from every preamble, setup and transfer command |
| FtpUpload.DeclarationsApart | FTP_DICOM/dcm_2_jpg_ftp.cpp:470-505 | an `AT+FTPPUT=2,...` line differs from every command of the opening phases, whatever the configured strings |
| FtpUpload.PieceAppended | FTP_DICOM/dcm_2_jpg_ftp.cpp:473-497 | one more chunk after the earlier ones keeps the declaration count additive and the data an in-order prefix of the file |
| FtpUpload.FullThenRest | FTP_DICOM/dcm_2_jpg_ftp.cpp:470-524 | the full chunks then the remainder: only transfer commands, the full count is that of the loop, and the data is the loop's followed by the remainder's |
| FtpUpload.CommandsAppend | FTP_DICOM/dcm_2_jpg_ftp.cpp:306-541 | the command lines of two consecutive stretches of the log are those of the first, then those of the second |
| FtpUpload.Repeat | FTP_DICOM/dcm_2_jpg_ftp.cpp:470-497 | `n` copies of one command line |
| FtpUpload.CommandsUniform | FTP_DICOM/dcm_2_jpg_ftp.cpp:470-497 | a stretch that writes only one command writes it as many times as it is counted, and nothing else |
| FtpUpload.CommandsUniformFrom | FTP_DICOM/dcm_2_jpg_ftp.cpp:470-497 | (helper) the same from any index of the log on |
| FtpUpload.RestThenClose | FTP_DICOM/dcm_2_jpg_ftp.cpp:499-541 | the remainder declaration once and then the close once are the command lines `[AT+FTPPUT=2,<mod>, AT+FTPPUT=2,0]`, in that order |
| FtpUpload.FullThenRestOrder | FTP_DICOM/dcm_2_jpg_ftp.cpp:470-541 | `div` full declarations and then the rest: the command lines are `div` copies of `AT+FTPPUT=2,1000` followed by those of the rest |
| FtpUpload.TransferJoin | FTP_DICOM/dcm_2_jpg_ftp.cpp:450-541 | the full chunks then the remainder and the close: only transfer commands, data a prefix of the file; when both halves ran to the end, the whole file and the command lines in order (`WholeFile`) |
| FtpUpload.OpeningThenTransfer | FTP_DICOM/dcm_2_jpg_ftp.cpp:306-545 | the opening then the transfer: the data and declarations of the upload are the transfer's, and the bearer attempts at most five |
| FtpUpload.GenRepliesAppended | FTP_DICOM/dcm_2_jpg_ftp.cpp:342-357 | (helper) one more `uart_read_gen` starting where the last one stopped extends the chain of replies |
| FtpUpload.BearerOutcome | FTP_DICOM/dcm_2_jpg_ftp.cpp:342-357 | the bearer loop's result from its replies: blocked exactly when the last read ran out of stream, aborted exactly when the fifth reply is `ERROR` (6) |
| FtpUpload.ConnectQuiet | FTP_DICOM/dcm_2_jpg_ftp.cpp:306-448 | the opening of the session writes no data and no chunk declaration |
| FtpUpload.ConnectThenTransfer | FTP_DICOM/dcm_2_jpg_ftp.cpp:306-545 | the bearer attempts of the upload are those of the opening; the data and the declarations are those of the transfer |
| FtpUpload.FullChunkReadsPrefix | FTP_DICOM/dcm_2_jpg_ftp.cpp:470-497 | (helper) the readers of fewer chunks are a prefix of the readers of more chunks |
| FtpUpload.FullChunksNext | FTP_DICOM/dcm_2_jpg_ftp.cpp:470-497 | one more chunk's replies after `done` answered chunks either answer `done + 1` chunks, or stall the whole chunk loop's script |
| FtpUpload.BearerRan | FTP_DICOM/dcm_2_jpg_ftp.cpp:342-357 | the bearer loop's chained replies answer `BearerReads` (one `uart_read_gen` per attempt), and the loop goes on exactly when it did not block |
| FtpUpload.BearerAfterPreamble | FTP_DICOM/dcm_2_jpg_ftp.cpp:306-357 | the preamble's replies then the bearer loop's answer both scripts in turn, with the bearer replies right after the preamble's |
| FtpUpload.BearerWithinLonger | FTP_DICOM/dcm_2_jpg_ftp.cpp:359-545 | (helper) later replies leave the bearer loop's replies where they were |
| FtpUpload.SetupAfterBearer | FTP_DICOM/dcm_2_jpg_ftp.cpp:306-448 | the setup's replies after a connected bearer loop answer the whole opening's script `ConnectReads` |
| FtpUpload.TransferAfterConnect | FTP_DICOM/dcm_2_jpg_ftp.cpp:306-545 | the transfer's replies after a connected opening answer the whole upload's script `UploadReads`, and the last is `Exhausted` exactly when it stalled |
| FtpUpload.UploadStopsEarly | FTP_DICOM/dcm_2_jpg_ftp.cpp:306-357 | an opening that stalled is a stalled session of the whole upload's script; one that aborted ends on a reply that stopped; the replies of the opening released the line in the upload's script exactly when they did in the opening's |
| FtpUpload.WriteReleased | FTP_DICOM/dcm_2_jpg_ftp.cpp:309-328 | at most one write and then a reader's response: no failed reader there exactly when that reader, if it stopped, released the line |
| FtpUpload.ReleasedJoin | FTP_DICOM/dcm_2_jpg_ftp.cpp:306-545 | a log has no failed reader over two consecutive stretches exactly when neither stretch has one |
| FtpUpload.AllReleasePrefix | FTP_DICOM/dcm_2_jpg_ftp.cpp:306-545 | (helper) only the readers that answered decide whether every reply released the line |
| FtpUpload.AllReleaseLonger | FTP_DICOM/dcm_2_jpg_ftp.cpp:306-545 | (helper) readers after the replies do not change the verdict |
| FtpUpload.AllReleaseJoin | FTP_DICOM/dcm_2_jpg_ftp.cpp:306-545 | the replies to a whole script and then to a second one all released the line exactly when those of each script did |
| FtpUpload.AllReleaseNext | FTP_DICOM/dcm_2_jpg_ftp.cpp:306-545 | one more reply, to the next reader of the script: all released exactly when the earlier ones did and this one did |
| FtpUpload.AllReleasePair | FTP_DICOM/dcm_2_jpg_ftp.cpp:531-541 | (helper) the verdict on one or two replies to a two-reader script is that on each reply |
| FtpUpload.BearerReleaseNext | FTP_DICOM/dcm_2_jpg_ftp.cpp:342-357 | one more bearer round: its `uart_read_gen` reply joins the verdict on the rounds before it (`OK` and `ERROR` both release) |
| FtpUpload.FullChunkReleases | FTP_DICOM/dcm_2_jpg_ftp.cpp:470-497 | one more full chunk: its two replies join the verdict on the chunks before it, within the readers of all `div` chunks |
| FtpUpload.UploadReleased | FTP_DICOM/dcm_2_jpg_ftp.cpp:306-545 | the opening's log then the transfer's has no failed reader exactly when every reply of the whole upload's script released the line |
| FtpUpload.CloseAfterRest | FTP_DICOM/dcm_2_jpg_ftp.cpp:499-541 | the remainder's declaration and data, then the close: only those two commands, the remainder's data, no 1000-byte declaration; with both lines free, the command lines are the remainder declaration then the close |
| FtpUpload.FtpSession.constructor | FTP_DICOM/dcm_2_jpg_ftp.cpp:55 | the session starts with `tx_enable = 1`, nothing read and nothing written |
| FtpUpload.FtpSession.Transmit | FTP_DICOM/dcm_2_jpg_ftp.cpp:309-316 | the command goes out framed by CR exactly when `tx_enable` was set; afterwards `tx_enable == 0` |
| FtpUpload.FtpSession.TransmitChunk | FTP_DICOM/dcm_2_jpg_ftp.cpp:487-494 | the chunk goes out by length, bytes unaltered, exactly when `tx_enable` was set; afterwards `tx_enable == 0` |
| FtpUpload.FtpSession.ReadOk | FTP_DICOM/dcm_2_jpg_ftp.cpp:200-219 | consumes exactly up to the first stop of `uart_read_OK`; `tx_enable` ends set exactly on `OK` |
| FtpUpload.FtpSession.ReadPrompt | FTP_DICOM/dcm_2_jpg_ftp.cpp:221-237 | consumes exactly up to the first stop of `uart_read_MSG`; `tx_enable` ends set exactly on `>` |
| FtpUpload.FtpSession.ReadTarget | FTP_DICOM/dcm_2_jpg_ftp.cpp:239-258 | consumes exactly up to the first stop of `uart_read_FTPPUT`; `tx_enable` ends set exactly on a match |
| FtpUpload.FtpSession.ReadGen | FTP_DICOM/dcm_2_jpg_ftp.cpp:260-283 | consumes exactly up to the first stop of `uart_read_gen` and returns the code `GenCode` gives for that read; both `OK` (0) and `ERROR` (6) set `tx_enable`, a failed read does not |
| FtpUpload.FtpSession.Exchange | FTP_DICOM/dcm_2_jpg_ftp.cpp:320-328 | one guarded command and its `OK` reader: `r` is the first stop of `uart_read_OK` on the stream from where the session stood, and the session goes on exactly when it is a stop; when it goes on, the line is free exactly when the reply is `OK`; the log grows by the command (if the line was free) and the response; the log from the call on has no failed reader exactly when `r` released the line (`Releases`: `OK` arrived) |
| FtpUpload.FtpSession.ExchangeNext | FTP_DICOM/dcm_2_jpg_ftp.cpp:308-339 | (helper) an exchange as the next `uart_read_OK` of a session: the session answers one more reader of its script, or stalls on it; the verdict on the log keeps matching `AllRelease` on the replies |
| FtpUpload.FtpSession.Preamble | FTP_DICOM/dcm_2_jpg_ftp.cpp:308-339 | `AT`, contype and APN: the replies answer `PreambleReads` (three `uart_read_OK`) from where the session stood, going on exactly while each stops; only those commands are written, and the line is free at the end unless a reader failed; the log from the call on has no failed reader exactly when every reply released the line (`AllRelease(PreambleReads, replies)`) |
| FtpUpload.FtpSession.ActivateBearer | FTP_DICOM/dcm_2_jpg_ftp.cpp:342-357 | the replies are successive first stops of `uart_read_gen` on the stream; no reply before the last is `OK`; the loop leaves on the first `OK` (`Connected`), aborts exactly after five replies the last of which is `ERROR`, blocks exactly when a read runs out of stream; `AT+SAPBR=1,1` is written at most once per reply; the log from the call on has no failed reader exactly when every reply released the line (`AllRelease(BearerReads(|replies|), replies)`) |
| FtpUpload.FtpSession.BearerRound | FTP_DICOM/dcm_2_jpg_ftp.cpp:344-351 | one pass of the loop body: its reply is the next `uart_read_gen` stop on the stream, and it writes `AT+SAPBR=1,1` once exactly when the line was free; the log has no failed reader exactly when it had none before and this reply released the line |
| FtpUpload.FtpSession.BearerAttempt | FTP_DICOM/dcm_2_jpg_ftp.cpp:344-351 | one attempt: the reply is the first stop of `uart_read_gen` with its code; `AT+SAPBR=1,1` is written once exactly when the line was free; the line is freed on `OK` or `ERROR` only; the log from the call on has no failed reader exactly when `r` released the line (`Releases`: `OK` or `ERROR` arrived) |
| FtpUpload.FtpSession.FtpSetup | FTP_DICOM/dcm_2_jpg_ftp.cpp:359-448 | from `AT+SAPBR=2,1` to `AT+FTPPUT=1` and the wait for `+FTPPUT:1,1,1200`: the replies answer `SetupReads` from where the session stood; only setup commands are written; the log from the call on has no failed reader exactly when every reply released the line (`AllRelease(SetupReads, replies)`) |
| FtpUpload.FtpSession.FtpLogin | FTP_DICOM/dcm_2_jpg_ftp.cpp:359-412 | the bearer query, the FTP profile and the account: the replies answer `LoginReads` (five `uart_read_OK`); only setup commands are written; the log from the call on has no failed reader exactly when every reply released the line (`AllRelease(LoginReads, replies)`) |
| FtpUpload.FtpSession.FtpProfile | FTP_DICOM/dcm_2_jpg_ftp.cpp:359-379 | `AT+SAPBR=2,1` and `AT+FTPCID=1`: the replies answer `ProfileReads`; only those commands are written; the log from the call on has no failed reader exactly when every reply released the line (`AllRelease(ProfileReads, replies)`) |
| FtpUpload.FtpSession.FtpAccount | FTP_DICOM/dcm_2_jpg_ftp.cpp:381-412 | the server, user and password commands: the replies answer `AccountReads`; only setup commands are written; the log from the call on has no failed reader exactly when every reply released the line (`AllRelease(AccountReads, replies)`) |
| FtpUpload.FtpSession.FtpTarget | FTP_DICOM/dcm_2_jpg_ftp.cpp:414-448 | the remote name and path, then the put session: the replies answer `TargetReads` (`OK`, `OK`, `OK`, `+FTPPUT:1,1,1200`); only setup commands, and the line is free at the end unless a reader failed; the log from the call on has no failed reader exactly when every reply released the line (`AllRelease(TargetReads, replies)`) |
| FtpUpload.FtpSession.OpenPut | FTP_DICOM/dcm_2_jpg_ftp.cpp:436-448 | `AT+FTPPUT=1`, its `OK`, then `+FTPPUT:1,1,1200`: the replies answer `OpenPutReads`; no other write; the log from the call on has no failed reader exactly when every reply released the line (`AllRelease(OpenPutReads, replies)`) |
| FtpUpload.FtpSession.SendFullChunks | FTP_DICOM/dcm_2_jpg_ftp.cpp:470-497 | the replies answer `FullChunkReads(div)` (per chunk `+FTPPUT:2,1000` then `OK`), stopping at the first exhausted read; at most `div` declarations of 1000 bytes; the data written is a prefix of the file; `total == div * 1000`; with every reader succeeding, exactly `div` declarations and the first `min(div*1000, size)` bytes of the file; the log from the call on has no failed reader exactly when every reply released the line (`AllRelease(FullChunkReads(div), replies)`) |
| FtpUpload.FtpSession.FullChunk | FTP_DICOM/dcm_2_jpg_ftp.cpp:472-496 | one pass of the chunk loop: the replies answer one more chunk or stall the loop; the data stays an in-order prefix of the file and the declaration count grows by at most one, by exactly one with every reader succeeding; the log from the call on has no failed reader exactly when every reply released the line (`AllRelease(FullChunkReads(div), replies)`) |
| FtpUpload.FtpSession.SendPiece | FTP_DICOM/dcm_2_jpg_ftp.cpp:474-495 | the replies answer `PieceReads(ready)` (the ready line, then `OK`); one declaration (once if the line was free), then at most `size` further bytes of the file, written in order; all of them when every reader succeeds; the log from the call on has no failed reader exactly when every reply released the line (`AllRelease(PieceReads(ready), replies)`) |
| FtpUpload.FtpSession.CommandOk | FTP_DICOM/dcm_2_jpg_ftp.cpp:532-539 | a command written once if the line was free, then its `OK`: `r` is the first stop of `uart_read_OK` from where the session stood; going on exactly when it stops, with the line free exactly on `OK`; the log from the call on has no failed reader exactly when `r` released the line (`Releases`: `OK` arrived) |
| FtpUpload.FtpSession.Declare | FTP_DICOM/dcm_2_jpg_ftp.cpp:474-486 | a declaration written once if the line was free, no data, then the wait for the ready line: `r` is the first stop of `uart_read_FTPPUT(ready)`; going on exactly when it stops, with the line free exactly on a match; the log from the call on has no failed reader exactly when `r` released the line (`Releases`: the ready line arrived) |
| FtpUpload.FtpSession.WriteChunk | FTP_DICOM/dcm_2_jpg_ftp.cpp:487-495 | the chunk bytes exactly when the line was free, no command, then `OK`: `r` is the first stop of `uart_read_OK`; going on exactly when it stops, with the line free exactly on `OK`; the log from the call on has no failed reader exactly when `r` released the line (`Releases`: `OK` arrived) |
| FtpUpload.FtpSession.SendRemainder | FTP_DICOM/dcm_2_jpg_ftp.cpp:499-522 | the replies answer `RemainderReads`; `AT+FTPPUT=2,<mod>` is sent even for `mod == 0`; then at most `mod` further file bytes, then the wait for `+FTPPUT:1,1,1200`; the log from the call on has no failed reader exactly when every reply released the line (`AllRelease(RemainderReads, replies)`) |
| FtpUpload.FtpSession.Finish | FTP_DICOM/dcm_2_jpg_ftp.cpp:531-541 | the replies answer `FinishReads` (`OK`, then `+FTPPUT:1,0`); `AT+FTPPUT=2,0` once if the line was free; the log from the call on has no failed reader exactly when every reply released the line (`AllRelease(FinishReads, replies)`) |
| FtpUpload.FtpSession.CommandThenWait | FTP_DICOM/dcm_2_jpg_ftp.cpp:531-541 | a command, its `OK` and a second reader: the replies answer `CommandWaitReads(target)`; only that command, once if the line was free; the log from the call on has no failed reader exactly when every reply released the line (`AllRelease(CommandWaitReads(target), replies)`) |
| FtpUpload.FtpSession.Connect | FTP_DICOM/dcm_2_jpg_ftp.cpp:306-448 | the replies answer `ConnectReads` (preamble, bearer loop, setup) from where the session stood, or only the preamble and bearer loop after `Aborted`; the bearer replies sit right after the preamble's; the result is `Aborted` exactly when the fifth bearer reply is `ERROR`; the opening writes only preamble, bearer and setup commands, and after the SAPBR abort no FTP command; the log from the call on has no failed reader exactly when every reply released the line (`AllRelease(ConnectReads, replies)`) |
| FtpUpload.FtpSession.OpenBearer | FTP_DICOM/dcm_2_jpg_ftp.cpp:306-357 | the replies answer the preamble's and then the bearer loop's readers, going on unless blocked; the bearer replies sit right after the preamble's and give the outcome; only their own commands, at most five bearer attempts; the log from the call on has no failed reader exactly when every reply released the line (`AllRelease(PreambleReads + BearerReads, replies)`) |
| FtpUpload.FtpSession.Transfer | FTP_DICOM/dcm_2_jpg_ftp.cpp:450-541 | the replies answer `TransferReads(size)` from where the session stood; the reported total equals the file size; the data written is a prefix of the file; with every reader succeeding it is the whole file, with `size/1000` full declarations, then the remainder declaration and the close, in that order (`WholeFile`); the remainder declaration counts twice when `size % 1000 == 0`; the log from the call on has no failed reader exactly when every reply released the line (`AllRelease(TransferReads(size), replies)`) |
| FtpUpload.FtpSession.Conclude | FTP_DICOM/dcm_2_jpg_ftp.cpp:499-541 | the replies answer `ConcludeReads` (the remainder's, then the close's); no further 1000-byte declaration; the remainder's bytes in order; with every reader succeeding the command lines are the remainder declaration then the close; the log from the call on has no failed reader exactly when every reply released the line (`AllRelease(ConcludeReads, replies)`) |
| FtpUpload.FtpSession.UploadFile | FTP_DICOM/dcm_2_jpg_ftp.cpp:306-545 | the replies answer `UploadReads` from where the session stood (only the preamble's and the bearer loop's after `BearerFailed`), and the last is `Exhausted` exactly when the result is `Stalled`; `BearerFailed` exactly when the fifth bearer reply on the stream is `ERROR`; `total_bytes == size` when the upload completes; the SAPBR abort writes no FTP command; the data is a prefix of the file, and with no reader failing exactly the file, after an opening of only opening commands, with the transfer's command lines in order; the log from the call on has no failed reader exactly when every reply released the line (`AllRelease(UploadReads, replies)`) |
| GpsFix.FindMarker | GPS_CAMERA/gps_camera.cpp:391 | the search from index 1 returns the first `",A,"` centre, or none when there is none |
| GpsFix.ScanField | GPS_CAMERA/gps_camera.cpp:398-401 | a field copy stops at its comma, at four `'0'` (`return -1`), when `gps_str` is full, or past the end of the buffer, and says which |
| GpsFix.ScanFieldSkips | GPS_CAMERA/gps_camera.cpp:398-401 | every byte copied is neither a comma nor the start of four `'0'` |
| GpsFix.Extract | GPS_CAMERA/gps_camera.cpp:394-411 | the text written never exceeds the 100 bytes of `gps_str` |
| GpsFix.ExtractLongitude | GPS_CAMERA/gps_camera.cpp:403-411 | the longitude label and copy never exceed the 100 bytes of `gps_str` |
| GpsFix.ProcessAsWritten | GPS_CAMERA/gps_camera.cpp:387-414 | as written: the "no marker" outcome happens exactly when `",A,"` does not occur from index 1; the text fits `gps_str` |
| GpsFix.ProcessCorrected | GPS_CAMERA/gps_camera.cpp:387-414 | intended arithmetic: same outcome and bound guarantees |
| GpsFix.MarkerFirst | GPS_CAMERA/gps_camera.cpp:391 | the search from index 1 stops at `m` exactly when `m` is a `",A,"` centre and no index from 1 to `m` is one |
| GpsFix.MarkerFrom | GPS_CAMERA/gps_camera.cpp:391 | the search from any start index reaches the first marker at or after it |
| GpsFix.ScanPlain | GPS_CAMERA/gps_camera.cpp:398-401 | a field without comma or zero run, followed by a comma, is scanned to that comma when it fits |
| GpsFix.PlainInBuffer | GPS_CAMERA/gps_camera.cpp:398-399 | a plain field placed in the buffer holds no comma and starts no zero run at any of its bytes |
| GpsFix.FieldCopied | GPS_CAMERA/gps_camera.cpp:398-401 | a plain field followed by a comma is copied whole into `gps_str` |
| GpsFix.PlainTail | GPS_CAMERA/gps_camera.cpp:398-399 | the tail of a plain field is plain |
| GpsFix.LongitudeCopied | GPS_CAMERA/gps_camera.cpp:405-411 | a plain longitude field is written whole after the longitude label |
| GpsFix.BothCopied | GPS_CAMERA/gps_camera.cpp:394-403 | a plain latitude is written whole after its label, and the longitude copy starts `skip` past its comma |
| GpsFix.CorrectedExtractsFields | GPS_CAMERA/gps_camera.cpp:391-413 | on a valid RMC answer whose first `",A,"` is the status field, the intended code yields `return 0` and `"LATITUDE " + lat + "LONGITUDE " + lon` |
| GpsFix.IntendedCopies | GPS_CAMERA/gps_camera.cpp:394-413 | from the first latitude byte, both fields are copied whole and the extraction succeeds |
| GpsFix.LongitudeAfterLatitude | GPS_CAMERA/gps_camera.cpp:403-411 | after the latitude text, a plain longitude is appended with its label |
| GpsFix.AsWrittenLosesLatitude | GPS_CAMERA/gps_camera.cpp:391-413 | on the same answer the code as written yields `return 0` and `"LATITUDE LONGITUDE " + lat[1..]`: no longitude at all, and the latitude without its first byte |
| GpsFix.AsWrittenCopiesTail | GPS_CAMERA/gps_camera.cpp:392-411 | started on the comma before the latitude, the first copy is empty and the second copies the latitude from its second byte |
| GpsFix.ExampleShape | GPS_CAMERA/gps_camera.cpp:387-391 | `,A,1234.5,N,07730.1,E,` is a valid RMC fix with plain fields, and the search finds its status field |
| GpsFix.AsWrittenExample | GPS_CAMERA/gps_camera.cpp:387-414 | on `,A,1234.5,N,07730.1,E,` the code yields `"LATITUDE LONGITUDE 234.5"`, the intended one `"LATITUDE 1234.5LONGITUDE 07730.1"` |
| GpsFix.UnsetLatitudeRejected | GPS_CAMERA/gps_camera.cpp:398-399 | an unset latitude (`0000...`) makes the intended code return -1 |
| Vehicle.Decide | GPS_CAMERA/gps_camera.cpp:196-204 | any action needs the owner's number; a stop needs `STOP` while started; a restart needs `RESET` without `STOP` while stopped |
| Vehicle.StopExactly | GPS_CAMERA/gps_camera.cpp:196-199 | the vehicle stops exactly on an authorised `STOP` while `SYS_START` |
| Vehicle.RestartExactly | GPS_CAMERA/gps_camera.cpp:196-203 | the vehicle restarts exactly on an authorised `RESET` without `STOP` while `SYS_STOP` (`STOP` takes precedence) |
| Vehicle.MachineClosed | GPS_CAMERA/gps_camera.cpp:117-121 | from `SYS_START` or `SYS_STOP`, every envelope leads to one of the two, and every action changes the state |
| Vehicle.RepeatedCommandIsNoOp | GPS_CAMERA/gps_camera.cpp:199-203 | `STOP` while stopped and `RESET` while started do nothing |
| Vehicle.ScriptPrefix | GPS_CAMERA/gps_camera.cpp:125-150 | after the first `k` commands of `send_sms`, the log holds exactly those commands |
| Vehicle.PrefixOfScript | GPS_CAMERA/gps_camera.cpp:123-162 | a `send_sms` that stops in the first three commands has sent an initial part of the full exchange |
| Vehicle.Padded | GPS_CAMERA/gps_camera.cpp:177-183 | `uart_read_str` after a read is the stored bytes and then zeros: 256 bytes, and `strstr` sees what it would see of the stored bytes |
| Vehicle.SpliceJoin | GPS_CAMERA/gps_camera.cpp:394-411 | (helper) writing two texts side by side is writing their concatenation |
| Vehicle.UntilStoredBound | GPS_CAMERA/gps_camera.cpp:177-183 | `uart_read_until` never stores more than 255 bytes, so its buffer keeps a NUL |
| Vehicle.UntilRepliesAppended | GPS_CAMERA/gps_camera.cpp:123-162 | (helper) one more `uart_read_until` starting where the last one stopped extends the chain of replies |
| Vehicle.VehicleController.constructor | GPS_CAMERA/gps_camera.cpp:67-71 | globals start zeroed and `sys_state == 0` |
| Vehicle.VehicleController.UartReadUntil | GPS_CAMERA/gps_camera.cpp:172-189 | consumes up to the first stop of `uart_read_until`; `uart_read_str` is the stored bytes padded with zeros; `ERROR` is reported exactly when seen; on a match `strstr` finds the target in the buffer |
| Vehicle.VehicleController.StoreReply | GPS_CAMERA/gps_camera.cpp:177-183 | the buffer holds the stored bytes then zeros, and `gps_str` is untouched |
| Vehicle.VehicleController.Exchange | GPS_CAMERA/gps_camera.cpp:125-132 | the command goes out framed by CR; `reply` is the first stop of `uart_read_until(target)` on the stream, and the unit goes on exactly when it found the target, which is then in the buffer |
| Vehicle.VehicleController.SendSms | GPS_CAMERA/gps_camera.cpp:123-162 | the replies are successive first stops of `uart_read_until` (`OK`, `OK`, `>`, `OK`) on the stream, going on while each finds its target; the log grows by as many steps of `AT`, `AT+CMGF=1`, `AT+CMGS="<owner>"`, `gps_str` + Ctrl-Z as there are replies; it completes exactly when the last reply matched |
| Vehicle.VehicleController.SendHeader | GPS_CAMERA/gps_camera.cpp:125-150 | the first three commands of `send_sms`, each written after the previous reply matched; the log grows by one command per reply |
| Vehicle.VehicleController.InitState | GPS_CAMERA/gps_camera.cpp:117-121 | the GPIO line is set and `sys_state == SYS_START` |
| Vehicle.VehicleController.StopState | GPS_CAMERA/gps_camera.cpp:209-223 | GPIO, picture, then the steps of the SMS exchange its replies allow; `sys_state == SYS_STOP` exactly when the exchange completes |
| Vehicle.VehicleController.ReadSms | GPS_CAMERA/gps_camera.cpp:191-207 | `reply` is the first stop of the wait for `MSGOVER`; when it matched, the action is `Decide` on what `strstr` sees of the envelope and the unit goes on unless a `STOP`'s SMS exchange breaks off; when it did not match, nothing is done; state and effects follow the action, and a `STOP`'s SMS replies come from the stream |
| Vehicle.VehicleController.FindMarkerScan | GPS_CAMERA/gps_camera.cpp:391 | the scan loop finds what `FindMarker` specifies |
| Vehicle.VehicleController.PutLabel | GPS_CAMERA/gps_camera.cpp:394-396 | the label is written into `gps_str` from `j0`, nothing else changes |
| Vehicle.VehicleController.CopyField | GPS_CAMERA/gps_camera.cpp:398-401 | the field loop stops where `ScanField` says and writes exactly the copied bytes from `j0` |
| Vehicle.VehicleController.FillGps | GPS_CAMERA/gps_camera.cpp:394-411 | both labelled copies: the outcome and the text written are those of `Extract` |
| Vehicle.VehicleController.FillLatitude | GPS_CAMERA/gps_camera.cpp:394-401 | `LATITUDE ` and the latitude copy, as `ScanField` specifies |
| Vehicle.VehicleController.FillLongitude | GPS_CAMERA/gps_camera.cpp:403-411 | `LONGITUDE ` and the longitude copy, as `ExtractLongitude` specifies |
| Vehicle.VehicleController.ProcessGpsCoordinatesAsWritten | GPS_CAMERA/gps_camera.cpp:387-414 | the in-place code with its index arithmetic as written yields exactly `ProcessAsWritten` |
| Vehicle.VehicleController.ProcessGpsCoordinates | GPS_CAMERA/gps_camera.cpp:387-414 | the in-place code with the intended arithmetic yields exactly `ProcessCorrected` |
| Vehicle.VehicleController.AcquireFix | GPS_CAMERA/gps_camera.cpp:361-371 | `AT+CGPSINF=32` goes out; `reply` is the first stop of the wait for `OK`; once it matched, the fix is extracted from the answer as `ProcessAsWritten` specifies |
| Vehicle.VehicleController.Run | GPS_CAMERA/gps_camera.cpp:74-92 | `fixReply` is the first stop of the wait for `OK` after `AT+CGPSINF=32`, and the unit starts exactly when it matched; once started, `sys_state` is always `SYS_START` or `SYS_STOP`; otherwise the state is unchanged and only the fix command went out |

## Left out

- System calls: opening the port and `termios`/`tcsetattr`/`fcntl`. `read` becomes the `Rx` stream; `write` becomes the event or effect log.
- Write failures: `uart_write` returning -1 only prints, so a write is always recorded as sent. `uart_write`'s missing `return` on success is read as success.
- DICOM conversion through dcmtk and `system("dcmj2pnm ...")` is not modelled.
- Webcam capture through `system("fswebcam ...")` is recorded only as the `Picture` effect; its result only prints.
- GPIO calls (`bcm2835_gpio_set`) are recorded only as the `GpioSet` effect.
- The file is a parameter: `upload_file`'s `fopen`/`fseek`/`ftell`/`open`. Its size is the length of `file`. A `read(fd, ...)` returns the next bytes, up to the count asked for.
- `uart_read_temp` is a debug dump with an endless loop.
- All console output (`cout`, `printf`, `perror`) is not modelled.
- The scripted part of `init_gps` (lines 233-359, which wait for `.` and `STATE:` lines) is not modelled. Only its final `AT+CGPSINF=32` exchange and the extraction are (`AcquireFix`).
- `send_sms` of `dcm_2_jpg_ftp.cpp` (lines 129-182) is not modelled; `main` there never calls it. The vehicle unit's `send_sms` is modelled.
- The hard-coded server, user, password, remote name, path and phone number are parameters: `FtpConfig` and `owner`.
- There are no timeouts. A reader whose stream ends reports `Exhausted` where the code would block for ever. Callers treat that as the end of the run (`Stalled`, `Blocked`, `alive == false`).
- The one-byte arrays `at_D` and `at_A` (dcm_2_jpg_ftp.cpp lines 45-46, gps_camera.cpp lines 56-57) have no terminating NUL, so every `strcat` with them reads past their end. The model assumes the byte after them is a NUL and appends exactly the one terminator byte.
- Undefined behaviour is replaced by an explicit outcome:
  - a 256th byte stored into a response buffer (after which `strstr` would read past its end for want of a NUL) gives `Overflowed`;
  - a GPS field copy past the end of `uart_read_str` gives `Unterminated`;
  - a copy past the end of `gps_str` gives `TooLong`;
  - a missing `",A,"` gives `NoMarker`.
- The marker search starts at index 1, because the code reads `[i-1]` at `i = 0`.
- `Zeros` never reads past the end of `uart_read_str`.
- `gps_str` gets no NUL written by `process_gps_coordinates`. `send_sms` sends what `strlen` sees, which `Frame` models.
- `get_gps_coordinates` is never called in the source, and `SYS_RESET` is never used.
- Vehicle.VehicleController.Run: ends when the stream ends; `main` loops for ever.
- FtpUpload.FtpSession.UploadFile: the source prints `total_bytes` before the closing `AT+FTPPUT=2,0` exchange. The model returns `Uploaded` only once that exchange has also returned.
- FtpUpload.FtpSession.Transfer: the exact data and declaration counts are stated only for runs where every reader released the line and the line was free at the start. After a failed read the code skips writes, and the model states only bounds there.
- FtpUpload.FtpSession.ActivateBearer: states at most one `AT+SAPBR=1,1` write per reply, not the exact number of replies whose line was free.
- Several phases of `upload_file` and of `process_gps_coordinates` are split into smaller methods that run the same steps in the same order. The splits are `Connect`/`OpenBearer`/`FtpSetup`/`FtpLogin`/`FtpTarget`, `Transfer`/`SendFullChunks`/`Conclude` and `FillGps`/`FillLatitude`/`FillLongitude`.

## Findings

| source | as written | input that shows it | evidently intended | confidence | as-written member | corrected member |
|---|---|---|---|---|---|---|
| GPS_CAMERA/gps_camera.cpp:391-411 | the search stops on the `A` of `",A,"`, and `i++` leaves `i` on the following comma, so the latitude loop copies nothing. `i += 2` then starts the longitude loop on the latitude's second byte, so the text is `"LATITUDE LONGITUDE "` plus the latitude without its first byte, and the longitude is never read | `,A,1234.5,N,07730.1,E,` gives `"LATITUDE LONGITUDE 234.5"` | start the latitude after `"A,"` and the longitude after `"<lat>,N,"`: `"LATITUDE 1234.5LONGITUDE 07730.1"` | high (not executed) | GpsFix.AsWrittenLosesLatitude | GpsFix.CorrectedExtractsFields |
