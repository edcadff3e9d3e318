/**
 * The FTP upload driver of the DICOM unit: a half-duplex session over the
 * modem's serial line (the `tx_enable` flag, the readers and the writers),
 * and `upload_file`, which opens the GPRS bearer with bounded retries and
 * pushes a file through `AT+FTPPUT` in chunks of 1000 bytes.
 */
module FtpUpload {
  import opened Wire
  import opened Matchers

  /** What the session did on the line, in order. */
  datatype Event =
    | Command(bytes: seq<char>)   // `uart_write`: a text command line
    | Payload(bytes: seq<char>)   // `uart_write_tmp(c)`: raw chunk bytes, by explicit length
    | Response(released: bool)    // a reader returned; `released` when it set `tx_enable = 1`
  {
    predicate IsWrite()
    {
      Command? || Payload?
    }
  }

  /**
   * Half-duplex discipline: every write after the first event comes right
   * after a reader that released the line.
   */
  ghost predicate HalfDuplex(t: seq<Event>)
  {
    forall i :: 0 < i < |t| && t[i].IsWrite() ==> t[i - 1] == Response(true)
  }

  /** After a reader failed, nothing is written until a later reader succeeds. */
  lemma NoWriteAfterFailedRead(t: seq<Event>, i: nat, j: nat)
    requires HalfDuplex(t)
    requires i < j < |t| && t[i] == Response(false) && t[j].IsWrite()
    ensures exists k :: i < k < j && t[k] == Response(true)
  {
    assert t[j - 1] == Response(true);
  }

  /** Every command line from index `from` on is one of `cmds`. */
  ghost predicate CommandsIn(t: seq<Event>, from: nat, cmds: set<seq<char>>)
  {
    forall i :: from <= i < |t| && t[i].Command? ==> t[i].bytes in cmds
  }

  /** No payload is written from index `from` on. */
  ghost predicate NoPayload(t: seq<Event>, from: nat)
  {
    forall i :: from <= i < |t| ==> !t[i].Payload?
  }

  /** From index `from` on, only command lines drawn from `cmds` are written. */
  ghost predicate OnlyCommands(t: seq<Event>, from: nat, cmds: set<seq<char>>)
  {
    CommandsIn(t, from, cmds) && NoPayload(t, from)
  }

  /** How many times `cmd` was written as a command line. */
  function CountCommand(t: seq<Event>, cmd: seq<char>): nat
  {
    if t == [] then 0
    else CountCommand(t[..|t| - 1], cmd) + (if t[|t| - 1] == Command(cmd) then 1 else 0)
  }

  lemma {:induction false} CountCommandAppend(t: seq<Event>, u: seq<Event>, cmd: seq<char>)
    ensures CountCommand(t + u, cmd) == CountCommand(t, cmd) + CountCommand(u, cmd)
  {
    if u == [] {
      assert t + u == t;
    } else {
      assert (t + u)[..|t + u| - 1] == t + u[..|u| - 1];
      CountCommandAppend(t, u[..|u| - 1], cmd);
    }
  }

  /** A stretch of events whose commands avoid `cmd` does not add to its count. */
  lemma {:induction false} CountCommandAbsent(t: seq<Event>, cmd: seq<char>, cmds: set<seq<char>>)
    requires CommandsIn(t, 0, cmds) && cmd !in cmds
    ensures CountCommand(t, cmd) == 0
  {
    if t != [] {
      assert CommandsIn(t[..|t| - 1], 0, cmds);
      CountCommandAbsent(t[..|t| - 1], cmd, cmds);
    }
  }

  lemma CountCommandAbsentFrom(t: seq<Event>, from: nat, cmd: seq<char>, cmds: set<seq<char>>)
    requires from <= |t| && CommandsIn(t, from, cmds) && cmd !in cmds
    ensures CountCommand(t[from..], cmd) == 0
  {
    assert CommandsIn(t[from..], 0, cmds) by {
      forall i | 0 <= i < |t[from..]| && t[from..][i].Command?
        ensures t[from..][i].bytes in cmds
      {
        assert t[from..][i] == t[from + i];
      }
    }
    CountCommandAbsent(t[from..], cmd, cmds);
  }

  /** The raw chunk bytes written, concatenated in order. */
  function Payloads(t: seq<Event>): seq<char>
  {
    if t == [] then []
    else Payloads(t[..|t| - 1]) + (if t[|t| - 1].Payload? then t[|t| - 1].bytes else [])
  }

  lemma {:induction false} PayloadsAbsent(t: seq<Event>)
    requires NoPayload(t, 0)
    ensures Payloads(t) == []
  {
    if t != [] {
      assert NoPayload(t[..|t| - 1], 0);
      PayloadsAbsent(t[..|t| - 1]);
    }
  }

  lemma PayloadsAbsentFrom(t: seq<Event>, from: nat)
    requires from <= |t| && NoPayload(t, from)
    ensures Payloads(t[from..]) == []
  {
    assert NoPayload(t[from..], 0) by {
      forall i | 0 <= i < |t[from..]|
        ensures !t[from..][i].Payload?
      {
        assert t[from..][i] == t[from + i];
      }
    }
    PayloadsAbsent(t[from..]);
  }

  lemma {:induction false} PayloadsAppend(t: seq<Event>, u: seq<Event>)
    ensures Payloads(t + u) == Payloads(t) + Payloads(u)
  {
    if u == [] {
      assert t + u == t;
    } else {
      assert (t + u)[..|t + u| - 1] == t + u[..|u| - 1];
      PayloadsAppend(t, u[..|u| - 1]);
    }
  }

  /** The command lines written, in order. */
  function Commands(t: seq<Event>): seq<seq<char>>
  {
    if t == [] then []
    else Commands(t[..|t| - 1]) + (if t[|t| - 1].Command? then [t[|t| - 1].bytes] else [])
  }

  lemma {:induction false} CommandsAppend(t: seq<Event>, u: seq<Event>)
    ensures Commands(t + u) == Commands(t) + Commands(u)
  {
    if u == [] {
      assert t + u == t;
    } else {
      assert (t + u)[..|t + u| - 1] == t + u[..|u| - 1];
      CommandsAppend(t, u[..|u| - 1]);
    }
  }

  /** `n` copies of the command line `cmd`. */
  function Repeat(cmd: seq<char>, n: nat): (cs: seq<seq<char>>)
    ensures |cs| == n && forall i :: 0 <= i < n ==> cs[i] == cmd
  {
    if n == 0 then [] else Repeat(cmd, n - 1) + [cmd]
  }

  /** A stretch whose only command line is `cmd` writes it as often as it counts it, and nothing else. */
  lemma {:induction false} CommandsUniform(t: seq<Event>, cmd: seq<char>)
    requires CommandsIn(t, 0, {cmd})
    ensures Commands(t) == Repeat(cmd, CountCommand(t, cmd))
  {
    if t != [] {
      assert CommandsIn(t[..|t| - 1], 0, {cmd});
      CommandsUniform(t[..|t| - 1], cmd);
    }
  }

  lemma CommandsUniformFrom(t: seq<Event>, from: nat, cmd: seq<char>)
    requires from <= |t| && CommandsIn(t, from, {cmd})
    ensures Commands(t[from..]) == Repeat(cmd, CountCommand(t[from..], cmd))
  {
    assert CommandsIn(t[from..], 0, {cmd}) by {
      forall i | 0 <= i < |t[from..]| && t[from..][i].Command?
        ensures t[from..][i].bytes in {cmd}
      {
        assert t[from..][i] == t[from + i];
      }
    }
    CommandsUniform(t[from..], cmd);
  }

  /** Appending events to a trace extends its suffix from `n0`, its counts and its payloads. */
  lemma SuffixAppend(t: seq<Event>, n0: nat, u: seq<Event>, cmd: seq<char>)
    requires n0 <= |t|
    ensures (t + u)[n0..] == t[n0..] + u
    ensures CountCommand((t + u)[n0..], cmd) == CountCommand(t[n0..], cmd) + CountCommand(u, cmd)
    ensures Payloads((t + u)[n0..]) == Payloads(t[n0..]) + Payloads(u)
  {
    assert (t + u)[n0..] == t[n0..] + u;
    CountCommandAppend(t[n0..], u, cmd);
    PayloadsAppend(t[n0..], u);
  }

  /**
   * A trace that grew from `before` (itself grown from index `n0`) counts and
   * carries what both stretches do.
   */
  lemma Grown(before: seq<Event>, t: seq<Event>, n0: nat, cmd: seq<char>)
    requires n0 <= |before| && before <= t
    ensures CountCommand(t[n0..], cmd) == CountCommand(before[n0..], cmd) + CountCommand(t[|before|..], cmd)
    ensures Payloads(t[n0..]) == Payloads(before[n0..]) + Payloads(t[|before|..])
  {
    assert t == before + t[|before|..];
    SuffixAppend(before, n0, t[|before|..], cmd);
  }

  /** Two stretches whose commands come from `c1` and `c2` make one whose commands come from either. */
  lemma CommandsJoin(before: seq<Event>, t: seq<Event>, n0: nat, c1: set<seq<char>>, c2: set<seq<char>>)
    requires n0 <= |before| && before <= t
    requires CommandsIn(before, n0, c1) && CommandsIn(t, |before|, c2)
    ensures CommandsIn(t, n0, c1 + c2)
  {
  }

  lemma OnlyCommandsJoin(before: seq<Event>, t: seq<Event>, n0: nat, c1: set<seq<char>>, c2: set<seq<char>>)
    requires n0 <= |before| && before <= t
    requires OnlyCommands(before, n0, c1) && OnlyCommands(t, |before|, c2)
    ensures OnlyCommands(t, n0, c1 + c2)
  {
  }

  /** A write followed at most by a response: what it counts and what payload it carries. */
  lemma SmallTrace(u: seq<Event>, cmd: seq<char>)
    requires |u| <= 2 && (|u| == 2 ==> u[1].Response?)
    ensures CountCommand(u, cmd) == (if u != [] && u[0] == Command(cmd) then 1 else 0)
    ensures Payloads(u) == (if u != [] && u[0].Payload? then u[0].bytes else [])
  {
    if |u| == 2 {
      assert u[..1][..0] == [];
    } else if |u| == 1 {
      assert u[..0] == [];
    }
  }

  /** A command line, then a reader's response: what that stretch adds to a trace. */
  lemma CommandStep(before: seq<Event>, t: seq<Event>, cmd: seq<char>, wrote: bool, stopped: bool, released: bool)
    requires t == before + (if wrote then [Command(cmd)] else []) + (if stopped then [Response(released)] else [])
    ensures before <= t
    ensures OnlyCommands(t, |before|, {cmd})
    ensures CountCommand(t[|before|..], cmd) == (if wrote then 1 else 0)
    ensures Payloads(t[|before|..]) == []
    ensures Released(t, |before|) <==> (stopped ==> released)
  {
    var u := (if wrote then [Command(cmd)] else []) + (if stopped then [Response(released)] else []);
    assert t == before + u;
    assert t[|before|..] == u;
    SmallTrace(u, cmd);
    forall i | |before| <= i < |t|
      ensures t[i] == u[i - |before|] && (t[i] == Command(cmd) || (stopped && t[i] == Response(released)))
    {
    }
    if stopped {
      assert t[|t| - 1] == Response(released);
    }
  }

  /** At most one write, then a reader's response: no reader failed in it exactly when that one released. */
  lemma WriteReleased(before: seq<Event>, t: seq<Event>, w: seq<Event>, stopped: bool, released: bool)
    requires |w| <= 1 && (w != [] ==> w[0].IsWrite())
    requires t == before + w + (if stopped then [Response(released)] else [])
    ensures Released(t, |before|) <==> (stopped ==> released)
  {
    if stopped {
      assert t[|t| - 1] == Response(released);
    }
    forall i | |before| <= i < |t| && t[i] == Response(false)
      ensures stopped && !released
    {
      assert i == |t| - 1;
    }
  }

  /** Chunk bytes, then a reader's response: what that stretch adds to a trace. */
  lemma PayloadStep(before: seq<Event>, chunk: seq<char>, wrote: bool, stopped: bool, released: bool)
    ensures var t := before + (if wrote then [Payload(chunk)] else []) + (if stopped then [Response(released)] else []);
      && before <= t
      && CommandsIn(t, |before|, {})
      && Payloads(t[|before|..]) == (if wrote then chunk else [])
      && (Released(t, |before|) <==> (stopped ==> released))
  {
    var u := (if wrote then [Payload(chunk)] else []) + (if stopped then [Response(released)] else []);
    var t := before + (if wrote then [u[0]] else []) + (if stopped then [Response(released)] else []);
    assert t == before + u;
    assert t[|before|..] == u;
    SmallTrace(u, []);
    forall i | |before| <= i < |t|
      ensures t[i] == u[i - |before|] && !t[i].Command? && (t[i].Payload? || (stopped && t[i] == Response(released)))
    {
    }
    if stopped {
      assert t[|t| - 1] == Response(released);
    }
  }

  /** A reader's response after a stretch grown from `n0`: it adds no write and keeps what the stretch holds. */
  lemma ResponseStep(mid: seq<Event>, t: seq<Event>, n0: nat, cmd: seq<char>, cmds: set<seq<char>>, stopped: bool, released: bool)
    requires n0 <= |mid| && t == mid + (if stopped then [Response(released)] else [])
    ensures mid <= t
    ensures CommandsIn(mid, n0, cmds) ==> CommandsIn(t, n0, cmds)
    ensures NoPayload(mid, n0) ==> NoPayload(t, n0)
    ensures CountCommand(t[n0..], cmd) == CountCommand(mid[n0..], cmd)
    ensures Payloads(t[n0..]) == Payloads(mid[n0..])
    ensures Released(t, n0) <==> Released(mid, n0) && (stopped ==> released)
  {
    var u := if stopped then [Response(released)] else [];
    SuffixAppend(mid, n0, u, cmd);
    if stopped {
      OneEvent(Response(released), cmd);
      assert t[|t| - 1] == Response(released);
    } else {
      assert t == mid;
    }
    ReleasedJoin(mid, t, n0);
    if stopped {
      assert t[|mid|..] == [Response(released)];
    }
  }

  /** A declaration stretch, then a stretch that writes only `data`: what the two make together. */
  lemma PieceJoin(before: seq<Event>, mid: seq<Event>, t: seq<Event>, cmd: seq<char>, file: seq<char>, sent: nat, next: nat)
    requires before <= mid <= t && sent <= next <= |file|
    requires CommandsIn(mid, |before|, {cmd}) && Payloads(mid[|before|..]) == []
    requires CommandsIn(t, |mid|, {}) && Payloads(t[|mid|..]) == file[sent..next]
    ensures CommandsIn(t, |before|, {cmd})
    ensures CountCommand(t[|before|..], cmd) == CountCommand(mid[|before|..], cmd)
    ensures Payloads(t[|before|..]) == file[sent..next]
    ensures Released(t, |before|) ==> Released(mid, |before|) && Released(t, |mid|)
  {
    Grown(mid, t, |before|, cmd);
    CountCommandAbsentFrom(t, |mid|, cmd, {});
    CommandsJoin(mid, t, |before|, {cmd}, {});
    assert {cmd} + {} == {cmd};
    assert Payloads(t[|before|..]) == [] + file[sent..next];
    if Released(t, |before|) {
      ReleasedBefore(mid, t, |before|);
    }
  }

  /** No reader failed in the events from index `from` on: every response released the line. */
  ghost predicate Released(t: seq<Event>, from: nat)
  {
    forall i :: from <= i < |t| ==> t[i] != Response(false)
  }

  lemma ReleasedLater(t: seq<Event>, from: nat, later: nat)
    requires from <= later && Released(t, from)
    ensures Released(t, later)
  {
  }

  lemma ReleasedBefore(before: seq<Event>, t: seq<Event>, from: nat)
    requires from <= |before| && before <= t && Released(t, from)
    ensures Released(before, from) && Released(t, |before|)
  {
    forall i | from <= i < |before|
      ensures before[i] != Response(false)
    {
      assert before[i] == t[i];
    }
  }

  /** A log grown from `mid` has no failed reader from `from` on exactly when neither part has. */
  lemma ReleasedJoin(mid: seq<Event>, t: seq<Event>, from: nat)
    requires from <= |mid| && mid <= t
    ensures Released(t, from) <==> Released(mid, from) && Released(t, |mid|)
  {
    if Released(t, from) {
      ReleasedBefore(mid, t, from);
    }
  }

  /**
   * Reader `rd` answered `r` and left `tx_enable` at 1: `OK` arrived, or
   * `ERROR` for `uart_read_gen`. An `Exhausted` reply never returns, so it
   * logs no response and releases nothing that could fail.
   */
  ghost predicate Releases(rd: Reader, r: Reply)
  {
    r.Stopped? ==> r.code == Matched || (rd == GenReader && r.code == ErrorReply)
  }

  /** Every reply of `rs`, the answers of the first readers of `script`, released the line. */
  ghost predicate AllRelease(script: seq<Reader>, rs: seq<Reply>)
    decreases |rs|
  {
    rs == [] ||
    (AllRelease(script, rs[..|rs| - 1]) && (|rs| - 1 < |script| ==> Releases(script[|rs| - 1], rs[|rs| - 1])))
  }

  /** Only the readers that answered matter: a script with the same first readers gives the same verdict. */
  lemma {:induction false} AllReleasePrefix(a: seq<Reader>, b: seq<Reader>, rs: seq<Reply>)
    requires a <= b && |rs| <= |a|
    ensures AllRelease(b, rs) <==> AllRelease(a, rs)
    decreases |rs|
  {
    if rs != [] {
      AllReleasePrefix(a, b, rs[..|rs| - 1]);
      assert b[|rs| - 1] == a[|rs| - 1];
    }
  }

  /** Replies that stopped short of the end of `a`: what follows `a` does not change the verdict. */
  lemma AllReleaseLonger(a: seq<Reader>, b: seq<Reader>, rs: seq<Reply>)
    requires |rs| <= |a|
    ensures AllRelease(a + b, rs) <==> AllRelease(a, rs)
  {
    AllReleasePrefix(a, a + b, rs);
  }

  /** The answers of a whole script `a`, then of `b`: all released exactly when each part did. */
  lemma {:induction false} AllReleaseJoin(a: seq<Reader>, b: seq<Reader>, r1: seq<Reply>, r2: seq<Reply>)
    requires |r1| == |a|
    ensures AllRelease(a + b, r1 + r2) <==> AllRelease(a, r1) && AllRelease(b, r2)
    decreases |r2|
  {
    if r2 == [] {
      assert r1 + r2 == r1;
      AllReleaseLonger(a, b, r1);
    } else {
      var rest := r2[..|r2| - 1];
      assert (r1 + r2)[..|r1 + r2| - 1] == r1 + rest;
      AllReleaseJoin(a, b, r1, rest);
      if |rest| < |b| {
        assert (a + b)[|a| + |rest|] == b[|rest|];
      }
    }
  }

  /** One more reply, to the next reader of `script`. */
  lemma AllReleaseNext(script: seq<Reader>, rs: seq<Reply>, r: Reply)
    requires |rs| < |script|
    ensures AllRelease(script, rs + [r]) <==> AllRelease(script, rs) && Releases(script[|rs|], r)
  {
    assert (rs + [r])[..|rs|] == rs;
  }

  /** The replies of a two-reader script: the first alone, or both. */
  lemma AllReleasePair(script: seq<Reader>, r1: Reply, r2: Reply)
    requires |script| == 2
    ensures AllRelease(script, [r1]) <==> Releases(script[0], r1)
    ensures AllRelease(script, [r1, r2]) <==> Releases(script[0], r1) && Releases(script[1], r2)
  {
    assert [r1][..0] == [];
    assert [r1, r2][..1] == [r1];
  }

  /** The count and payload of a single event. */
  lemma OneEvent(e: Event, cmd: seq<char>)
    ensures CountCommand([e], cmd) == (if e == Command(cmd) then 1 else 0)
    ensures Payloads([e]) == (if e.Payload? then e.bytes else [])
  {
    assert [e][..0] == [];
  }

  /** Consecutive slices of a file join up. */
  lemma SlicesJoin(file: seq<char>, i: nat, j: nat)
    requires i <= j <= |file|
    ensures file[..i] + file[i..j] == file[..j]
  {
  }

  function Min(a: int, b: int): int
  {
    if a < b then a else b
  }

  /** Every chunk is 1000 bytes but the last. */
  const ChunkSize: nat := 1000

  /** `div = size/1000; mod = size%1000` for a file of `size` bytes. */
  function ChunkPlan(size: nat): (plan: (nat, nat))
    ensures plan.0 * ChunkSize + plan.1 == size
    ensures plan.1 < ChunkSize
  {
    (size / ChunkSize, size % ChunkSize)
  }

  // The command lines of `upload_file`, without their terminator.
  const At: seq<char> := "AT"
  const SapbrContype: seq<char> := "AT+SAPBR=3,1,\"Contype\",\"GPRS\""
  const SapbrApn: seq<char> := "AT+SAPBR=3,1,\"APN\",\"internet\""
  const SapbrOpen: seq<char> := "AT+SAPBR=1,1"
  const SapbrQuery: seq<char> := "AT+SAPBR=2,1"
  const FtpCid: seq<char> := "AT+FTPCID=1"
  const FtpPutOpen: seq<char> := "AT+FTPPUT=1"
  const DeclareFull: seq<char> := "AT+FTPPUT=2,1000"
  const FtpPutClose: seq<char> := "AT+FTPPUT=2,0"

  /** The declaration of the last chunk, `"AT+FTPPUT=2,"` and the count in decimal. */
  function DeclareRest(mod: nat): (cmd: seq<char>)
    ensures Nul !in cmd
  {
    "AT+FTPPUT=2," + Decimal(mod)
  }

  /** A remainder below 1000 is written in at most three digits. */
  lemma {:induction false} DecimalBelowChunk(n: nat)
    requires n < ChunkSize
    ensures |Decimal(n)| <= 3
  {
    if n >= 10 {
      DecimalBelowChunk(n / 10);
      if n / 10 >= 10 {
        assert n / 10 / 10 < 10;
      }
    }
  }

  /**
   * The last declaration never reads as a full one, and it is the very
   * command that closes the transfer exactly when the remainder is zero.
   */
  lemma DeclareRestApart(mod: nat)
    requires mod < ChunkSize
    ensures DeclareRest(mod) + [CR] != DeclareFull + [CR]
    ensures DeclareRest(mod) + [CR] == FtpPutClose + [CR] <==> mod == 0
  {
    DecimalBelowChunk(mod);
    var d := Decimal(mod);
    assert |DeclareRest(mod) + [CR]| == 13 + |d|;
    assert (DeclareRest(mod) + [CR])[12] == d[0];
    if mod == 0 {
      assert d == "0";
    }
  }

  // The responses `upload_file` waits for (l1 to l4).
  const PutSessionOpen: seq<char> := "+FTPPUT:1,1,1200"
  const PutReadyFull: seq<char> := "+FTPPUT:2,1000"
  const PutReady: seq<char> := "+FTPPUT:2,"
  const PutSessionClosed: seq<char> := "+FTPPUT:1,0"

  // The readers each phase of `upload_file` runs, in the order it runs them.
  const PreambleReads: seq<Reader> := [OkReader, OkReader, OkReader]
  const ProfileReads: seq<Reader> := [OkReader, OkReader]
  const AccountReads: seq<Reader> := [OkReader, OkReader, OkReader]
  const LoginReads: seq<Reader> := ProfileReads + AccountReads
  const OpenPutReads: seq<Reader> := CommandWaitReads(PutSessionOpen)
  const TargetReads: seq<Reader> := [OkReader, OkReader] + OpenPutReads
  const SetupReads: seq<Reader> := LoginReads + TargetReads

  /** A command's `OK`, then the wait for `target`. */
  function CommandWaitReads(target: seq<char>): seq<Reader>
  {
    [OkReader, TargetReader(target)]
  }

  /** A declaration's `ready` answer, then the `OK` after its data. */
  function PieceReads(ready: seq<char>): seq<Reader>
  {
    [TargetReader(ready), OkReader]
  }

  /** The reads of `n` full chunks. */
  function FullChunkReads(n: nat): seq<Reader>
  {
    if n == 0 then [] else FullChunkReads(n - 1) + PieceReads(PutReadyFull)
  }

  const RemainderReads: seq<Reader> := PieceReads(PutReady) + [TargetReader(PutSessionOpen)]
  const FinishReads: seq<Reader> := CommandWaitReads(PutSessionClosed)
  const ConcludeReads: seq<Reader> := RemainderReads + FinishReads

  /** The reads of the transfer of a file of `size` bytes. */
  function TransferReads(size: nat): seq<Reader>
  {
    FullChunkReads(size / ChunkSize) + ConcludeReads
  }

  /** The reads of `attempts` rounds of the bearer loop. */
  function BearerReads(attempts: nat): seq<Reader>
  {
    seq(attempts, _ => GenReader)
  }

  /** One more round of the bearer loop: its reply joins the verdict on the rounds before it. */
  lemma BearerReleaseNext(rs: seq<Reply>, r: Reply)
    ensures AllRelease(BearerReads(|rs| + 1), rs + [r]) <==> AllRelease(BearerReads(|rs|), rs) && Releases(GenReader, r)
  {
    assert BearerReads(|rs|) + [GenReader] == BearerReads(|rs| + 1);
    AllReleaseJoin(BearerReads(|rs|), [GenReader], rs, [r]);
    assert [GenReader][0] == GenReader && [r][0] == r;
  }

  /** The reads of the opening of the session, with `attempts` bearer rounds. */
  function ConnectReads(attempts: nat): seq<Reader>
  {
    PreambleReads + BearerReads(attempts) + SetupReads
  }

  /** The reads of a whole `upload_file`. */
  function UploadReads(attempts: nat, size: nat): seq<Reader>
  {
    ConnectReads(attempts) + TransferReads(size)
  }

  /** One more full chunk after `done` of them: the next session, or one that stalled for good. */
  lemma FullChunksNext(s: seq<Rx>, div: nat, done: nat, from: nat, mid: nat, to: nat,
                       m1: seq<nat>, r1: seq<Reply>, m2: seq<nat>, r2: seq<Reply>, alive: bool)
    requires done < div
    requires Ran(s, FullChunkReads(done), from, mid, m1, r1, true)
    requires Ran(s, PieceReads(PutReadyFull), mid, to, m2, r2, alive)
    ensures alive ==> Ran(s, FullChunkReads(done + 1), from, to, m1 + m2[1..], r1 + r2, true)
    ensures !alive ==> Ran(s, FullChunkReads(div), from, to, m1 + m2[1..], r1 + r2, false)
  {
    RanJoin(s, FullChunkReads(done), PieceReads(PutReadyFull), from, mid, to, m1, r1, m2, r2, alive);
    assert FullChunkReads(done) + PieceReads(PutReadyFull) == FullChunkReads(done + 1);
    if !alive {
      FullChunkReadsPrefix(done + 1, div);
      RanStopped(s, FullChunkReads(done + 1), FullChunkReads(div), from, to, m1 + m2[1..], r1 + r2);
    }
  }

  /**
   * An opening that did not connect ends the upload: a stalled one is a
   * stalled session of the whole upload's reads, an aborted one read all of
   * the preamble's and the bearer loop's.
   */
  lemma UploadStopsEarly(s: seq<Rx>, size: nat, from: nat, to: nat, marks: seq<nat>, rs: seq<Reply>,
                         bearer: seq<Reply>, aborted: bool)
    requires !aborted ==> Ran(s, ConnectReads(|bearer|), from, to, marks, rs, false)
    requires aborted ==> Ran(s, PreambleReads + BearerReads(|bearer|), from, to, marks, rs, true)
    ensures !aborted ==> Ran(s, UploadReads(|bearer|, size), from, to, marks, rs, false)
    ensures rs != [] && (rs[|rs| - 1].Exhausted? <==> !aborted)
    ensures AllRelease(UploadReads(|bearer|, size), rs) <==> AllRelease(ConnectReads(|bearer|), rs)
  {
    if aborted {
      RanLast(s, PreambleReads + BearerReads(|bearer|), from, to, marks, rs, true);
    } else {
      RanStoppedThen(s, ConnectReads(|bearer|), TransferReads(size), from, to, marks, rs);
      RanLast(s, UploadReads(|bearer|, size), from, to, marks, rs, false);
    }
    AllReleaseLonger(ConnectReads(|bearer|), TransferReads(size), rs);
  }

  /** One more full chunk: its replies join the verdict on the chunks before it, within the reads of all `div`. */
  lemma FullChunkReleases(div: nat, done: nat, r1: seq<Reply>, r2: seq<Reply>)
    requires done < div && |r1| == |FullChunkReads(done)| && |r2| <= 2
    ensures AllRelease(FullChunkReads(div), r1 + r2) <==>
              AllRelease(FullChunkReads(div), r1) && AllRelease(PieceReads(PutReadyFull), r2)
  {
    FullChunkReadsPrefix(done + 1, div);
    FullChunkReadsPrefix(done, div);
    assert FullChunkReads(done + 1) == FullChunkReads(done) + PieceReads(PutReadyFull);
    AllReleaseJoin(FullChunkReads(done), PieceReads(PutReadyFull), r1, r2);
    AllReleasePrefix(FullChunkReads(done + 1), FullChunkReads(div), r1 + r2);
    AllReleasePrefix(FullChunkReads(done), FullChunkReads(div), r1);
  }

  /** The full chunks read so far are the first reads of all of them. */
  lemma {:induction false} FullChunkReadsPrefix(j: nat, k: nat)
    requires j <= k
    ensures FullChunkReads(j) <= FullChunkReads(k)
    decreases k
  {
    if j < k {
      FullChunkReadsPrefix(j, k - 1);
    }
  }

  /** The site-specific strings of `upload_file` (server, account, remote file and path). */
  datatype FtpConfig = FtpConfig(server: seq<char>, user: seq<char>, password: seq<char>,
                                 fileName: seq<char>, path: seq<char>)
  {
    predicate Valid()
    {
      Nul !in server && Nul !in user && Nul !in password && Nul !in fileName && Nul !in path
    }
  }

  function Quoted(prefix: seq<char>, value: seq<char>): seq<char>
  {
    prefix + "\"" + value + "\""
  }

  // The command lines of each phase of `upload_file`, as written (terminator included).
  function PreambleCommands(): set<seq<char>>
  {
    {At + [CR], SapbrContype + [CR], SapbrApn + [CR]}
  }

  function SetupCommands(cfg: FtpConfig): set<seq<char>>
  {
    {SapbrQuery + [CR], FtpCid + [CR], Quoted("AT+FTPSERV=", cfg.server) + [CR],
     Quoted("AT+FTPUN=", cfg.user) + [CR], Quoted("AT+FTPPW=", cfg.password) + [CR],
     Quoted("AT+FTPPUTNAME=", cfg.fileName) + [CR], Quoted("AT+FTPPUTPATH=", cfg.path) + [CR],
     FtpPutOpen + [CR]}
  }

  function TransferCommands(mod: nat): set<seq<char>>
  {
    {DeclareFull + [CR], DeclareRest(mod) + [CR], FtpPutClose + [CR]}
  }

  /** The bearer command belongs to no other phase, and no transfer command to an earlier one. */
  lemma PhasesApart(cfg: FtpConfig, mod: nat)
    ensures SapbrOpen + [CR] !in PreambleCommands() + SetupCommands(cfg) + TransferCommands(mod)
    ensures DeclareFull + [CR] !in PreambleCommands() + {SapbrOpen + [CR]} + SetupCommands(cfg)
    ensures DeclareRest(mod) + [CR] !in PreambleCommands() + {SapbrOpen + [CR]} + SetupCommands(cfg)
  {
    OpenApart(cfg, mod);
    DeclarationsApart(cfg, DeclareFull + [CR]);
    DeclarationsApart(cfg, DeclareRest(mod) + [CR]);
  }

  /** `AT+SAPBR=1,1` is none of the other commands: its `S` and its `1` tell it apart. */
  lemma OpenApart(cfg: FtpConfig, mod: nat)
    ensures SapbrOpen + [CR] !in PreambleCommands() + SetupCommands(cfg) + TransferCommands(mod)
  {
    var sap := SapbrOpen + [CR];
    assert sap[3] == 'S' && sap[9] == '1';
    assert (SapbrQuery + [CR])[9] == '2' && (SapbrContype + [CR])[9] == '3' && (SapbrApn + [CR])[9] == '3';
    assert (DeclareRest(mod) + [CR])[3] == 'F';
  }

  /** An `AT+FTPPUT=2,...` declaration is none of the opening commands. */
  lemma DeclarationsApart(cfg: FtpConfig, decl: seq<char>)
    requires |decl| > 10 && decl[..11] == "AT+FTPPUT=2"
    ensures decl !in PreambleCommands() + {SapbrOpen + [CR]} + SetupCommands(cfg)
  {
    var serv, user := Quoted("AT+FTPSERV=", cfg.server) + [CR], Quoted("AT+FTPUN=", cfg.user) + [CR];
    var pw := Quoted("AT+FTPPW=", cfg.password) + [CR];
    var name, path := Quoted("AT+FTPPUTNAME=", cfg.fileName) + [CR], Quoted("AT+FTPPUTPATH=", cfg.path) + [CR];
    assert decl[3] == 'F' && decl[6] == 'P' && decl[7] == 'U' && decl[9] == '=' && decl[10] == '2';
    assert serv[6] == 'S' && user[6] == 'U' && pw[7] == 'W' && name[9] == 'N' && path[9] == 'P';
  }

  /** One more declared piece after earlier ones: the commands, the counts and the file prefix carried so far. */
  lemma PieceAppended(before: seq<Event>, t: seq<Event>, n0: nat, cmd: seq<char>, file: seq<char>, sent: nat, next: nat)
    requires n0 <= |before| && before <= t && sent <= next <= |file|
    requires CommandsIn(before, n0, {cmd}) && CommandsIn(t, |before|, {cmd})
    requires Payloads(before[n0..]) == file[..sent] && Payloads(t[|before|..]) == file[sent..next]
    ensures CommandsIn(t, n0, {cmd}) && Payloads(t[n0..]) == file[..next]
    ensures CountCommand(t[n0..], cmd) == CountCommand(before[n0..], cmd) + CountCommand(t[|before|..], cmd)
    ensures Released(t, n0) ==> Released(before, n0) && Released(t, |before|)
  {
    Grown(before, t, n0, cmd);
    CommandsJoin(before, t, n0, {cmd}, {cmd});
    SlicesJoin(file, sent, next);
    if Released(t, n0) {
      ReleasedBefore(before, t, n0);
    }
  }

  /**
   * The remainder's declaration and data, then the close: the log of the
   * transfer's last part.
   */
  lemma CloseAfterRest(m: seq<Event>, t: seq<Event>, n0: nat, mod: nat, start: bool, ready: bool, data: seq<char>)
    requires mod < ChunkSize && n0 <= |m| && m <= t
    requires CommandsIn(m, n0, {DeclareRest(mod) + [CR]}) && Payloads(m[n0..]) == data
    requires CountCommand(m[n0..], DeclareRest(mod) + [CR]) == (if start then 1 else 0)
    requires OnlyCommands(t, |m|, {FtpPutClose + [CR]})
    requires CountCommand(t[|m|..], FtpPutClose + [CR]) == (if ready then 1 else 0)
    ensures CommandsIn(t, n0, {DeclareRest(mod) + [CR], FtpPutClose + [CR]}) && Payloads(t[n0..]) == data
    ensures CountCommand(t[n0..], DeclareFull + [CR]) == CountCommand(m[n0..], DeclareFull + [CR])
    ensures Released(t, n0) ==> Released(m, n0)
    ensures start && ready ==>
              && CountCommand(t[n0..], DeclareRest(mod) + [CR]) == (if mod == 0 then 2 else 1)
              && Commands(t[n0..]) == [DeclareRest(mod) + [CR], FtpPutClose + [CR]]
  {
    var full, rest, close := DeclareFull + [CR], DeclareRest(mod) + [CR], FtpPutClose + [CR];
    DeclareRestApart(mod);
    Grown(m, t, n0, full);
    Grown(m, t, n0, rest);
    assert |full| == 17 && |close| == 14;
    CountCommandAbsentFrom(t, |m|, full, {close});
    PayloadsAbsentFrom(t, |m|);
    CommandsJoin(m, t, n0, {rest}, {close});
    assert {rest} + {close} == {rest, close};
    if mod != 0 {
      CountCommandAbsentFrom(t, |m|, rest, {close});
    }
    if Released(t, n0) {
      ReleasedBefore(m, t, n0);
    }
    if start && ready {
      RestThenClose(m, t, n0, rest, close);
    }
  }

  /** The full chunks, then the remainder and the close: what the transfer holds. */
  lemma FullThenRest(m: seq<Event>, t: seq<Event>, n0: nat, mod: nat)
    requires n0 <= |m| && m <= t
    requires CommandsIn(m, n0, {DeclareFull + [CR]}) && CountCommand(m[n0..], DeclareRest(mod) + [CR]) == 0
    requires CommandsIn(t, |m|, {DeclareRest(mod) + [CR], FtpPutClose + [CR]})
    requires CountCommand(t[|m|..], DeclareFull + [CR]) == 0
    ensures CommandsIn(t, n0, TransferCommands(mod))
    ensures CountCommand(t[n0..], DeclareFull + [CR]) == CountCommand(m[n0..], DeclareFull + [CR])
    ensures CountCommand(t[n0..], DeclareRest(mod) + [CR]) == CountCommand(t[|m|..], DeclareRest(mod) + [CR])
    ensures Payloads(t[n0..]) == Payloads(m[n0..]) + Payloads(t[|m|..])
    ensures Released(t, n0) ==> Released(m, n0) && Released(t, |m|)
  {
    var full, rest, close := DeclareFull + [CR], DeclareRest(mod) + [CR], FtpPutClose + [CR];
    Grown(m, t, n0, full);
    Grown(m, t, n0, rest);
    CommandsJoin(m, t, n0, {full}, {rest, close});
    assert {full} + {rest, close} == TransferCommands(mod);
    if Released(t, n0) {
      ReleasedBefore(m, t, n0);
    }
  }

  /** The remainder's declaration once, then the close once: the order of the last two command lines. */
  lemma RestThenClose(m: seq<Event>, t: seq<Event>, n0: nat, rest: seq<char>, close: seq<char>)
    requires n0 <= |m| && m <= t
    requires CommandsIn(m, n0, {rest}) && CountCommand(m[n0..], rest) == 1
    requires CommandsIn(t, |m|, {close}) && CountCommand(t[|m|..], close) == 1
    ensures Commands(t[n0..]) == [rest, close]
  {
    assert t[n0..] == m[n0..] + t[|m|..];
    CommandsAppend(m[n0..], t[|m|..]);
    CommandsUniformFrom(m, n0, rest);
    CommandsUniformFrom(t, |m|, close);
  }

  /** The full declarations, then what comes after them: the order of the transfer's command lines. */
  lemma FullThenRestOrder(m: seq<Event>, t: seq<Event>, n0: nat, full: seq<char>, div: nat)
    requires n0 <= |m| && m <= t
    requires CommandsIn(m, n0, {full}) && CountCommand(m[n0..], full) == div
    ensures Commands(t[n0..]) == Repeat(full, div) + Commands(t[|m|..])
  {
    assert t[n0..] == m[n0..] + t[|m|..];
    CommandsAppend(m[n0..], t[|m|..]);
    CommandsUniformFrom(m, n0, full);
  }

  /**
   * The trace of a transfer that ran to the end: the whole file as data,
   * `div` full declarations, then the remainder's declaration and the close.
   */
  ghost predicate WholeFile(u: seq<Event>, file: seq<char>)
  {
    && Payloads(u) == file
    && CountCommand(u, DeclareFull + [CR]) == |file| / ChunkSize
    && CountCommand(u, DeclareRest(|file| % ChunkSize) + [CR]) == (if |file| % ChunkSize == 0 then 2 else 1)
    && Commands(u) == Repeat(DeclareFull + [CR], |file| / ChunkSize)
                      + [DeclareRest(|file| % ChunkSize) + [CR], FtpPutClose + [CR]]
  }

  /**
   * The full chunks (up to `m`), then the remainder and the close: the
   * transfer's trace, and when both halves ran to the end, the whole file
   * in order.
   */
  lemma TransferJoin(m: seq<Event>, t: seq<Event>, n0: nat, file: seq<char>, div: nat, mod: nat, sent: nat, next: nat, done: bool)
    requires n0 <= |m| && m <= t && div * ChunkSize + mod == |file| && mod < ChunkSize
    requires CommandsIn(m, n0, {DeclareFull + [CR]}) && CountCommand(m[n0..], DeclareRest(mod) + [CR]) == 0
    requires sent <= |file| && Payloads(m[n0..]) == file[..sent] && CountCommand(m[n0..], DeclareFull + [CR]) <= div
    requires CommandsIn(t, |m|, {DeclareRest(mod) + [CR], FtpPutClose + [CR]}) && CountCommand(t[|m|..], DeclareFull + [CR]) == 0
    requires sent <= next <= |file| && Payloads(t[|m|..]) == file[sent..next]
    requires done ==>
      && sent == Min(div * ChunkSize, |file|) && CountCommand(m[n0..], DeclareFull + [CR]) == div
      && next == sent + Min(mod, |file| - sent)
      && CountCommand(t[|m|..], DeclareRest(mod) + [CR]) == (if mod == 0 then 2 else 1)
      && Commands(t[|m|..]) == [DeclareRest(mod) + [CR], FtpPutClose + [CR]]
    ensures CommandsIn(t, n0, TransferCommands(mod))
    ensures Payloads(t[n0..]) == file[..next] && CountCommand(t[n0..], DeclareFull + [CR]) <= div
    ensures Released(t, n0) ==> Released(m, n0) && Released(t, |m|)
    ensures done ==> next == |file| && WholeFile(t[n0..], file)
  {
    FullThenRest(m, t, n0, mod);
    SlicesJoin(file, sent, next);
    if done {
      FullThenRestOrder(m, t, n0, DeclareFull + [CR], div);
      assert file[..|file|] == file;
      assert div == |file| / ChunkSize && mod == |file| % ChunkSize;
    }
  }

  /** The opening of the session writes no data and no declaration. */
  lemma ConnectQuiet(c: seq<Event>, n0: nat, cfg: FtpConfig, mod: nat)
    requires n0 <= |c| && OnlyCommands(c, n0, PreambleCommands() + {SapbrOpen + [CR]} + SetupCommands(cfg))
    ensures Payloads(c[n0..]) == []
    ensures CountCommand(c[n0..], DeclareFull + [CR]) == 0 && CountCommand(c[n0..], DeclareRest(mod) + [CR]) == 0
  {
    var cmds := PreambleCommands() + {SapbrOpen + [CR]} + SetupCommands(cfg);
    PhasesApart(cfg, mod);
    CountCommandAbsentFrom(c, n0, DeclareFull + [CR], cmds);
    CountCommandAbsentFrom(c, n0, DeclareRest(mod) + [CR], cmds);
    PayloadsAbsentFrom(c, n0);
  }

  /** The transfer after the opening: the data and the declarations are the transfer's, the bearer attempts the opening's. */
  lemma ConnectThenTransfer(c: seq<Event>, t: seq<Event>, n0: nat, cfg: FtpConfig, mod: nat)
    requires n0 <= |c| && c <= t && CommandsIn(t, |c|, TransferCommands(mod))
    requires Payloads(c[n0..]) == []
    requires CountCommand(c[n0..], DeclareFull + [CR]) == 0 && CountCommand(c[n0..], DeclareRest(mod) + [CR]) == 0
    ensures CountCommand(t[n0..], SapbrOpen + [CR]) == CountCommand(c[n0..], SapbrOpen + [CR])
    ensures Payloads(t[n0..]) == Payloads(t[|c|..])
    ensures CountCommand(t[n0..], DeclareFull + [CR]) == CountCommand(t[|c|..], DeclareFull + [CR])
    ensures CountCommand(t[n0..], DeclareRest(mod) + [CR]) == CountCommand(t[|c|..], DeclareRest(mod) + [CR])
    ensures Released(t, n0) ==> Released(c, n0) && Released(t, |c|)
  {
    PhasesApart(cfg, mod);
    Grown(c, t, n0, SapbrOpen + [CR]);
    Grown(c, t, n0, DeclareFull + [CR]);
    Grown(c, t, n0, DeclareRest(mod) + [CR]);
    CountCommandAbsentFrom(t, |c|, SapbrOpen + [CR], TransferCommands(mod));
    if Released(t, n0) {
      ReleasedBefore(c, t, n0);
    }
  }

  /** The opening (up to `c`), then the transfer: what the whole upload's trace holds. */
  lemma OpeningThenTransfer(c: seq<Event>, t: seq<Event>, n0: nat, cfg: FtpConfig, file: seq<char>)
    requires n0 <= |c| && c <= t
    requires OnlyCommands(c, n0, PreambleCommands() + {SapbrOpen + [CR]} + SetupCommands(cfg))
    requires CountCommand(c[n0..], SapbrOpen + [CR]) <= 5
    requires CommandsIn(t, |c|, TransferCommands(|file| % ChunkSize))
    requires Payloads(t[|c|..]) <= file && CountCommand(t[|c|..], DeclareFull + [CR]) <= |file| / ChunkSize
    ensures t[..|c|] == c
    ensures CountCommand(t[n0..], SapbrOpen + [CR]) <= 5
    ensures Payloads(t[n0..]) == Payloads(t[|c|..]) && Payloads(t[n0..]) <= file
    ensures CountCommand(t[n0..], DeclareFull + [CR]) <= |file| / ChunkSize
    ensures Released(t, n0) ==> Released(c, n0) && Released(t, |c|)
  {
    var mod := |file| % ChunkSize;
    ConnectQuiet(c, n0, cfg, mod);
    ConnectThenTransfer(c, t, n0, cfg, mod);
  }

  /**
   * One `uart_read_gen` call that starts reading `s` at index `from`: `r` is
   * its first stop there, with the code it returns, and `to` is where the
   * next read starts.
   */
  ghost predicate GenAnswer(s: seq<Rx>, from: nat, r: Reply, to: nat)
  {
    && from <= |s|
    && FirstStop(GenReader, s[from..], r)
    && (r.Stopped? ==> r.code == GenCode(s[from..], r.at))
    && to == from + Consumed(r, |s| - from)
  }

  /**
   * `rs` are the replies of successive `uart_read_gen` calls on `s`: the
   * `i`-th starts at `marks[i]` and the next one where it stopped.
   */
  ghost predicate GenReplies(s: seq<Rx>, marks: seq<nat>, rs: seq<Reply>)
  {
    && |marks| == |rs| + 1
    && forall i :: 0 <= i < |rs| ==> GenAnswer(s, marks[i], rs[i], marks[i + 1])
  }

  /** One more call where the last one stopped extends the replies. */
  lemma GenRepliesAppended(s: seq<Rx>, marks: seq<nat>, rs: seq<Reply>, r: Reply, to: nat)
    requires GenReplies(s, marks, rs) && GenAnswer(s, marks[|rs|], r, to)
    ensures GenReplies(s, marks + [to], rs + [r])
  {
    forall i | 0 <= i < |rs| + 1
      ensures GenAnswer(s, (marks + [to])[i], (rs + [r])[i], (marks + [to])[i + 1])
    {
      if i < |rs| {
        assert GenAnswer(s, marks[i], rs[i], marks[i + 1]);
      }
    }
  }

  /**
   * A whole run of the bearer loop is a session of `uart_read_gen` reads
   * that stalls only where the stream runs out.
   */
  lemma BearerRan(s: seq<Rx>, marks: seq<nat>, rs: seq<Reply>, from: nat, to: nat)
    requires GenReplies(s, marks, rs) && BearerRun(rs) && marks[0] == from && marks[|rs|] == to
    ensures Ran(s, BearerReads(|rs|), from, to, marks, rs, BearerOutcome(rs) != Blocked)
  {
    forall i | 0 <= i < |rs|
      ensures Answer(BearerReads(|rs|)[i], s, marks[i], rs[i], marks[i + 1])
    {
      assert GenAnswer(s, marks[i], rs[i], marks[i + 1]);
    }
    forall i | 0 <= i < |rs| - 1
      ensures rs[i].Stopped?
    {
      assert rs[..|rs| - 1][i] == rs[i];
    }
  }

  /**
   * The bearer loop's replies `bearer`, with their marks, sit in a session's
   * replies `rs` right after the preamble's.
   */
  ghost predicate BearerWithin(s: seq<Rx>, marks: seq<nat>, rs: seq<Reply>, bearer: seq<Reply>)
  {
    && |PreambleReads| + |bearer| <= |rs| && |marks| == |rs| + 1
    && rs[|PreambleReads|..|PreambleReads| + |bearer|] == bearer
    && GenReplies(s, marks[|PreambleReads|..|PreambleReads| + |bearer| + 1], bearer)
  }

  /** The bearer loop after a preamble that got through: the session of both, holding the loop's replies. */
  lemma BearerAfterPreamble(s: seq<Rx>, from: nat, mid: nat, to: nat, m1: seq<nat>, r1: seq<Reply>,
                            bm: seq<nat>, bearer: seq<Reply>)
    requires Ran(s, PreambleReads, from, mid, m1, r1, true)
    requires GenReplies(s, bm, bearer) && BearerRun(bearer) && bm[0] == mid && bm[|bearer|] == to
    ensures Ran(s, PreambleReads + BearerReads(|bearer|), from, to, m1 + bm[1..], r1 + bearer,
                BearerOutcome(bearer) != Blocked)
    ensures BearerWithin(s, m1 + bm[1..], r1 + bearer, bearer)
  {
    BearerRan(s, bm, bearer, mid, to);
    RanJoin(s, PreambleReads, BearerReads(|bearer|), from, mid, to, m1, r1, bm, bearer, BearerOutcome(bearer) != Blocked);
    var n := |PreambleReads|;
    assert (r1 + bearer)[n..n + |bearer|] == bearer;
    assert (m1 + bm[1..])[n..n + |bearer| + 1] == bm;
  }

  /** Later replies leave the bearer loop's where they were. */
  lemma BearerWithinLonger(s: seq<Rx>, marks: seq<nat>, rs: seq<Reply>, bearer: seq<Reply>, m2: seq<nat>, r2: seq<Reply>)
    requires BearerWithin(s, marks, rs, bearer) && |m2| == |r2| + 1
    ensures BearerWithin(s, marks + m2[1..], rs + r2, bearer)
  {
    var n := |PreambleReads|;
    assert (rs + r2)[n..n + |bearer|] == rs[n..n + |bearer|];
    assert (marks + m2[1..])[n..n + |bearer| + 1] == marks[n..n + |bearer| + 1];
  }

  /** The setup, run where a connected bearer loop ended: the session of the whole opening. */
  lemma SetupAfterBearer(s: seq<Rx>, from: nat, mid: nat, to: nat, m1: seq<nat>, r1: seq<Reply>,
                         bearer: seq<Reply>, m2: seq<nat>, r2: seq<Reply>, alive: bool)
    requires Ran(s, PreambleReads + BearerReads(|bearer|), from, mid, m1, r1, true)
    requires BearerWithin(s, m1, r1, bearer)
    requires Ran(s, SetupReads, mid, to, m2, r2, alive)
    ensures Ran(s, ConnectReads(|bearer|), from, to, m1 + m2[1..], r1 + r2, alive)
    ensures BearerWithin(s, m1 + m2[1..], r1 + r2, bearer)
  {
    RanJoin(s, PreambleReads + BearerReads(|bearer|), SetupReads, from, mid, to, m1, r1, m2, r2, alive);
    BearerWithinLonger(s, m1, r1, bearer, m2, r2);
  }

  /** The transfer, run where the opening ended: the session of the whole upload. */
  lemma TransferAfterConnect(s: seq<Rx>, size: nat, from: nat, mid: nat, to: nat, m1: seq<nat>, r1: seq<Reply>,
                             bearer: seq<Reply>, m2: seq<nat>, r2: seq<Reply>, alive: bool)
    requires Ran(s, ConnectReads(|bearer|), from, mid, m1, r1, true)
    requires BearerWithin(s, m1, r1, bearer)
    requires Ran(s, TransferReads(size), mid, to, m2, r2, alive)
    ensures Ran(s, UploadReads(|bearer|, size), from, to, m1 + m2[1..], r1 + r2, alive)
    ensures BearerWithin(s, m1 + m2[1..], r1 + r2, bearer)
    ensures r1 + r2 != [] && ((r1 + r2)[|r1 + r2| - 1].Exhausted? <==> !alive)
  {
    RanJoin(s, ConnectReads(|bearer|), TransferReads(size), from, mid, to, m1, r1, m2, r2, alive);
    BearerWithinLonger(s, m1, r1, bearer, m2, r2);
    RanLast(s, UploadReads(|bearer|, size), from, to, m1 + m2[1..], r1 + r2, alive);
  }

  /**
   * The log of the opening `c`, then of the transfer: no reader failed in it
   * exactly when every reply of the whole upload released the line.
   */
  lemma UploadReleased(c: seq<Event>, t: seq<Event>, n0: nat, attempts: nat, size: nat, r1: seq<Reply>, r2: seq<Reply>)
    requires n0 <= |c| && c <= t && |r1| == |ConnectReads(attempts)|
    requires Released(c, n0) <==> AllRelease(ConnectReads(attempts), r1)
    requires Released(t, |c|) <==> AllRelease(TransferReads(size), r2)
    ensures Released(t, n0) <==> AllRelease(UploadReads(attempts, size), r1 + r2)
  {
    ReleasedJoin(c, t, n0);
    AllReleaseJoin(ConnectReads(attempts), TransferReads(size), r1, r2);
  }

  /** Every reply so far sends the bearer loop round again: each arrived, and none is `OK`. */
  ghost predicate Retrying(rs: seq<Reply>)
  {
    forall i :: 0 <= i < |rs| ==> rs[i].Stopped? && rs[i].code != Matched
  }

  /**
   * The replies of a whole run of the bearer loop: one to five attempts,
   * all but the last answered without `OK`, and the last ending the loop
   * early only because it is `OK` or the stream ran out.
   */
  ghost predicate BearerRun(rs: seq<Reply>)
  {
    && 1 <= |rs| <= 5
    && Retrying(rs[..|rs| - 1])
    && (|rs| < 5 ==> rs[|rs| - 1].Exhausted? || rs[|rs| - 1].code == Matched)
  }

  /** How the bearer loop ends after `rs`: the stream ran out, `ERROR` on the fifth attempt, or on to the setup. */
  function BearerOutcome(rs: seq<Reply>): (end: ConnectEnd)
    requires rs != []
    ensures end == Blocked <==> rs[|rs| - 1].Exhausted?
    ensures end == Aborted <==> BearerAborted(rs)
  {
    if rs[|rs| - 1].Exhausted? then Blocked
    else if BearerAborted(rs) then Aborted
    else Connected
  }

  /** The bearer loop's replies end in the abort: `ERROR` on the fifth attempt. */
  predicate BearerAborted(rs: seq<Reply>)
  {
    |rs| == 5 && rs[4].Stopped? && rs[4].code == ErrorReply
  }

  /** How the opening of the session ended: ready for the transfer, the SAPBR abort, or a read that never ends. */
  datatype ConnectEnd = Connected | Aborted | Blocked

  /** How `upload_file` ended: the total it reports, the early return, or a read that never ends. */
  datatype UploadEnd = Uploaded(total: int) | BearerFailed | Stalled

  /**
   * The modem session: the inbound stream (`rx`, read from `pos` on), the
   * `tx_enable` flag and what has been done on the line.
   */
  class FtpSession {
    const rx: seq<Rx>
    var pos: nat
    var txEnable: bool
    var trace: seq<Event>

    ghost predicate Valid()
      reads this
    {
      && pos <= |rx|
      && HalfDuplex(trace)
      && (txEnable && trace != [] ==> trace[|trace| - 1] == Response(true))
    }

    /** The session at program start: `tx_enable = 1`. */
    constructor (input: seq<Rx>)
      ensures Valid()
      ensures rx == input && pos == 0 && txEnable && trace == []
    {
      rx := input;
      pos := 0;
      txEnable := true;
      trace := [];
    }

    /**
     * `if (tx_enable) { strcpy(uart_str, text); strcat(uart_str, at_D); uart_write(); } tx_enable = 0;`
     */
    method Transmit(text: seq<char>) returns (wrote: bool)
      requires Valid() && Nul !in text
      modifies this`txEnable, this`trace
      ensures Valid()
      ensures wrote == old(txEnable) && !txEnable
      ensures trace == old(trace) + (if wrote then [Command(text + [CR])] else [])
    {
      wrote := txEnable;
      if txEnable {
        FrameOfCString(text, CR);
        trace := trace + [Command(Frame(text, CR))];
      }
      txEnable := false;
    }

    /**
     * `if (tx_enable) { ...; uart_write_tmp(c); } tx_enable = 0;`: the bytes
     * go out by explicit length, NUL and CR included.
     */
    method TransmitChunk(data: seq<char>) returns (wrote: bool)
      requires Valid()
      modifies this`txEnable, this`trace
      ensures Valid()
      ensures wrote == old(txEnable) && !txEnable
      ensures trace == old(trace) + (if wrote then [Payload(data)] else [])
    {
      wrote := txEnable;
      if txEnable {
        trace := trace + [Payload(data)];
      }
      txEnable := false;
    }

    /** `tx_enable = 0; uart_read_OK();` */
    method ReadOk() returns (r: Reply)
      requires Valid()
      modifies this`pos, this`txEnable, this`trace
      ensures Valid()
      ensures FirstStop(OkReader, rx[old(pos)..], r)
      ensures pos == old(pos) + Consumed(r, |rx| - old(pos))
      ensures txEnable <==> r.Stopped? && r.code == Matched
      ensures trace == old(trace) + (if r.Stopped? then [Response(txEnable)] else [])
    {
      txEnable := false;
      r := ReadOkScan(rx[pos..]);
      pos := pos + Consumed(r, |rx| - pos);
      if r.Stopped? {
        txEnable := r.code == Matched;
        trace := trace + [Response(txEnable)];
      }
    }

    /** `tx_enable = 0; uart_read_MSG();` */
    method ReadPrompt() returns (r: Reply)
      requires Valid()
      modifies this`pos, this`txEnable, this`trace
      ensures Valid()
      ensures FirstStop(PromptReader, rx[old(pos)..], r)
      ensures pos == old(pos) + Consumed(r, |rx| - old(pos))
      ensures txEnable <==> r.Stopped? && r.code == Matched
      ensures trace == old(trace) + (if r.Stopped? then [Response(txEnable)] else [])
    {
      txEnable := false;
      r := ReadPromptScan(rx[pos..]);
      pos := pos + Consumed(r, |rx| - pos);
      if r.Stopped? {
        txEnable := r.code == Matched;
        trace := trace + [Response(txEnable)];
      }
    }

    /** `tx_enable = 0; uart_read_FTPPUT(target);` */
    method ReadTarget(target: seq<char>) returns (r: Reply)
      requires Valid()
      modifies this`pos, this`txEnable, this`trace
      ensures Valid()
      ensures FirstStop(TargetReader(target), rx[old(pos)..], r)
      ensures pos == old(pos) + Consumed(r, |rx| - old(pos))
      ensures txEnable <==> r.Stopped? && r.code == Matched
      ensures trace == old(trace) + (if r.Stopped? then [Response(txEnable)] else [])
    {
      txEnable := false;
      r := ReadTargetScan(rx[pos..], target);
      pos := pos + Consumed(r, |rx| - pos);
      if r.Stopped? {
        txEnable := r.code == Matched;
        trace := trace + [Response(txEnable)];
      }
    }

    /** `tx_enable = 0; uart_read_gen();`: both `0` and `6` release the line. */
    method ReadGen() returns (r: Reply)
      requires Valid()
      modifies this`pos, this`txEnable, this`trace
      ensures Valid()
      ensures FirstStop(GenReader, rx[old(pos)..], r)
      ensures r.Stopped? ==> r.code == GenCode(rx[old(pos)..], r.at)
      ensures pos == old(pos) + Consumed(r, |rx| - old(pos))
      ensures txEnable <==> r.Stopped? && (r.code == Matched || r.code == ErrorReply)
      ensures trace == old(trace) + (if r.Stopped? then [Response(txEnable)] else [])
    {
      txEnable := false;
      r := ReadGenScan(rx[pos..]);
      if r.Stopped? {
        GenReplyCode(rx[pos..], r);
      }
      pos := pos + Consumed(r, |rx| - pos);
      if r.Stopped? {
        txEnable := r.code == Matched || r.code == ErrorReply;
        trace := trace + [Response(txEnable)];
      }
    }

    /**
     * One command and its `OK`; `alive` is false when the stream ended
     * inside the read, where the source blocks for ever.
     */
    method Exchange(text: seq<char>, ghost cmds: set<seq<char>>) returns (alive: bool, ghost r: Reply)
      requires Valid() && Nul !in text && text + [CR] in cmds
      modifies this`pos, this`txEnable, this`trace
      ensures Valid()
      ensures old(pos) <= pos
      ensures !alive ==> pos == |rx|
      ensures Answer(OkReader, rx, old(pos), r, pos)
      ensures alive <==> r.Stopped?
      ensures alive ==> (txEnable <==> r.code == Matched)
      ensures trace == old(trace) + (if old(txEnable) then [Command(text + [CR])] else [])
                                  + (if alive then [Response(txEnable)] else [])
      ensures old(trace) <= trace && OnlyCommands(trace, |old(trace)|, cmds)
      ensures alive && Released(trace, |old(trace)|) ==> txEnable
      ensures Released(trace, |old(trace)|) <==> Releases(OkReader, r)
    {
      ghost var before := trace;
      var wrote := Transmit(text);
      var got := ReadOk();
      r, alive := got, !got.Exhausted?;
      WriteReleased(before, trace, if wrote then [Command(text + [CR])] else [], alive, txEnable);
    }

    /**
     * `Exchange` as the `k`-th read of a session whose first `k` reads all
     * arrived, the log since `n0` holding only commands of `cmds`.
     */
    method ExchangeNext(text: seq<char>, ghost cmds: set<seq<char>>, ghost n0: nat, ghost script: seq<Reader>,
                        ghost k: nat, ghost from: nat, ghost marks0: seq<nat>, ghost replies0: seq<Reply>)
      returns (alive: bool, ghost marks: seq<nat>, ghost replies: seq<Reply>)
      requires Valid() && Nul !in text && text + [CR] in cmds
      requires n0 <= |trace| && OnlyCommands(trace, n0, cmds)
      requires k < |script| && script[k] == OkReader && Ran(rx, script[..k], from, pos, marks0, replies0, true)
      requires Released(trace, n0) <==> AllRelease(script, replies0)
      modifies this`pos, this`txEnable, this`trace
      ensures Valid() && old(pos) <= pos && old(trace) <= trace && OnlyCommands(trace, n0, cmds)
      ensures Ran(rx, script[..k + 1], from, pos, marks, replies, alive)
      ensures !alive ==> Ran(rx, script, from, pos, marks, replies, false) && pos == |rx|
      ensures alive && Released(trace, n0) ==> txEnable
      ensures Released(trace, n0) <==> AllRelease(script, replies)
    {
      ghost var p, before := pos, trace;
      ghost var r;
      alive, r := Exchange(text, cmds);
      RanNext(rx, script, k, from, p, pos, marks0, replies0, r);
      marks, replies := marks0 + [pos], replies0 + [r];
      OnlyCommandsJoin(before, trace, n0, cmds, cmds);
      ReleasedJoin(before, trace, n0);
      AllReleaseNext(script, replies0, r);
    }

    /** The three opening exchanges of `upload_file`: `AT`, the GPRS contype and the APN. */
    method Preamble() returns (alive: bool, ghost marks: seq<nat>, ghost replies: seq<Reply>)
      requires Valid()
      modifies this`pos, this`txEnable, this`trace
      ensures Valid()
      ensures old(pos) <= pos
      ensures !alive ==> pos == |rx|
      ensures Ran(rx, PreambleReads, old(pos), pos, marks, replies, alive)
      ensures old(trace) <= trace && OnlyCommands(trace, |old(trace)|, PreambleCommands())
      ensures alive && Released(trace, |old(trace)|) ==> txEnable
      ensures Released(trace, |old(trace)|) <==> AllRelease(PreambleReads, replies)
    {
      ghost var n0, cmds, script := |trace|, PreambleCommands(), PreambleReads;
      RanNone(rx, script, pos);
      alive, marks, replies := ExchangeNext(At, cmds, n0, script, 0, pos, [pos], []);
      if !alive {
        return;
      }
      alive, marks, replies := ExchangeNext(SapbrContype, cmds, n0, script, 1, old(pos), marks, replies);
      if !alive {
        return;
      }
      alive, marks, replies := ExchangeNext(SapbrApn, cmds, n0, script, 2, old(pos), marks, replies);
      assert script[..3] == script;
    }

    /**
     * `while (sapbr_cnt) { ... AT+SAPBR=1,1 ... }`: at most five attempts,
     * leaving at the first `OK`; `ERROR` on the fifth attempt aborts the
     * upload, and a failed read on it lets the upload go on. `replies` are
     * the answers of the successive `uart_read_gen` calls.
     */
    method ActivateBearer() returns (outcome: ConnectEnd, ghost replies: seq<Reply>, ghost marks: seq<nat>)
      requires Valid()
      modifies this`pos, this`txEnable, this`trace
      ensures Valid()
      ensures old(trace) <= trace
      ensures OnlyCommands(trace, |old(trace)|, {SapbrOpen + [CR]})
      ensures GenReplies(rx, marks, replies) && marks[0] == old(pos) && marks[|replies|] == pos
      ensures BearerRun(replies) && outcome == BearerOutcome(replies)
      ensures outcome == Blocked ==> pos == |rx|
      ensures CountCommand(trace[|old(trace)|..], SapbrOpen + [CR]) <= |replies|
      ensures outcome == Connected && Released(trace, |old(trace)|) ==> txEnable
      ensures Released(trace, |old(trace)|) <==> AllRelease(BearerReads(|replies|), replies)
    {
      ghost var n0, cmds := |trace|, {SapbrOpen + [CR]};
      var sapbrCount := 5;
      replies, marks, outcome := [], [pos], Connected;
      while sapbrCount > 0
        invariant Valid()
        invariant 0 <= sapbrCount <= 5 && |replies| == 5 - sapbrCount
        invariant outcome == Connected
        invariant old(trace) <= trace && n0 == |old(trace)|
        invariant GenReplies(rx, marks, replies) && marks[0] == old(pos) && marks[|replies|] == pos
        invariant Retrying(replies) && !BearerAborted(replies)
        invariant OnlyCommands(trace, n0, cmds)
        invariant CountCommand(trace[n0..], SapbrOpen + [CR]) <= |replies|
        invariant replies != [] && Released(trace, n0) ==> txEnable
        invariant Released(trace, n0) <==> AllRelease(BearerReads(|replies|), replies)
      {
        var r := BearerRound(n0);
        BearerReleaseNext(replies, r);
        GenRepliesAppended(rx, marks, replies, r, pos);
        assert (replies + [r])[..|replies|] == replies;
        replies, marks := replies + [r], marks + [pos];
        if r.Exhausted? {
          outcome := Blocked;
          break;
        }
        if r.code == Matched {
          break;
        } else if r.code == ErrorReply && sapbrCount == 1 {
          outcome := Aborted;
          break;
        }
        sapbrCount := sapbrCount - 1;
      }
    }

    /** One more attempt: its reply, and its events joined to the log since index `n0`. */
    method BearerRound(ghost n0: nat) returns (r: Reply)
      requires Valid() && n0 <= |trace|
      requires OnlyCommands(trace, n0, {SapbrOpen + [CR]})
      modifies this`pos, this`txEnable, this`trace
      ensures Valid() && old(trace) <= trace
      ensures GenAnswer(rx, old(pos), r, pos)
      ensures OnlyCommands(trace, n0, {SapbrOpen + [CR]})
      ensures CountCommand(trace[n0..], SapbrOpen + [CR])
              == CountCommand(old(trace)[n0..], SapbrOpen + [CR]) + (if old(txEnable) then 1 else 0)
      ensures Released(trace, n0) ==> Released(old(trace), n0) && (r.Stopped? ==> txEnable)
      ensures Released(trace, n0) <==> Released(old(trace), n0) && Releases(GenReader, r)
    {
      ghost var before, cmds := trace, {SapbrOpen + [CR]};
      r := BearerAttempt();
      Grown(before, trace, n0, SapbrOpen + [CR]);
      OnlyCommandsJoin(before, trace, n0, cmds, cmds);
      ReleasedJoin(before, trace, n0);
    }

    /** One attempt of the bearer loop: `AT+SAPBR=1,1` when the line is released, then `uart_read_gen`. */
    method BearerAttempt() returns (r: Reply)
      requires Valid()
      modifies this`pos, this`txEnable, this`trace
      ensures Valid()
      ensures FirstStop(GenReader, rx[old(pos)..], r)
      ensures r.Stopped? ==> r.code == GenCode(rx[old(pos)..], r.at)
      ensures pos == old(pos) + Consumed(r, |rx| - old(pos))
      ensures old(trace) <= trace
      ensures OnlyCommands(trace, |old(trace)|, {SapbrOpen + [CR]})
      ensures CountCommand(trace[|old(trace)|..], SapbrOpen + [CR]) == (if old(txEnable) then 1 else 0)
      ensures r.Stopped? ==> (txEnable <==> r.code == Matched || r.code == ErrorReply)
      ensures r.Stopped? && Released(trace, |old(trace)|) ==> txEnable
      ensures Released(trace, |old(trace)|) <==> Releases(GenReader, r)
    {
      ghost var before := trace;
      var wrote := Transmit(SapbrOpen);
      r := ReadGen();
      CommandStep(before, trace, SapbrOpen + [CR], wrote, r.Stopped?, txEnable);
    }

    /**
     * From `AT+SAPBR=2,1` to `AT+FTPPUT=1`: the FTP session setup, then the
     * wait for `+FTPPUT:1,1,1200`.
     */
    method FtpSetup(cfg: FtpConfig) returns (alive: bool, ghost marks: seq<nat>, ghost replies: seq<Reply>)
      requires Valid() && cfg.Valid()
      modifies this`pos, this`txEnable, this`trace
      ensures Valid()
      ensures !alive ==> pos == |rx|
      ensures Ran(rx, SetupReads, old(pos), pos, marks, replies, alive)
      ensures old(trace) <= trace && OnlyCommands(trace, |old(trace)|, SetupCommands(cfg))
      ensures alive && Released(trace, |old(trace)|) ==> txEnable
      ensures Released(trace, |old(trace)|) <==> AllRelease(SetupReads, replies)
    {
      ghost var n0, cmds := |trace|, SetupCommands(cfg);
      alive, marks, replies := FtpLogin(cfg, cmds);
      if !alive {
        RanStoppedThen(rx, LoginReads, TargetReads, old(pos), pos, marks, replies);
        AllReleaseLonger(LoginReads, TargetReads, replies);
        return;
      }
      ghost var before, p := trace, pos;
      ghost var m, q;
      alive, m, q := FtpTarget(cfg, cmds);
      RanJoin(rx, LoginReads, TargetReads, old(pos), p, pos, marks, replies, m, q, alive);
      AllReleaseJoin(LoginReads, TargetReads, replies, q);
      marks, replies := marks + m[1..], replies + q;
      OnlyCommandsJoin(before, trace, n0, cmds, cmds);
      ReleasedJoin(before, trace, n0);
    }

    /** The bearer query, the FTP profile and the account: five exchanges. */
    method FtpLogin(cfg: FtpConfig, ghost cmds: set<seq<char>>) returns (alive: bool, ghost marks: seq<nat>, ghost replies: seq<Reply>)
      requires Valid() && cfg.Valid() && cmds == SetupCommands(cfg)
      modifies this`pos, this`txEnable, this`trace
      ensures Valid()
      ensures !alive ==> pos == |rx|
      ensures Ran(rx, LoginReads, old(pos), pos, marks, replies, alive)
      ensures old(trace) <= trace && OnlyCommands(trace, |old(trace)|, cmds)
      ensures Released(trace, |old(trace)|) <==> AllRelease(LoginReads, replies)
    {
      ghost var n0 := |trace|;
      alive, marks, replies := FtpProfile(cmds);
      if !alive {
        RanStoppedThen(rx, ProfileReads, AccountReads, old(pos), pos, marks, replies);
        AllReleaseLonger(ProfileReads, AccountReads, replies);
        return;
      }
      ghost var before, p := trace, pos;
      ghost var m, q;
      alive, m, q := FtpAccount(cfg, cmds);
      RanJoin(rx, ProfileReads, AccountReads, old(pos), p, pos, marks, replies, m, q, alive);
      AllReleaseJoin(ProfileReads, AccountReads, replies, q);
      marks, replies := marks + m[1..], replies + q;
      OnlyCommandsJoin(before, trace, n0, cmds, cmds);
      ReleasedJoin(before, trace, n0);
    }

    /** `AT+SAPBR=2,1` and `AT+FTPCID=1`. */
    method FtpProfile(ghost cmds: set<seq<char>>) returns (alive: bool, ghost marks: seq<nat>, ghost replies: seq<Reply>)
      requires Valid() && SapbrQuery + [CR] in cmds && FtpCid + [CR] in cmds
      modifies this`pos, this`txEnable, this`trace
      ensures Valid()
      ensures !alive ==> pos == |rx|
      ensures Ran(rx, ProfileReads, old(pos), pos, marks, replies, alive)
      ensures old(trace) <= trace && OnlyCommands(trace, |old(trace)|, cmds)
      ensures Released(trace, |old(trace)|) <==> AllRelease(ProfileReads, replies)
    {
      ghost var n0, script := |trace|, ProfileReads;
      RanNone(rx, script, pos);
      alive, marks, replies := ExchangeNext(SapbrQuery, cmds, n0, script, 0, pos, [pos], []);
      if !alive { return; }
      alive, marks, replies := ExchangeNext(FtpCid, cmds, n0, script, 1, old(pos), marks, replies);
      assert script[..2] == script;
    }

    /** The server, the user name and the password. */
    method FtpAccount(cfg: FtpConfig, ghost cmds: set<seq<char>>) returns (alive: bool, ghost marks: seq<nat>, ghost replies: seq<Reply>)
      requires Valid() && cfg.Valid() && cmds == SetupCommands(cfg)
      modifies this`pos, this`txEnable, this`trace
      ensures Valid()
      ensures !alive ==> pos == |rx|
      ensures Ran(rx, AccountReads, old(pos), pos, marks, replies, alive)
      ensures old(trace) <= trace && OnlyCommands(trace, |old(trace)|, cmds)
      ensures Released(trace, |old(trace)|) <==> AllRelease(AccountReads, replies)
    {
      ghost var n0, script := |trace|, AccountReads;
      RanNone(rx, script, pos);
      alive, marks, replies := ExchangeNext(Quoted("AT+FTPSERV=", cfg.server), cmds, n0, script, 0, pos, [pos], []);
      if !alive { return; }
      alive, marks, replies := ExchangeNext(Quoted("AT+FTPUN=", cfg.user), cmds, n0, script, 1, old(pos), marks, replies);
      if !alive { return; }
      alive, marks, replies := ExchangeNext(Quoted("AT+FTPPW=", cfg.password), cmds, n0, script, 2, old(pos), marks, replies);
      assert script[..3] == script;
    }

    /** The remote name and path, the opening of the put session and the wait for it. */
    method FtpTarget(cfg: FtpConfig, ghost cmds: set<seq<char>>) returns (alive: bool, ghost marks: seq<nat>, ghost replies: seq<Reply>)
      requires Valid() && cfg.Valid() && cmds == SetupCommands(cfg)
      modifies this`pos, this`txEnable, this`trace
      ensures Valid()
      ensures !alive ==> pos == |rx|
      ensures Ran(rx, TargetReads, old(pos), pos, marks, replies, alive)
      ensures old(trace) <= trace && OnlyCommands(trace, |old(trace)|, cmds)
      ensures alive && Released(trace, |old(trace)|) ==> txEnable
      ensures Released(trace, |old(trace)|) <==> AllRelease(TargetReads, replies)
    {
      ghost var n0, script := |trace|, TargetReads;
      RanNone(rx, script, pos);
      alive, marks, replies := ExchangeNext(Quoted("AT+FTPPUTNAME=", cfg.fileName), cmds, n0, script, 0, pos, [pos], []);
      if !alive { return; }
      alive, marks, replies := ExchangeNext(Quoted("AT+FTPPUTPATH=", cfg.path), cmds, n0, script, 1, old(pos), marks, replies);
      if !alive { return; }
      ghost var before, p := trace, pos;
      ghost var m, q;
      alive, m, q := OpenPut(cmds);
      RanThen(rx, script, 2, OpenPutReads, old(pos), p, pos, marks, replies, m, q, alive);
      AllReleaseLonger([OkReader, OkReader], OpenPutReads, replies);
      AllReleaseJoin([OkReader, OkReader], OpenPutReads, replies, q);
      marks, replies := marks + m[1..], replies + q;
      assert script[..4] == script;
      OnlyCommandsJoin(before, trace, n0, cmds, cmds);
      ReleasedJoin(before, trace, n0);
    }

    /** `AT+FTPPUT=1` and its `OK`, then the wait for `+FTPPUT:1,1`. */
    method OpenPut(ghost cmds: set<seq<char>>) returns (alive: bool, ghost marks: seq<nat>, ghost replies: seq<Reply>)
      requires Valid() && FtpPutOpen + [CR] in cmds
      modifies this`pos, this`txEnable, this`trace
      ensures Valid()
      ensures !alive ==> pos == |rx|
      ensures Ran(rx, OpenPutReads, old(pos), pos, marks, replies, alive)
      ensures old(trace) <= trace && OnlyCommands(trace, |old(trace)|, cmds)
      ensures alive && Released(trace, |old(trace)|) ==> txEnable
      ensures Released(trace, |old(trace)|) <==> AllRelease(OpenPutReads, replies)
    {
      ghost var before := trace;
      alive, marks, replies := CommandThenWait(FtpPutOpen, PutSessionOpen);
      OnlyCommandsJoin(before, trace, |before|, cmds, {FtpPutOpen + [CR]});
      assert cmds + {FtpPutOpen + [CR]} == cmds;
    }

    /**
     * `while (div--) { ... }`: per chunk, declare 1000 bytes and wait for
     * `+FTPPUT:2,1000`, write the next bytes of the file when the line is
     * released and wait for `OK`, and add 1000 to the total whatever
     * happened. `sent` is how far `read(fd, ...)` has advanced in the file.
     */
    method SendFullChunks(file: seq<char>, div: nat)
      returns (alive: bool, sent: nat, total: int, ghost marks: seq<nat>, ghost replies: seq<Reply>)
      requires Valid()
      modifies this`pos, this`txEnable, this`trace
      ensures Valid()
      ensures !alive ==> pos == |rx|
      ensures Ran(rx, FullChunkReads(div), old(pos), pos, marks, replies, alive)
      ensures old(trace) <= trace && CommandsIn(trace, |old(trace)|, {DeclareFull + [CR]})
      ensures alive ==> total == div * ChunkSize
      ensures sent <= |file| && Payloads(trace[|old(trace)|..]) == file[..sent]
      ensures CountCommand(trace[|old(trace)|..], DeclareFull + [CR]) <= div
      ensures alive && old(txEnable) && Released(trace, |old(trace)|) ==>
                && txEnable && sent == Min(div * ChunkSize, |file|)
                && CountCommand(trace[|old(trace)|..], DeclareFull + [CR]) == div
      ensures Released(trace, |old(trace)|) <==> AllRelease(FullChunkReads(div), replies)
    {
      ghost var n0 := |trace|;
      var d: nat := div;
      ghost var done: nat := 0;
      sent, total := 0, 0;
      alive := true;
      marks, replies := [pos], [];
      assert trace[n0..] == [];
      while d > 0
        invariant Valid()
        invariant d <= div && done == div - d && total == done * ChunkSize
        invariant Ran(rx, FullChunkReads(done), old(pos), pos, marks, replies, true)
        invariant old(trace) <= trace && n0 == |old(trace)| && CommandsIn(trace, n0, {DeclareFull + [CR]})
        invariant sent <= |file| && Payloads(trace[n0..]) == file[..sent]
        invariant CountCommand(trace[n0..], DeclareFull + [CR]) <= done
        invariant old(txEnable) && Released(trace, n0) ==>
                    && txEnable && sent == Min(done * ChunkSize, |file|)
                    && CountCommand(trace[n0..], DeclareFull + [CR]) == done
        invariant Released(trace, n0) <==> AllRelease(FullChunkReads(div), replies)
      {
        alive, sent, marks, replies := FullChunk(file, sent, div, done, n0, old(txEnable), old(pos), marks, replies);
        if !alive {
          return;
        }
        total := total + ChunkSize;
        d, done := d - 1, done + 1;
      }
    }

    /** One pass of the chunk loop: the chunk after the first `done`, added to what went before. */
    method FullChunk(file: seq<char>, sent: nat, div: nat, ghost done: nat, ghost n0: nat, ghost start: bool,
                     ghost from: nat, ghost marks0: seq<nat>, ghost replies0: seq<Reply>)
      returns (alive: bool, next: nat, ghost marks: seq<nat>, ghost replies: seq<Reply>)
      requires Valid() && done < div && n0 <= |trace|
      requires Ran(rx, FullChunkReads(done), from, pos, marks0, replies0, true)
      requires sent <= |file| && CommandsIn(trace, n0, {DeclareFull + [CR]}) && Payloads(trace[n0..]) == file[..sent]
      requires CountCommand(trace[n0..], DeclareFull + [CR]) <= done
      requires start && Released(trace, n0) ==>
                 && txEnable && sent == Min(done * ChunkSize, |file|)
                 && CountCommand(trace[n0..], DeclareFull + [CR]) == done
      requires Released(trace, n0) <==> AllRelease(FullChunkReads(div), replies0)
      modifies this`pos, this`txEnable, this`trace
      ensures Valid() && old(trace) <= trace
      ensures alive ==> Ran(rx, FullChunkReads(done + 1), from, pos, marks, replies, true)
      ensures !alive ==> Ran(rx, FullChunkReads(div), from, pos, marks, replies, false) && pos == |rx|
      ensures next <= |file| && CommandsIn(trace, n0, {DeclareFull + [CR]}) && Payloads(trace[n0..]) == file[..next]
      ensures CountCommand(trace[n0..], DeclareFull + [CR]) <= done + 1
      ensures alive && start && Released(trace, n0) ==>
                && txEnable && next == Min((done + 1) * ChunkSize, |file|)
                && CountCommand(trace[n0..], DeclareFull + [CR]) == done + 1
      ensures Released(trace, n0) <==> AllRelease(FullChunkReads(div), replies)
    {
      ghost var before, p := trace, pos;
      ghost var m, q;
      alive, next, m, q := SendPiece(file, sent, DeclareFull, PutReadyFull, ChunkSize);
      PieceAppended(before, trace, n0, DeclareFull + [CR], file, sent, next);
      ReleasedJoin(before, trace, n0);
      FullChunkReleases(div, done, replies0, q);
      FullChunksNext(rx, div, done, from, p, pos, marks0, replies0, m, q, alive);
      marks, replies := marks0 + m[1..], replies0 + q;
    }

    /**
     * One declaration and its data: send `text` and wait for `ready`, then
     * read up to `size` bytes of the file from `sent` on, write them by
     * length if the line was released, and wait for `OK`.
     */
    method SendPiece(file: seq<char>, sent: nat, text: seq<char>, ready: seq<char>, size: nat)
      returns (alive: bool, next: nat, ghost marks: seq<nat>, ghost replies: seq<Reply>)
      requires Valid() && sent <= |file| && Nul !in text
      modifies this`pos, this`txEnable, this`trace
      ensures Valid()
      ensures !alive ==> pos == |rx|
      ensures Ran(rx, PieceReads(ready), old(pos), pos, marks, replies, alive)
      ensures old(trace) <= trace && CommandsIn(trace, |old(trace)|, {text + [CR]})
      ensures sent <= next <= |file| && next - sent <= size
      ensures Payloads(trace[|old(trace)|..]) == file[sent..next]
      ensures CountCommand(trace[|old(trace)|..], text + [CR]) == (if old(txEnable) then 1 else 0)
      ensures alive && old(txEnable) && Released(trace, |old(trace)|) ==>
                txEnable && next == sent + Min(size, |file| - sent)
      ensures Released(trace, |old(trace)|) <==> AllRelease(PieceReads(ready), replies)
    {
      ghost var before := trace;
      ghost var r1, r2;
      next := sent;
      alive, r1 := Declare(text, ready);
      if !alive {
        RanFirstStalled(rx, PieceReads(ready), old(pos), r1, pos);
        AllReleasePair(PieceReads(ready), r1, r1);
        marks, replies := [old(pos), pos], [r1];
        assert file[sent..next] == [];
        return;
      }
      var n := Min(size, |file| - sent);
      ghost var mid, p := trace, pos;
      var chunk := file[sent..sent + n];
      var wrote;
      alive, wrote, r2 := WriteChunk(chunk);
      RanPair(rx, PieceReads(ready), old(pos), p, pos, r1, r2);
      AllReleasePair(PieceReads(ready), r1, r2);
      marks, replies := [old(pos), p, pos], [r1, r2];
      if wrote {
        next := sent + n;
      } else {
        assert file[sent..next] == [];
      }
      PieceJoin(before, mid, trace, text + [CR], file, sent, next);
      ReleasedJoin(mid, trace, |before|);
    }

    /** A command and its `OK`, with what it adds to the command count. */
    method CommandOk(text: seq<char>) returns (alive: bool, ghost r: Reply)
      requires Valid() && Nul !in text
      modifies this`pos, this`txEnable, this`trace
      ensures Valid()
      ensures !alive ==> pos == |rx|
      ensures Answer(OkReader, rx, old(pos), r, pos)
      ensures alive <==> r.Stopped?
      ensures alive ==> (txEnable <==> r.code == Matched)
      ensures old(trace) <= trace && OnlyCommands(trace, |old(trace)|, {text + [CR]})
      ensures CountCommand(trace[|old(trace)|..], text + [CR]) == (if old(txEnable) then 1 else 0)
      ensures Released(trace, |old(trace)|) <==> Releases(OkReader, r)
    {
      ghost var before := trace;
      var wrote := Transmit(text);
      var got := ReadOk();
      r, alive := got, !got.Exhausted?;
      CommandStep(before, trace, text + [CR], wrote, r.Stopped?, txEnable);
    }

    /** A declaration and the wait for the modem's `+FTPPUT:2,...` answer. */
    method Declare(text: seq<char>, ready: seq<char>) returns (alive: bool, ghost r: Reply)
      requires Valid() && Nul !in text
      modifies this`pos, this`txEnable, this`trace
      ensures Valid()
      ensures !alive ==> pos == |rx|
      ensures Answer(TargetReader(ready), rx, old(pos), r, pos)
      ensures alive <==> r.Stopped?
      ensures alive ==> (txEnable <==> r.code == Matched)
      ensures old(trace) <= trace && CommandsIn(trace, |old(trace)|, {text + [CR]})
      ensures CountCommand(trace[|old(trace)|..], text + [CR]) == (if old(txEnable) then 1 else 0)
      ensures Payloads(trace[|old(trace)|..]) == []
      ensures alive && Released(trace, |old(trace)|) ==> txEnable
      ensures Released(trace, |old(trace)|) <==> Releases(TargetReader(ready), r)
    {
      ghost var before := trace;
      var wrote := Transmit(text);
      var got := ReadTarget(ready);
      r, alive := got, !got.Exhausted?;
      CommandStep(before, trace, text + [CR], wrote, alive, txEnable);
    }

    /**
     * `if (tx_enable) { c = read(fd, uart_str, cnt); uart_write_tmp(c); } tx_enable = 0; uart_read_OK();`
     */
    method WriteChunk(chunk: seq<char>) returns (alive: bool, wrote: bool, ghost r: Reply)
      requires Valid()
      modifies this`pos, this`txEnable, this`trace
      ensures Valid()
      ensures !alive ==> pos == |rx|
      ensures Answer(OkReader, rx, old(pos), r, pos)
      ensures alive <==> r.Stopped?
      ensures alive ==> (txEnable <==> r.code == Matched)
      ensures old(trace) <= trace && CommandsIn(trace, |old(trace)|, {})
      ensures wrote == old(txEnable)
      ensures Payloads(trace[|old(trace)|..]) == (if wrote then chunk else [])
      ensures alive && Released(trace, |old(trace)|) ==> txEnable
      ensures Released(trace, |old(trace)|) <==> Releases(OkReader, r)
    {
      ghost var before := trace;
      wrote := TransmitChunk(chunk);
      var got := ReadOk();
      r, alive := got, !got.Exhausted?;
      PayloadStep(before, chunk, wrote, alive, txEnable);
    }

    /**
     * `AT+FTPPUT=2,<mod>` and its data, then the wait for `+FTPPUT:1,1,1200`:
     * the declaration goes out even when `mod` is zero.
     */
    method SendRemainder(file: seq<char>, sent: nat, mod: nat)
      returns (alive: bool, next: nat, ghost marks: seq<nat>, ghost replies: seq<Reply>)
      requires Valid() && sent <= |file|
      modifies this`pos, this`txEnable, this`trace
      ensures Valid()
      ensures !alive ==> pos == |rx|
      ensures Ran(rx, RemainderReads, old(pos), pos, marks, replies, alive)
      ensures old(trace) <= trace && CommandsIn(trace, |old(trace)|, {DeclareRest(mod) + [CR]})
      ensures sent <= next <= |file| && next - sent <= mod
      ensures Payloads(trace[|old(trace)|..]) == file[sent..next]
      ensures CountCommand(trace[|old(trace)|..], DeclareRest(mod) + [CR]) == (if old(txEnable) then 1 else 0)
      ensures alive && old(txEnable) && Released(trace, |old(trace)|) ==>
                txEnable && next == sent + Min(mod, |file| - sent)
      ensures Released(trace, |old(trace)|) <==> AllRelease(RemainderReads, replies)
    {
      ghost var before, cmd := trace, DeclareRest(mod) + [CR];
      alive, next, marks, replies := SendPiece(file, sent, DeclareRest(mod), PutReady, mod);
      if !alive {
        RanStoppedThen(rx, PieceReads(PutReady), [TargetReader(PutSessionOpen)], old(pos), pos, marks, replies);
        AllReleaseLonger(PieceReads(PutReady), [TargetReader(PutSessionOpen)], replies);
        return;
      }
      ghost var mid, p := trace, pos;
      var r := ReadTarget(PutSessionOpen);
      alive := !r.Exhausted?;
      RanOne(TargetReader(PutSessionOpen), rx, p, r, pos);
      RanJoin(rx, PieceReads(PutReady), [TargetReader(PutSessionOpen)], old(pos), p, pos, marks, replies, [p, pos], [r], alive);
      AllReleaseLonger(PieceReads(PutReady), [TargetReader(PutSessionOpen)], replies);
      AllReleaseNext(RemainderReads, replies, r);
      marks, replies := marks + [pos], replies + [r];
      ResponseStep(mid, trace, |before|, cmd, {cmd}, r.Stopped?, txEnable);
    }

    /** `AT+FTPPUT=2,0` and its `OK`, then the wait for `+FTPPUT:1,0`. */
    method Finish() returns (alive: bool, ghost marks: seq<nat>, ghost replies: seq<Reply>)
      requires Valid()
      modifies this`pos, this`txEnable, this`trace
      ensures Valid()
      ensures !alive ==> pos == |rx|
      ensures Ran(rx, FinishReads, old(pos), pos, marks, replies, alive)
      ensures old(trace) <= trace && OnlyCommands(trace, |old(trace)|, {FtpPutClose + [CR]})
      ensures CountCommand(trace[|old(trace)|..], FtpPutClose + [CR]) == (if old(txEnable) then 1 else 0)
      ensures Released(trace, |old(trace)|) <==> AllRelease(FinishReads, replies)
    {
      alive, marks, replies := CommandThenWait(FtpPutClose, PutSessionClosed);
    }

    /** A command, its `OK`, and then the wait for `target`. */
    method CommandThenWait(text: seq<char>, target: seq<char>) returns (alive: bool, ghost marks: seq<nat>, ghost replies: seq<Reply>)
      requires Valid() && Nul !in text
      modifies this`pos, this`txEnable, this`trace
      ensures Valid()
      ensures !alive ==> pos == |rx|
      ensures Ran(rx, CommandWaitReads(target), old(pos), pos, marks, replies, alive)
      ensures old(trace) <= trace && OnlyCommands(trace, |old(trace)|, {text + [CR]})
      ensures CountCommand(trace[|old(trace)|..], text + [CR]) == (if old(txEnable) then 1 else 0)
      ensures alive && Released(trace, |old(trace)|) ==> txEnable
      ensures Released(trace, |old(trace)|) <==> AllRelease(CommandWaitReads(target), replies)
    {
      ghost var before, reply := trace, Exhausted;
      alive, reply := CommandOk(text);
      if !alive {
        RanFirstStalled(rx, CommandWaitReads(target), old(pos), reply, pos);
        AllReleasePair(CommandWaitReads(target), reply, reply);
        marks, replies := [old(pos), pos], [reply];
        return;
      }
      ghost var mid, p := trace, pos;
      var r := ReadTarget(target);
      alive := !r.Exhausted?;
      RanPair(rx, CommandWaitReads(target), old(pos), p, pos, reply, r);
      AllReleasePair(CommandWaitReads(target), reply, r);
      marks, replies := [old(pos), p, pos], [reply, r];
      ResponseStep(mid, trace, |before|, text + [CR], {text + [CR]}, r.Stopped?, txEnable);
    }

    /**
     * The first half of `upload_file`: the preamble, the bearer retry loop
     * and the FTP setup. Only the SAPBR abort returns early in the source;
     * `Blocked` stands for a read that never ends.
     */
    method Connect(cfg: FtpConfig) returns (end: ConnectEnd, ghost bearer: seq<Reply>, ghost marks: seq<nat>, ghost replies: seq<Reply>)
      requires Valid() && cfg.Valid()
      modifies this`pos, this`txEnable, this`trace
      ensures Valid()
      ensures end != Aborted ==> Ran(rx, ConnectReads(|bearer|), old(pos), pos, marks, replies, end == Connected)
      ensures end == Aborted ==> Ran(rx, PreambleReads + BearerReads(|bearer|), old(pos), pos, marks, replies, true)
      ensures end == Aborted <==> BearerAborted(bearer)
      ensures bearer == [] ==> end == Blocked
      ensures bearer != [] ==> BearerRun(bearer) && BearerWithin(rx, marks, replies, bearer)
      ensures end == Blocked ==> pos == |rx|
      ensures old(trace) <= trace
      ensures OnlyCommands(trace, |old(trace)|, PreambleCommands() + {SapbrOpen + [CR]} + SetupCommands(cfg))
      ensures end == Aborted ==> OnlyCommands(trace, |old(trace)|, PreambleCommands() + {SapbrOpen + [CR]})
      ensures CountCommand(trace[|old(trace)|..], SapbrOpen + [CR]) <= 5
      ensures end == Connected && Released(trace, |old(trace)|) ==> txEnable
      ensures Released(trace, |old(trace)|) <==> AllRelease(ConnectReads(|bearer|), replies)
    {
      ghost var n0, sap := |trace|, SapbrOpen + [CR];
      PhasesApart(cfg, 0);
      end, bearer, marks, replies := OpenBearer();
      if end != Connected {
        AllReleaseLonger(PreambleReads + BearerReads(|bearer|), SetupReads, replies);
      }
      if end == Aborted {
        return;
      }
      if end == Blocked {
        RanStoppedThen(rx, PreambleReads + BearerReads(|bearer|), SetupReads, old(pos), pos, marks, replies);
        return;
      }
      ghost var q, mid := trace, pos;
      ghost var m2, r2;
      var alive;
      alive, m2, r2 := FtpSetup(cfg);
      SetupAfterBearer(rx, old(pos), mid, pos, marks, replies, bearer, m2, r2, alive);
      AllReleaseJoin(PreambleReads + BearerReads(|bearer|), SetupReads, replies, r2);
      marks, replies := marks + m2[1..], replies + r2;
      Grown(q, trace, n0, sap);
      CountCommandAbsentFrom(trace, |q|, sap, SetupCommands(cfg));
      OnlyCommandsJoin(q, trace, n0, PreambleCommands() + {sap}, SetupCommands(cfg));
      ReleasedJoin(q, trace, n0);
      end := if alive then Connected else Blocked;
    }

    /**
     * The preamble and then the bearer retry loop, whose replies are
     * `bearer` (none when the preamble never ends).
     */
    method OpenBearer() returns (end: ConnectEnd, ghost bearer: seq<Reply>, ghost marks: seq<nat>, ghost replies: seq<Reply>)
      requires Valid()
      modifies this`pos, this`txEnable, this`trace
      ensures Valid()
      ensures Ran(rx, PreambleReads + BearerReads(|bearer|), old(pos), pos, marks, replies, end != Blocked)
      ensures bearer == [] ==> end == Blocked
      ensures bearer != [] ==> BearerRun(bearer) && end == BearerOutcome(bearer) && BearerWithin(rx, marks, replies, bearer)
      ensures end == Blocked ==> pos == |rx|
      ensures old(trace) <= trace
      ensures OnlyCommands(trace, |old(trace)|, PreambleCommands() + {SapbrOpen + [CR]})
      ensures CountCommand(trace[|old(trace)|..], SapbrOpen + [CR]) <= 5
      ensures end == Connected && Released(trace, |old(trace)|) ==> txEnable
      ensures Released(trace, |old(trace)|) <==> AllRelease(PreambleReads + BearerReads(|bearer|), replies)
    {
      ghost var n0, sap := |trace|, SapbrOpen + [CR];
      var alive;
      alive, marks, replies := Preamble();
      CountCommandAbsentFrom(trace, n0, sap, PreambleCommands());
      if !alive {
        bearer := [];
        RanStoppedThen(rx, PreambleReads, BearerReads(0), old(pos), pos, marks, replies);
        AllReleaseLonger(PreambleReads, BearerReads(0), replies);
        return Blocked, bearer, marks, replies;
      }
      ghost var p, mid := trace, pos;
      ghost var bm;
      end, bearer, bm := ActivateBearer();
      BearerAfterPreamble(rx, old(pos), mid, pos, marks, replies, bm, bearer);
      AllReleaseJoin(PreambleReads, BearerReads(|bearer|), replies, bearer);
      marks, replies := marks + bm[1..], replies + bearer;
      assert |bearer| <= 5;
      Grown(p, trace, n0, sap);
      OnlyCommandsJoin(p, trace, n0, PreambleCommands(), {sap});
      ReleasedJoin(p, trace, n0);
    }

    /**
     * The second half of `upload_file`: the chunk plan, `div` full chunks,
     * the remainder and the close; `total` is `total_bytes` at the report.
     */
    method Transfer(file: seq<char>) returns (alive: bool, total: int, ghost marks: seq<nat>, ghost replies: seq<Reply>)
      requires Valid()
      modifies this`pos, this`txEnable, this`trace
      ensures Valid()
      ensures !alive ==> pos == |rx|
      ensures Ran(rx, TransferReads(|file|), old(pos), pos, marks, replies, alive)
      ensures old(trace) <= trace && CommandsIn(trace, |old(trace)|, TransferCommands(|file| % ChunkSize))
      ensures alive ==> total == |file|
      ensures Payloads(trace[|old(trace)|..]) <= file
      ensures CountCommand(trace[|old(trace)|..], DeclareFull + [CR]) <= |file| / ChunkSize
      ensures alive && old(txEnable) && Released(trace, |old(trace)|) ==> WholeFile(trace[|old(trace)|..], file)
      ensures Released(trace, |old(trace)|) <==> AllRelease(TransferReads(|file|), replies)
    {
      ghost var n0 := |trace|;
      var plan := ChunkPlan(|file|);
      var div, mod := plan.0, plan.1;
      ghost var full, rest := DeclareFull + [CR], DeclareRest(mod) + [CR];
      DeclareRestApart(mod);
      var sent;
      alive, sent, total, marks, replies := SendFullChunks(file, div);
      CountCommandAbsentFrom(trace, n0, rest, {full});
      if !alive {
        RanStoppedThen(rx, FullChunkReads(div), ConcludeReads, old(pos), pos, marks, replies);
        AllReleaseLonger(FullChunkReads(div), ConcludeReads, replies);
        return;
      }
      ghost var m, p := trace, pos;
      ghost var m2, q2;
      var next;
      alive, next, m2, q2 := Conclude(file, sent, mod);
      RanJoin(rx, FullChunkReads(div), ConcludeReads, old(pos), p, pos, marks, replies, m2, q2, alive);
      AllReleaseJoin(FullChunkReads(div), ConcludeReads, replies, q2);
      ReleasedJoin(m, trace, n0);
      marks, replies := marks + m2[1..], replies + q2;
      ghost var done := alive && old(txEnable) && Released(trace, n0);
      if done {
        ReleasedBefore(m, trace, n0);
      }
      TransferJoin(m, trace, n0, file, div, mod, sent, next, done);
      if alive {
        total := total + mod;
      }
    }

    /** `AT+FTPPUT=2,<mod>` with its data, then the close: everything after the full chunks. */
    method Conclude(file: seq<char>, sent: nat, mod: nat)
      returns (alive: bool, next: nat, ghost marks: seq<nat>, ghost replies: seq<Reply>)
      requires Valid() && sent <= |file| && mod < ChunkSize
      modifies this`pos, this`txEnable, this`trace
      ensures Valid()
      ensures !alive ==> pos == |rx|
      ensures Ran(rx, ConcludeReads, old(pos), pos, marks, replies, alive)
      ensures old(trace) <= trace && CommandsIn(trace, |old(trace)|, {DeclareRest(mod) + [CR], FtpPutClose + [CR]})
      ensures sent <= next <= |file| && Payloads(trace[|old(trace)|..]) == file[sent..next]
      ensures CountCommand(trace[|old(trace)|..], DeclareFull + [CR]) == 0
      ensures alive && old(txEnable) && Released(trace, |old(trace)|) ==>
                && next == sent + Min(mod, |file| - sent)
                && CountCommand(trace[|old(trace)|..], DeclareRest(mod) + [CR]) == (if mod == 0 then 2 else 1)
                && Commands(trace[|old(trace)|..]) == [DeclareRest(mod) + [CR], FtpPutClose + [CR]]
      ensures Released(trace, |old(trace)|) <==> AllRelease(ConcludeReads, replies)
    {
      ghost var n0 := |trace|;
      DeclareRestApart(mod);
      alive, next, marks, replies := SendRemainder(file, sent, mod);
      CountCommandAbsentFrom(trace, n0, DeclareFull + [CR], {DeclareRest(mod) + [CR]});
      if !alive {
        RanStoppedThen(rx, RemainderReads, FinishReads, old(pos), pos, marks, replies);
        AllReleaseLonger(RemainderReads, FinishReads, replies);
        return;
      }
      ghost var m, ready, p := trace, txEnable, pos;
      ghost var m1, q1;
      alive, m1, q1 := Finish();
      RanJoin(rx, RemainderReads, FinishReads, old(pos), p, pos, marks, replies, m1, q1, alive);
      AllReleaseJoin(RemainderReads, FinishReads, replies, q1);
      ReleasedJoin(m, trace, n0);
      marks, replies := marks + m1[1..], replies + q1;
      CloseAfterRest(m, trace, n0, mod, old(txEnable), ready, file[sent..next]);
    }

    /**
     * `upload_file`: `BearerFailed` is the early return after `ERROR` on the
     * fifth SAPBR attempt, `Stalled` a read that never ends, and `Uploaded`
     * carries `total_bytes`. `file` is the content of the local file.
     */
    method UploadFile(cfg: FtpConfig, file: seq<char>)
      returns (res: UploadEnd, ghost bearer: seq<Reply>, ghost marks: seq<nat>, ghost replies: seq<Reply>, ghost start: nat)
      requires Valid() && cfg.Valid()
      modifies this`pos, this`txEnable, this`trace
      ensures Valid()
      ensures old(trace) <= trace
      ensures res.Uploaded? ==> Ran(rx, UploadReads(|bearer|, |file|), old(pos), pos, marks, replies, true)
      ensures res.Stalled? ==> Ran(rx, UploadReads(|bearer|, |file|), old(pos), pos, marks, replies, false)
      ensures res.BearerFailed? ==> Ran(rx, PreambleReads + BearerReads(|bearer|), old(pos), pos, marks, replies, true)
      ensures replies != [] && (res.Stalled? <==> replies[|replies| - 1].Exhausted?)
      ensures bearer != [] ==> BearerRun(bearer) && BearerWithin(rx, marks, replies, bearer)
      ensures res.BearerFailed? <==> BearerAborted(bearer)
      ensures res.Stalled? ==> pos == |rx|
      ensures res.Uploaded? ==> res.total == |file|
      ensures res.BearerFailed? ==> OnlyCommands(trace, |old(trace)|, PreambleCommands() + {SapbrOpen + [CR]})
      ensures CountCommand(trace[|old(trace)|..], SapbrOpen + [CR]) <= 5
      ensures Payloads(trace[|old(trace)|..]) <= file
      ensures CountCommand(trace[|old(trace)|..], DeclareFull + [CR]) <= |file| / ChunkSize
      ensures res.Uploaded? ==>
                && |old(trace)| <= start <= |trace|
                && OnlyCommands(trace[..start], |old(trace)|, PreambleCommands() + {SapbrOpen + [CR]} + SetupCommands(cfg))
      ensures res.Uploaded? && old(txEnable) && Released(trace, |old(trace)|) ==>
                Payloads(trace[|old(trace)|..]) == file && WholeFile(trace[start..], file)
      ensures Released(trace, |old(trace)|) <==> AllRelease(UploadReads(|bearer|, |file|), replies)
    {
      ghost var n0, mod := |trace|, |file| % ChunkSize;
      var end;
      end, bearer, marks, replies := Connect(cfg);
      start := |trace|;
      ConnectQuiet(trace, n0, cfg, mod);
      if end != Connected {
        UploadStopsEarly(rx, |file|, old(pos), pos, marks, replies, bearer, end == Aborted);
        res := if end == Aborted then BearerFailed else Stalled;
        assert Released(trace, n0) <==> AllRelease(UploadReads(|bearer|, |file|), replies);
        return;
      }
      ghost var c, mid := trace, pos;
      ghost var m2, r2;
      var alive, total;
      alive, total, m2, r2 := Transfer(file);
      OpeningThenTransfer(c, trace, n0, cfg, file);
      TransferAfterConnect(rx, |file|, old(pos), mid, pos, marks, replies, bearer, m2, r2, alive);
      UploadReleased(c, trace, n0, |bearer|, |file|, replies, r2);
      marks, replies := marks + m2[1..], replies + r2;
      assert Released(trace, n0) <==> AllRelease(UploadReads(|bearer|, |file|), replies);
      res := if alive then Uploaded(total) else Stalled;
    }
  }
}
