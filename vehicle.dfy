/**
 * The vehicle unit: a Raspberry Pi with a SIM908 modem that waits for
 * SMS envelopes, stops the vehicle on an authorised `STOP`, photographs
 * the scene, texts back the last GPS fix, and releases the vehicle on an
 * authorised `RESET`. `sys_state` is a two-state machine; the decision in
 * `read_sms` is the function `Decide`, which `VehicleController.ReadSms`
 * applies.
 */
module Vehicle {
  import opened Wire
  import opened Matchers
  import opened GpsFix

  const SysStart: int := 10
  const SysStop: int := 20

  /** `uart_read_str` is a 256-byte array. */
  const ReadCapacity: nat := 256

  /** The modem's end-of-message marker that ends the wait for an SMS. */
  const SmsEnd: seq<char> := "MSGOVER"

  /** What `read_sms` does with an envelope. */
  datatype Action =
    | StopVehicle   // `stop_state()`
    | Restart       // `init_state()`
    | Ignore        // nothing

  /**
   * The branch of `read_sms` over the envelope (what `strstr` sees of
   * `uart_read_str`), the owner's number and `sys_state`.
   */
  function Decide(envelope: seq<char>, owner: seq<char>, state: int): (a: Action)
    ensures a != Ignore ==> Contains(envelope, owner)
    ensures a == StopVehicle ==> state == SysStart && Contains(envelope, "STOP")
    ensures a == Restart ==> state == SysStop && Contains(envelope, "RESET") && !Contains(envelope, "STOP")
  {
    if !Contains(envelope, owner) then Ignore
    else if Contains(envelope, "STOP") then (if state == SysStart then StopVehicle else Ignore)
    else if Contains(envelope, "RESET") && state == SysStop then Restart
    else Ignore
  }

  /** `sys_state` after an action completes. */
  function After(state: int, a: Action): int
  {
    match a
    case StopVehicle => SysStop
    case Restart => SysStart
    case Ignore => state
  }

  /** An authorised `STOP` while running stops the vehicle, and only then. */
  lemma StopExactly(envelope: seq<char>, owner: seq<char>, state: int)
    ensures Decide(envelope, owner, state) == StopVehicle
        <==> Contains(envelope, owner) && Contains(envelope, "STOP") && state == SysStart
  {
  }

  /** An authorised `RESET` without `STOP` while stopped restarts the vehicle, and only then. */
  lemma RestartExactly(envelope: seq<char>, owner: seq<char>, state: int)
    ensures Decide(envelope, owner, state) == Restart
        <==> Contains(envelope, owner) && !Contains(envelope, "STOP") && Contains(envelope, "RESET") && state == SysStop
  {
  }

  /** From either state of the machine, every envelope leads to one of the two states. */
  lemma MachineClosed(envelope: seq<char>, owner: seq<char>, state: int)
    requires state == SysStart || state == SysStop
    ensures var next := After(state, Decide(envelope, owner, state));
      next == SysStart || next == SysStop
    ensures Decide(envelope, owner, state) != Ignore ==> After(state, Decide(envelope, owner, state)) != state
  {
  }

  /** A command that repeats the current state changes nothing. */
  lemma RepeatedCommandIsNoOp(envelope: seq<char>, owner: seq<char>)
    ensures Decide(envelope, owner, SysStop) != StopVehicle
    ensures Decide(envelope, owner, SysStart) != Restart
  {
  }

  /** What the unit does to the outside world, in order. */
  datatype Effect =
    | Sent(bytes: seq<char>)   // `uart_write` of a framed line
    | GpioSet                  // `bcm2835_gpio_set(RPI_V2_GPIO_P1_03)`
    | Picture                  // `system("fswebcam image.jpeg")`

  /** The `send_sms` exchange: three commands, then the text of `gps_str` ended by Ctrl-Z. */
  function SmsScript(owner: seq<char>, gps: seq<char>): seq<Effect>
  {
    SmsHeader(owner) + [Sent(Frame(gps, CtrlZ))]
  }

  /** The attention check, text mode, and the recipient. */
  function SmsHeader(owner: seq<char>): seq<Effect>
  {
    [ Sent("AT" + [CR]),
      Sent("AT+CMGF=1" + [CR]),
      Sent("AT+CMGS=\"" + owner + "\"" + [CR]) ]
  }

  /** A log grown by the first `k` steps of a script. */
  lemma ScriptPrefix(l0: seq<Effect>, script: seq<Effect>, k: nat)
    requires 0 < k <= |script|
    ensures (l0 + script[..k - 1]) + [script[k - 1]] == l0 + script[..k]
    ensures l0 <= l0 + script[..k] && (l0 + script[..k])[|l0|..] <= script
  {
    assert script[..k - 1] + [script[k - 1]] == script[..k];
    assert (l0 + script[..k])[|l0|..] == script[..k];
  }

  /** A log extended twice holds both extensions, in order, after its old end. */
  lemma LogGrows(l0: seq<Effect>, a: seq<Effect>, b: seq<Effect>)
    ensures (l0 + a) + b == l0 + (a + b)
    ensures l0 <= l0 + (a + b) && (l0 + (a + b))[|l0|..] <= a + b
  {
    assert (l0 + (a + b))[|l0|..] == a + b;
  }

  /** A log that grew by part of the header has grown by part of the whole exchange. */
  lemma PrefixOfScript(l0: seq<Effect>, log: seq<Effect>, owner: seq<char>, gps: seq<char>)
    requires l0 <= log && log[|l0|..] <= SmsHeader(owner)
    ensures log[|l0|..] <= SmsScript(owner, gps)
  {
  }

  /** `uart_read_str` after `uart_read_until` stored `b`: zeroed, then filled from the front. */
  function Padded(b: seq<char>): (p: seq<char>)
    requires |b| <= MaxResponse
    ensures |p| == ReadCapacity && p[..|b|] == b
    ensures Visible(p) == Visible(b)
  {
    var tail := seq(ReadCapacity - |b|, _ => Nul);
    VisibleNulTail(b, tail);
    b + tail
  }

  /** `a` with `c` written over it from index `j`. */
  function Splice(a: seq<char>, j: nat, c: seq<char>): (r: seq<char>)
    requires j + |c| <= |a|
    ensures |r| == |a|
  {
    a[..j] + c + a[j + |c|..]
  }

  /** Writing one more byte extends the spliced text. */
  lemma SpliceStep(a: seq<char>, j: nat, c: seq<char>)
    requires j + |c| <= |a| && c != []
    ensures Splice(a, j, c) == Splice(a, j, c[..|c| - 1])[j + |c| - 1 := c[|c| - 1]]
  {
  }

  /** Writing the next byte of a label extends the label written so far. */
  lemma LabelStep(g0: seq<char>, j0: nat, text: seq<char>, k: nat, g: seq<char>)
    requires k < |text| && j0 + |text| <= |g0|
    requires g == Splice(g0, j0, text[..k])
    ensures g[j0 + k := text[k]] == Splice(g0, j0, text[..k + 1])
  {
    SpliceStep(g0, j0, text[..k + 1]);
    assert text[..k + 1][..k] == text[..k];
  }

  /** Copying the byte at `i` extends the text copied from `i0`. */
  lemma CopyStep(g0: seq<char>, j0: nat, buf: seq<char>, i0: nat, i: nat, g: seq<char>)
    requires i0 <= i < |buf| && j0 + (i + 1 - i0) <= |g0|
    requires g == Splice(g0, j0, buf[i0..i])
    ensures g[j0 + (i - i0) := buf[i]] == Splice(g0, j0, buf[i0..i + 1])
  {
    SpliceStep(g0, j0, buf[i0..i + 1]);
    assert buf[i0..i + 1][..i - i0] == buf[i0..i];
  }

  /** Two writes side by side are one write of both texts. */
  lemma SpliceJoin(a: seq<char>, j: nat, c1: seq<char>, c2: seq<char>)
    requires j + |c1| + |c2| <= |a|
    ensures Splice(Splice(a, j, c1), j + |c1|, c2) == Splice(a, j, c1 + c2)
  {
  }

  lemma SpliceThree(a: seq<char>, t1: seq<char>, t2: seq<char>, t3: seq<char>)
    requires |t1| + |t2| + |t3| <= |a|
    ensures Splice(Splice(a, 0, t1), |t1|, t2 + t3) == Splice(a, 0, t1 + t2 + t3)
  {
    SpliceJoin(a, 0, t1, t2 + t3);
    assert t1 + (t2 + t3) == t1 + t2 + t3;
  }

  /** `uart_read_until` never stores more than the buffer can hold with its NUL. */
  lemma UntilStoredBound(s: seq<Rx>, target: seq<char>, r: Reply)
    requires FirstStop(UntilReader(target), s, r)
    requires r.Stopped? ==> (r.code == Overflowed <==> r.at == MaxResponse)
    ensures StoredCount(r, |s|) <= MaxResponse
    ensures r.Stopped? && r.code != Overflowed ==> r.at < MaxResponse
  {
    if r.Exhausted? && |s| > MaxResponse {
      assert Stops(UntilReader(target), s, MaxResponse);
    }
    if r.Stopped? && r.at > MaxResponse {
      assert Stops(UntilReader(target), s, MaxResponse);
    }
  }

  /** A `uart_read_until` that found its target. */
  predicate Answered(r: Reply)
  {
    r.Stopped? && r.code == Matched
  }

  /** What `send_sms` waits for after each of its four writes. */
  const SmsTargets: seq<seq<char>> := ["OK", "OK", ">", "OK"]

  /** `r` is the first stop of `uart_read_until(target)` on `s` from `from`, which leaves the stream at `to`. */
  ghost predicate UntilAnswer(target: seq<char>, s: seq<Rx>, from: nat, r: Reply, to: nat)
  {
    from <= |s| && FirstStop(UntilReader(target), s[from..], r) && to == from + Consumed(r, |s| - from)
  }

  /** Successive waits for `targets`, each starting where the last one left the stream. */
  ghost predicate UntilReplies(targets: seq<seq<char>>, s: seq<Rx>, marks: seq<nat>, rs: seq<Reply>)
  {
    && |rs| <= |targets|
    && |marks| == |rs| + 1
    && forall i :: 0 <= i < |rs| ==> UntilAnswer(targets[i], s, marks[i], rs[i], marks[i + 1])
  }

  /** An exchange of `n` steps that went on while its replies came and ended at the first one that did not. */
  ghost predicate UpToFirstMiss(rs: seq<Reply>, n: nat)
  {
    && 0 < |rs| <= n
    && (forall i :: 0 <= i < |rs| - 1 ==> Answered(rs[i]))
    && (|rs| < n ==> !Answered(rs[|rs| - 1]))
  }

  /** One more wait, from where the chain left the stream. */
  lemma UntilRepliesAppended(targets: seq<seq<char>>, s: seq<Rx>, marks: seq<nat>, rs: seq<Reply>, r: Reply, to: nat)
    requires UntilReplies(targets, s, marks, rs) && |rs| < |targets|
    requires UntilAnswer(targets[|rs|], s, marks[|rs|], r, to)
    ensures UntilReplies(targets, s, marks + [to], rs + [r])
    ensures (marks + [to])[0] == marks[0] && (rs + [r])[..|rs|] == rs
  {
    var ms, qs := marks + [to], rs + [r];
    forall i | 0 <= i < |qs|
      ensures UntilAnswer(targets[i], s, ms[i], qs[i], ms[i + 1])
    {
      if i < |rs| {
        assert ms[i] == marks[i] && ms[i + 1] == marks[i + 1] && qs[i] == rs[i];
      }
    }
  }

  class VehicleController {
    const rx: seq<Rx>
    var pos: nat
    /** `uart_read_str` */
    const readBuf: array<char>
    /** `gps_str` */
    const gpsStr: array<char>
    var sysState: int
    /** The authorised number, which `read_sms` looks for and `send_sms` texts. */
    const owner: seq<char>
    var log: seq<Effect>

    ghost predicate Valid()
      reads this
    {
      && readBuf.Length == ReadCapacity
      && gpsStr.Length == GpsCapacity
      && readBuf != gpsStr
      && pos <= |rx|
      && Nul !in owner
      && (sysState == 0 || sysState == SysStart || sysState == SysStop)
    }

    /** Program start: zeroed globals, `sys_state = 0`. */
    constructor (input: seq<Rx>, number: seq<char>)
      requires Nul !in number
      ensures Valid()
      ensures rx == input && pos == 0 && owner == number && sysState == 0 && log == []
      ensures fresh(readBuf) && fresh(gpsStr)
      ensures forall i :: 0 <= i < readBuf.Length ==> readBuf[i] == Nul
      ensures forall i :: 0 <= i < gpsStr.Length ==> gpsStr[i] == Nul
    {
      rx := input;
      pos := 0;
      readBuf := new char[ReadCapacity](_ => Nul);
      gpsStr := new char[GpsCapacity](_ => Nul);
      sysState := 0;
      owner := number;
      log := [];
    }

    /**
     * `uart_read_until(target)`: zero `uart_read_str`, then store one byte
     * per read until `strstr` finds `target`. A reported `"ERROR"` does not
     * end the read.
     */
    method UartReadUntil(target: seq<char>) returns (r: Reply, errorReported: bool)
      requires Valid()
      modifies this`pos, readBuf
      ensures Valid()
      ensures FirstStop(UntilReader(target), rx[old(pos)..], r)
      ensures r.Stopped? ==> (r.code == Matched || r.code == Overflowed)
      ensures r.Stopped? ==> (r.code == Overflowed <==> r.at == MaxResponse)
      ensures pos == old(pos) + Consumed(r, |rx| - old(pos))
      ensures StoredCount(r, |rx| - old(pos)) <= MaxResponse
      ensures readBuf[..] == Padded(Stored(rx[old(pos)..][..StoredCount(r, |rx| - old(pos))]))
      ensures errorReported <==> ErrorSeen(rx[old(pos)..], StoredCount(r, |rx| - old(pos)))
      ensures r.Stopped? && r.code == Matched ==> Hit(readBuf[..], target)
      ensures gpsStr[..] == old(gpsStr[..])
    {
      var s := rx[pos..];
      var buf;
      r, buf, errorReported := ReadUntilScan(s, target);
      UntilStoredBound(s, target, r);
      StoreReply(buf);
      pos := pos + Consumed(r, |s|);
    }

    /** The bytes `uart_read_until` stored, zero-padded to the whole buffer. */
    method StoreReply(buf: seq<char>)
      requires Valid() && |buf| <= MaxResponse
      modifies readBuf
      ensures Valid() && readBuf[..] == Padded(buf) && gpsStr[..] == old(gpsStr[..])
    {
      forall i | 0 <= i < readBuf.Length {
        readBuf[i] := if i < |buf| then buf[i] else Nul;
      }
      assert readBuf[..] == Padded(buf);
    }

    /** `strcpy(uart_str, text); strcat(uart_str, at_D); uart_write();` then `uart_read_until(target)`. */
    method Exchange(text: seq<char>, target: seq<char>) returns (alive: bool, ghost r: Reply)
      requires Valid() && Nul !in text
      modifies this`pos, this`log, readBuf
      ensures Valid()
      ensures log == old(log) + [Sent(text + [CR])] && gpsStr[..] == old(gpsStr[..])
      ensures UntilAnswer(target, rx, old(pos), r, pos)
      ensures alive <==> Answered(r)
      ensures alive ==> pos > old(pos) && Hit(readBuf[..], target)
    {
      FrameOfCString(text, CR);
      log := log + [Sent(Frame(text, CR))];
      var got, _ := UartReadUntil(target);
      r, alive := got, got.Stopped? && got.code == Matched;
    }

    /**
     * `send_sms`: the text-mode exchange that sends `gps_str` to the owner.
     * It goes on while each wait finds its target; `replies` are the waits.
     */
    method SendSms() returns (alive: bool, ghost replies: seq<Reply>, ghost marks: seq<nat>)
      requires Valid()
      modifies this`pos, this`log, readBuf
      ensures Valid()
      ensures UntilReplies(SmsTargets, rx, marks, replies) && marks[0] == old(pos) && marks[|replies|] == pos
      ensures UpToFirstMiss(replies, 4) && (alive <==> Answered(replies[|replies| - 1]))
      ensures log == old(log) + SmsScript(owner, old(gpsStr[..]))[..|replies|]
      ensures pos >= old(pos)
    {
      ghost var l0, gps := log, gpsStr[..];
      alive, replies, marks := SendHeader();
      if !alive {
        assert SmsHeader(owner)[..|replies|] == SmsScript(owner, gps)[..|replies|];
        return;
      }
      log := log + [Sent(Frame(gpsStr[..], CtrlZ))];
      assert SmsScript(owner, gps)[..4] == SmsHeader(owner) + [Sent(Frame(gps, CtrlZ))];
      var r, _ := UartReadUntil("OK");
      UntilRepliesAppended(SmsTargets, rx, marks, replies, r, pos);
      replies, marks := replies + [r], marks + [pos];
      alive := r.Stopped? && r.code == Matched;
    }

    /** The first three exchanges of `send_sms`. */
    method SendHeader() returns (alive: bool, ghost replies: seq<Reply>, ghost marks: seq<nat>)
      requires Valid()
      modifies this`pos, this`log, readBuf
      ensures Valid() && gpsStr[..] == old(gpsStr[..])
      ensures UntilReplies(SmsTargets, rx, marks, replies) && marks[0] == old(pos) && marks[|replies|] == pos
      ensures UpToFirstMiss(replies, 3) && (alive <==> Answered(replies[|replies| - 1]))
      ensures log == old(log) + SmsHeader(owner)[..|replies|]
      ensures pos >= old(pos)
    {
      ghost var script, l0 := SmsHeader(owner), log;
      ghost var r;
      replies, marks := [], [pos];
      alive, r := Exchange("AT", "OK");
      UntilRepliesAppended(SmsTargets, rx, marks, replies, r, pos);
      replies, marks := replies + [r], marks + [pos];
      ScriptPrefix(l0, script, 1);
      if !alive {
        return;
      }
      alive, r := Exchange("AT+CMGF=1", "OK");
      UntilRepliesAppended(SmsTargets, rx, marks, replies, r, pos);
      replies, marks := replies + [r], marks + [pos];
      ScriptPrefix(l0, script, 2);
      if !alive {
        return;
      }
      alive, r := Exchange("AT+CMGS=\"" + owner + "\"", ">");
      UntilRepliesAppended(SmsTargets, rx, marks, replies, r, pos);
      replies, marks := replies + [r], marks + [pos];
      ScriptPrefix(l0, script, 3);
    }

    /** `init_state`: set the stop line and enter `SYS_START`. */
    method InitState()
      requires Valid()
      modifies this`sysState, this`log
      ensures Valid()
      ensures sysState == SysStart && log == old(log) + [GpioSet]
    {
      log := log + [GpioSet];
      sysState := SysStart;
    }

    /**
     * `stop_state`: stop the vehicle, take the picture, text the fix, then
     * enter `SYS_STOP`; a `send_sms` that never returns leaves the state as it was.
     */
    method StopState() returns (alive: bool, ghost replies: seq<Reply>, ghost marks: seq<nat>)
      requires Valid()
      modifies this`pos, this`sysState, this`log, readBuf
      ensures Valid()
      ensures UntilReplies(SmsTargets, rx, marks, replies) && marks[0] == old(pos) && marks[|replies|] == pos
      ensures UpToFirstMiss(replies, 4) && (alive <==> Answered(replies[|replies| - 1]))
      ensures log == old(log) + [GpioSet, Picture] + SmsScript(owner, old(gpsStr[..]))[..|replies|]
      ensures sysState == (if alive then SysStop else old(sysState))
      ensures pos >= old(pos)
    {
      log := log + [GpioSet, Picture];
      alive, replies, marks := SendSms();
      if alive {
        sysState := SysStop;
      }
    }

    /**
     * `read_sms`: wait for `"MSGOVER"`, then act on the envelope. `reply`
     * is the wait's stop on the stream; the envelope is what was stored up
     * to it. On `STOP`, `sms` and `marks` are the waits of `send_sms`.
     */
    method ReadSms() returns (alive: bool, action: Action, ghost reply: Reply, ghost sms: seq<Reply>, ghost marks: seq<nat>)
      requires Valid()
      modifies this`pos, this`sysState, this`log, readBuf
      ensures Valid() && |marks| == |sms| + 1
      ensures UntilAnswer(SmsEnd, rx, old(pos), reply, if action == StopVehicle then marks[0] else pos)
      ensures !Answered(reply) ==> !alive && action == Ignore
      ensures Answered(reply) ==>
        && action == Decide(Visible(Stored(rx[old(pos)..][..reply.at + 1])), owner, old(sysState))
        && (action != StopVehicle ==> alive)
      ensures action == StopVehicle ==>
        && UntilReplies(SmsTargets, rx, marks, sms) && marks[|sms|] == pos
        && UpToFirstMiss(sms, 4) && (alive <==> Answered(sms[|sms| - 1]))
        && log == old(log) + [GpioSet, Picture] + SmsScript(owner, gpsStr[..])[..|sms|]
      ensures alive ==> pos > old(pos)
      ensures sysState == (if alive then After(old(sysState), action) else old(sysState))
      ensures action == Ignore ==> log == old(log)
      ensures action == Restart ==> log == old(log) + [GpioSet]
    {
      var r, _ := UartReadUntil(SmsEnd);
      reply, sms, marks := r, [], [pos];
      action := Ignore;
      if !(r.Stopped? && r.code == Matched) {
        alive := false;
        return;
      }
      action := Decide(Visible(readBuf[..]), owner, sysState);
      alive := true;
      if action == StopVehicle {
        alive, sms, marks := StopState();
      } else if action == Restart {
        InitState();
      }
    }

    /** The first marker of `uart_read_str` from index 1 on. */
    method FindMarkerScan() returns (m: Option<nat>)
      requires Valid()
      ensures m == FindMarker(readBuf[..], 1)
    {
      var i := 1;
      while i + 1 < readBuf.Length && !IsMarker(readBuf[..], i)
        invariant 1 <= i <= readBuf.Length
        invariant FindMarker(readBuf[..], i) == FindMarker(readBuf[..], 1)
        decreases readBuf.Length - i
      {
        i := i + 1;
      }
      if i + 1 < readBuf.Length {
        return Some(i);
      }
      return None;
    }

    /** `gps_str[j++] = ...` for each byte of `text`, from index `j0`. */
    method PutLabel(j0: nat, text: seq<char>) returns (j: nat)
      requires Valid() && j0 + |text| <= GpsCapacity
      modifies gpsStr
      ensures j == j0 + |text|
      ensures gpsStr[..] == Splice(old(gpsStr[..]), j0, text) && readBuf[..] == old(readBuf[..])
    {
      ghost var g0 := gpsStr[..];
      j := j0;
      while j < j0 + |text|
        invariant j0 <= j <= j0 + |text|
        invariant readBuf[..] == old(readBuf[..])
        invariant gpsStr[..] == Splice(g0, j0, text[..j - j0])
      {
        LabelStep(g0, j0, text, j - j0, gpsStr[..]);
        gpsStr[j] := text[j - j0];
        j := j + 1;
      }
      assert text[..j - j0] == text;
    }

    /**
     * One field loop of `process_gps_coordinates`: copy from `i0` into
     * `gps_str` from `j0` until the comma, giving up on four `'0'`.
     */
    method CopyField(i0: nat, j0: nat) returns (r: Scan, j: nat)
      requires Valid() && j0 <= GpsCapacity
      modifies gpsStr
      ensures r == ScanField(readBuf[..], i0, GpsCapacity - j0)
      ensures j == j0 + |Copied(readBuf[..], i0, r)| <= GpsCapacity
      ensures gpsStr[..] == Splice(old(gpsStr[..]), j0, Copied(readBuf[..], i0, r))
      ensures readBuf[..] == old(readBuf[..])
    {
      ghost var buf, g0 := readBuf[..], gpsStr[..];
      var i := i0;
      j := j0;
      while true
        invariant readBuf[..] == buf
        invariant i0 <= i && j == j0 + (i - i0) <= GpsCapacity
        invariant i <= |buf| || i == i0
        invariant ScanField(buf, i, GpsCapacity - j) == ScanField(buf, i0, GpsCapacity - j0)
        invariant gpsStr[..] == Splice(g0, j0, if i <= |buf| then buf[i0..i] else [])
        decreases |buf| - i
      {
        if i >= readBuf.Length {
          return OffEnd(i), j;
        }
        if readBuf[i] == ',' {
          return Comma(i), j;
        }
        if Zeros(readBuf[..], i) {
          return ZeroRun(i), j;
        }
        if j == GpsCapacity {
          return Full(i), j;
        }
        CopyStep(g0, j0, buf, i0, i, gpsStr[..]);
        gpsStr[j] := readBuf[i];
        i := i + 1;
        j := j + 1;
      }
    }

    /** Both field copies with their labels: latitude from `latFrom`, longitude `skip` after its comma. */
    method FillGps(latFrom: nat, skip: nat) returns (outcome: GpsOutcome)
      requires Valid()
      modifies gpsStr
      ensures var x := Extract(readBuf[..], latFrom, skip);
        outcome == x.outcome && gpsStr[..] == Splice(old(gpsStr[..]), 0, x.text)
    {
      ghost var buf := readBuf[..];
      var lat, j := FillLatitude(latFrom);
      ghost var t1 := LatLabel + Copied(buf, latFrom, lat);
      if !lat.Comma? {
        assert Extract(buf, latFrom, skip) == Extraction(FieldOutcome(lat), t1);
        return FieldOutcome(lat);
      }
      assert Extract(buf, latFrom, skip) == ExtractLongitude(buf, t1, lat.at + skip);
      outcome := FillLongitude(lat.at + skip, j, t1, old(gpsStr[..]));
      assert readBuf[..] == buf;
    }

    /** The latitude half of `FillGps`: the label, then the field copy from `latFrom`. */
    method FillLatitude(latFrom: nat) returns (lat: Scan, j: nat)
      requires Valid()
      modifies gpsStr
      ensures lat == ScanField(readBuf[..], latFrom, GpsCapacity - |LatLabel|)
      ensures j == |LatLabel| + |Copied(readBuf[..], latFrom, lat)| <= GpsCapacity
      ensures gpsStr[..] == Splice(old(gpsStr[..]), 0, LatLabel + Copied(readBuf[..], latFrom, lat))
    {
      var j0 := PutLabel(0, LatLabel);
      lat, j := CopyField(latFrom, j0);
      SpliceJoin(old(gpsStr[..]), 0, LatLabel, Copied(readBuf[..], latFrom, lat));
    }

    /**
     * The longitude half of `FillGps`: with `t1` already written over
     * `base`, the label, then the field copy from `lonFrom`.
     */
    method FillLongitude(lonFrom: nat, j0: nat, ghost t1: seq<char>, ghost base: seq<char>) returns (outcome: GpsOutcome)
      requires Valid() && j0 == |t1| <= GpsCapacity == |base|
      requires gpsStr[..] == Splice(base, 0, t1)
      modifies gpsStr
      ensures var x := ExtractLongitude(readBuf[..], t1, lonFrom);
        outcome == x.outcome && gpsStr[..] == Splice(base, 0, x.text)
    {
      if j0 + |LonLabel| > GpsCapacity {
        return TooLong;
      }
      ghost var buf := readBuf[..];
      var j1 := PutLabel(j0, LonLabel);
      var lon, k := CopyField(lonFrom, j1);
      ghost var c := Copied(buf, lonFrom, lon);
      SpliceJoin(old(gpsStr[..]), j0, LonLabel, c);
      SpliceThree(base, t1, LonLabel, c);
      assert ExtractLongitude(buf, t1, lonFrom) == Extraction(FieldOutcome(lon), t1 + LonLabel + c);
      outcome := FieldOutcome(lon);
    }

    /** `process_gps_coordinates` with the index arithmetic of the code. */
    method ProcessGpsCoordinatesAsWritten() returns (outcome: GpsOutcome)
      requires Valid()
      modifies gpsStr
      ensures readBuf[..] == old(readBuf[..])
      ensures var x := ProcessAsWritten(readBuf[..]);
        outcome == x.outcome && gpsStr[..] == Splice(old(gpsStr[..]), 0, x.text)
    {
      var m := FindMarkerScan();
      if m.None? {
        return NoMarker;
      }
      outcome := FillGps(m.value + 1, 2);
    }

    /** `process_gps_coordinates` with the intended index arithmetic. */
    method ProcessGpsCoordinates() returns (outcome: GpsOutcome)
      requires Valid()
      modifies gpsStr
      ensures readBuf[..] == old(readBuf[..])
      ensures var x := ProcessCorrected(readBuf[..]);
        outcome == x.outcome && gpsStr[..] == Splice(old(gpsStr[..]), 0, x.text)
    {
      var m := FindMarkerScan();
      if m.None? {
        return NoMarker;
      }
      outcome := FillGps(m.value + 2, 3);
    }

    /**
     * The end of `init_gps`: ask for the RMC sentence, wait for `"OK"`, and
     * extract the fix with the index arithmetic the code has.
     */
    method AcquireFix() returns (alive: bool, outcome: GpsOutcome, ghost reply: Reply)
      requires Valid()
      modifies this`pos, this`log, readBuf, gpsStr
      ensures Valid()
      ensures log == old(log) + [Sent("AT+CGPSINF=32" + [CR])]
      ensures UntilAnswer("OK", rx, old(pos), reply, pos) && (alive <==> Answered(reply))
      ensures alive ==> Hit(readBuf[..], "OK")
      ensures alive ==> var x := ProcessAsWritten(readBuf[..]);
        outcome == x.outcome && gpsStr[..] == Splice(old(gpsStr[..]), 0, x.text)
    {
      alive, reply := Exchange("AT+CGPSINF=32", "OK");
      outcome := NoMarker;
      if alive {
        outcome := ProcessGpsCoordinatesAsWritten();
      }
    }

    /**
     * `main` after the port is open: acquire the fix, `init_state`, then
     * `read_sms` for as long as the stream delivers envelopes.
     */
    method Run() returns (started: bool, ghost fixReply: Reply, ghost fixEnd: nat)
      requires Valid()
      modifies this`pos, this`sysState, this`log, readBuf, gpsStr
      ensures Valid()
      ensures UntilAnswer("OK", rx, old(pos), fixReply, fixEnd)
      ensures started <==> Answered(fixReply)
      ensures started ==> sysState == SysStart || sysState == SysStop
      ensures !started ==> sysState == old(sysState) && log == old(log) + [Sent("AT+CGPSINF=32" + [CR])]
    {
      var alive, fix;
      alive, fix, fixReply := AcquireFix();
      fixEnd := pos;
      if !alive {
        return false, fixReply, fixEnd;
      }
      InitState();
      started := true;
      while alive
        invariant Valid()
        invariant sysState == SysStart || sysState == SysStop
        decreases if alive then |rx| - pos + 1 else 0
      {
        ghost var p0 := pos;
        var action;
        ghost var reply, sms, marks;
        alive, action, reply, sms, marks := ReadSms();
        if alive {
          assert pos > p0;
        }
      }
    }
  }
}
