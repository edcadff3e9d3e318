/**
 * The response readers of both drivers. Each reads the inbound stream one
 * byte at a time and stops at the first read that completes its target;
 * here each stop condition is a predicate on the stream and the index of a
 * read, and each reader loop is proved to stop at the FIRST such read.
 */
module Matchers {
  import opened Wire

  /** What a reader reports when it stops. */
  datatype Code =
    | Matched      // the target arrived: return 0
    | ErrorReply   // "ERROR" arrived first: `uart_read_gen` returns 6
    | ReadFailed   // `read` failed: return -1
    | Overflowed   // the 256-byte response buffer is full (no check in the source)

  /**
   * `Stopped(code, at)`: the read at index `at` of the stream ended the
   * reader. `Exhausted`: the stream ended first, where the source would
   * block in `read` for ever.
   */
  datatype Reply = Stopped(code: Code, at: nat) | Exhausted

  /** How many reads a reply consumed from a stream of `n` reads. */
  function Consumed(r: Reply, n: nat): nat
  {
    if r.Stopped? then r.at + 1 else n
  }

  /**
   * The response buffers are `char[256]` filled with zeros; after 255 bytes
   * the last NUL is gone, so at most 255 bytes can be stored and searched.
   */
  const MaxResponse: nat := 255

  /** The read at `k` ends `uart_read_OK`: it failed, or it is a `K` right after an `O`. */
  ghost predicate OkStop(s: seq<Rx>, k: nat)
  {
    k < |s| && (s[k].ReadError? || (s[k] == Byte('K') && k > 0 && s[k - 1] == Byte('O')))
  }

  /** The read at `k` ends `uart_read_MSG`: it failed, or it is the prompt `>`. */
  ghost predicate PromptStop(s: seq<Rx>, k: nat)
  {
    k < |s| && (s[k].ReadError? || s[k] == Byte('>'))
  }

  /** The read at `k` ends `uart_read_FTPPUT(target)`. */
  ghost predicate TargetStop(s: seq<Rx>, target: seq<char>, k: nat)
  {
    k < |s| && (s[k].ReadError? || k >= MaxResponse || Hit(Stored(s[..k + 1]), target))
  }

  /** The read at `k` ends `uart_read_gen`. */
  ghost predicate GenStop(s: seq<Rx>, k: nat)
  {
    k < |s| &&
    (s[k].ReadError? || k >= MaxResponse ||
     Hit(Stored(s[..k + 1]), "ERROR") || Hit(Stored(s[..k + 1]), "OK"))
  }

  /**
   * What `uart_read_gen` reports when it stops at read `k`: -1 for a failed
   * read, 6 when the stored bytes contain `"ERROR"`, 0 when they contain
   * `"OK"` only, and `Overflowed` for a byte that finds the buffer full.
   */
  ghost function GenCode(s: seq<Rx>, k: nat): Code
    requires k < |s|
  {
    if s[k].ReadError? then ReadFailed
    else if k >= MaxResponse then Overflowed
    else if Hit(Stored(s[..k + 1]), "ERROR") then ErrorReply
    else Matched
  }

  /** The read at `k` ends `uart_read_until(target)`; failed reads do not end it. */
  ghost predicate UntilStop(s: seq<Rx>, target: seq<char>, k: nat)
  {
    k < |s| && (k >= MaxResponse || Hit(Stored(s[..k + 1]), target))
  }

  /** The bytes stored after the read at `k` contain `"ERROR"`. */
  ghost predicate ErrorAt(s: seq<Rx>, k: nat)
  {
    k < |s| && Hit(Stored(s[..k + 1]), "ERROR")
  }

  /** `uart_read_until` has reported `"ERROR"` at one of the first `n` reads. */
  ghost predicate ErrorSeen(s: seq<Rx>, n: nat)
  {
    exists k: nat :: k < n && ErrorAt(s, k)
  }

  /** The five readers, by the condition that ends them. */
  datatype Reader =
    | OkReader                      // uart_read_OK
    | PromptReader                  // uart_read_MSG
    | TargetReader(t: seq<char>)    // uart_read_FTPPUT(t)
    | GenReader                     // uart_read_gen
    | UntilReader(t: seq<char>)     // uart_read_until(t)

  /** The read at `k` ends reader `rd`. */
  ghost predicate Stops(rd: Reader, s: seq<Rx>, k: nat)
  {
    match rd
    case OkReader => OkStop(s, k)
    case PromptReader => PromptStop(s, k)
    case TargetReader(t) => TargetStop(s, t, k)
    case GenReader => GenStop(s, k)
    case UntilReader(t) => UntilStop(s, t, k)
  }

  /** `r` is the first stop of reader `rd` on `s`, or `Exhausted` when there is none. */
  ghost predicate FirstStop(rd: Reader, s: seq<Rx>, r: Reply)
  {
    && (r.Stopped? ==> r.at < |s| && Stops(rd, s, r.at))
    && (forall k: nat :: k < |s| && (r.Stopped? ==> k < r.at) ==> !Stops(rd, s, k))
  }

  /** A reader has one first stop on a stream: the same read, or none at all. */
  lemma FirstStopUnique(rd: Reader, s: seq<Rx>, r1: Reply, r2: Reply)
    requires FirstStop(rd, s, r1) && FirstStop(rd, s, r2)
    ensures r1.Stopped? <==> r2.Stopped?
    ensures r1.Stopped? ==> r1.at == r2.at
  {
    if r1.Stopped? && r2.Stopped? {
      assert !Stops(rd, s, r1.at) || !(r2.at < r1.at);
      assert !Stops(rd, s, r2.at) || !(r1.at < r2.at);
    }
  }

  /** The codes `ReadGenScan` reports at its first stop are those of `GenCode`. */
  lemma GenReplyCode(s: seq<Rx>, r: Reply)
    requires FirstStop(GenReader, s, r) && r.Stopped?
    requires r.code == ReadFailed <==> s[r.at].ReadError?
    requires s[r.at].Byte? ==> (r.code == Overflowed <==> r.at == MaxResponse)
    requires s[r.at].Byte? && r.at < MaxResponse ==>
               (r.code == ErrorReply <==> Hit(Stored(s[..r.at + 1]), "ERROR"))
    ensures r.code == GenCode(s, r.at)
  {
    assert r.at <= MaxResponse by {
      assert MaxResponse < r.at ==> Stops(GenReader, s, MaxResponse);
    }
  }

  /** `uart_read_OK`: stops at the first `K` preceded by `O`, or at the first failed read. */
  method ReadOkScan(s: seq<Rx>) returns (r: Reply)
    ensures FirstStop(OkReader, s, r)
    ensures r.Stopped? ==> (r.code == Matched || r.code == ReadFailed)
    ensures r.Stopped? ==> (r.code == ReadFailed <==> s[r.at].ReadError?)
  {
    var prev := Nul;
    var j := 0;
    while j < |s|
      invariant j <= |s|
      invariant forall k: nat :: k < j ==> !OkStop(s, k)
      invariant j > 0 ==> s[j - 1] == Byte(prev)
      invariant j == 0 ==> prev == Nul
    {
      if s[j].ReadError? {
        return Stopped(ReadFailed, j);
      }
      var tmp := s[j].c;
      if tmp == 'K' && prev == 'O' {
        return Stopped(Matched, j);
      }
      prev := tmp;
      j := j + 1;
    }
    return Exhausted;
  }

  /** `uart_read_MSG`: stops at the first `>` prompt, or at the first failed read. */
  method ReadPromptScan(s: seq<Rx>) returns (r: Reply)
    ensures FirstStop(PromptReader, s, r)
    ensures r.Stopped? ==> (r.code == Matched || r.code == ReadFailed)
    ensures r.Stopped? ==> (r.code == ReadFailed <==> s[r.at].ReadError?)
  {
    var j := 0;
    while j < |s|
      invariant j <= |s|
      invariant forall k: nat :: k < j ==> !PromptStop(s, k)
    {
      if s[j].ReadError? {
        return Stopped(ReadFailed, j);
      }
      if s[j].c == '>' {
        return Stopped(Matched, j);
      }
      j := j + 1;
    }
    return Exhausted;
  }

  /**
   * `uart_read_FTPPUT(target)`: stores every byte and stops as soon as the
   * stored bytes contain `target`; a failed read or a full buffer ends it too.
   */
  method ReadTargetScan(s: seq<Rx>, target: seq<char>) returns (r: Reply)
    ensures FirstStop(TargetReader(target), s, r)
    ensures r.Stopped? ==> r.code != ErrorReply
    ensures r.Stopped? ==> (r.code == ReadFailed <==> s[r.at].ReadError?)
    ensures r.Stopped? && s[r.at].Byte? ==> (r.code == Overflowed <==> r.at == MaxResponse)
  {
    var buf: seq<char> := [];
    var j := 0;
    while j < |s|
      invariant j <= |s| && j <= MaxResponse
      invariant forall k: nat :: k < j ==> !TargetStop(s, target, k)
      invariant buf == Stored(s[..j])
    {
      if s[j].ReadError? {
        return Stopped(ReadFailed, j);
      }
      if j == MaxResponse {
        return Stopped(Overflowed, j);
      }
      StoredStep(s, j);
      buf := buf + [s[j].c];
      if Hit(buf, target) {
        return Stopped(Matched, j);
      }
      j := j + 1;
    }
    return Exhausted;
  }

  /**
   * `uart_read_gen`: stores every byte; `"ERROR"` in the stored bytes ends it
   * with `ErrorReply` (checked first), `"OK"` with `Matched`.
   */
  method ReadGenScan(s: seq<Rx>) returns (r: Reply)
    ensures FirstStop(GenReader, s, r)
    ensures r.Stopped? ==> (r.code == ReadFailed <==> s[r.at].ReadError?)
    ensures r.Stopped? && s[r.at].Byte? ==> (r.code == Overflowed <==> r.at == MaxResponse)
    ensures r.Stopped? && s[r.at].Byte? && r.at < MaxResponse ==>
              (r.code == ErrorReply <==> Hit(Stored(s[..r.at + 1]), "ERROR"))
  {
    var buf: seq<char> := [];
    var j := 0;
    while j < |s|
      invariant j <= |s| && j <= MaxResponse
      invariant forall k: nat :: k < j ==> !GenStop(s, k)
      invariant buf == Stored(s[..j])
    {
      if s[j].ReadError? {
        return Stopped(ReadFailed, j);
      }
      if j == MaxResponse {
        return Stopped(Overflowed, j);
      }
      StoredStep(s, j);
      buf := buf + [s[j].c];
      if Hit(buf, "ERROR") {
        return Stopped(ErrorReply, j);
      }
      if Hit(buf, "OK") {
        return Stopped(Matched, j);
      }
      GenGoesOn(s, j);
      j := j + 1;
    }
    return Exhausted;
  }

  /** A stored byte that completes neither reply and fits the buffer does not end `uart_read_gen`. */
  lemma GenGoesOn(s: seq<Rx>, j: nat)
    requires j < |s| && j < MaxResponse && s[j].Byte?
    requires !Hit(Stored(s[..j + 1]), "ERROR") && !Hit(Stored(s[..j + 1]), "OK")
    requires forall k: nat :: k < j ==> !GenStop(s, k)
    ensures forall k: nat :: k < j + 1 ==> !GenStop(s, k)
  {
  }

  /**
   * `uart_read_until(target)` of the GPS unit: a failed read only reports
   * and stores `tmp` again; `"ERROR"` in the stored bytes is only reported;
   * the read ends when the stored bytes contain `target`. Also returns the
   * bytes stored and whether an error was reported.
   */
  method ReadUntilScan(s: seq<Rx>, target: seq<char>) returns (r: Reply, buf: seq<char>, errorReported: bool)
    ensures FirstStop(UntilReader(target), s, r)
    ensures r.Stopped? ==> (r.code == Matched || r.code == Overflowed)
    ensures r.Stopped? ==> (r.code == Overflowed <==> r.at == MaxResponse)
    ensures buf == Stored(s[..StoredCount(r, |s|)])
    ensures errorReported <==> ErrorSeen(s, StoredCount(r, |s|))
  {
    buf := [];
    errorReported := false;
    var j := 0;
    while j < |s|
      invariant j <= |s| && j <= MaxResponse
      invariant forall k: nat :: k < j ==> !UntilStop(s, target, k)
      invariant buf == Stored(s[..j])
      invariant errorReported <==> ErrorSeen(s, j)
    {
      if j == MaxResponse {
        UntilFirstStop(s, target, Stopped(Overflowed, j));
        return Stopped(Overflowed, j), buf, errorReported;
      }
      StoredStep(s, j);
      buf := buf + [LastByte(s[..j + 1])];
      ErrorSeenStep(s, j);
      if Hit(buf, "ERROR") {
        errorReported := true;
      }
      if Hit(buf, target) {
        UntilFirstStop(s, target, Stopped(Matched, j));
        return Stopped(Matched, j), buf, errorReported;
      }
      UntilGoesOn(s, target, j);
      j := j + 1;
    }
    UntilFirstStop(s, target, Exhausted);
    return Exhausted, buf, errorReported;
  }

  /** A read that neither fills the buffer nor completes the target does not end `uart_read_until`. */
  lemma UntilGoesOn(s: seq<Rx>, target: seq<char>, j: nat)
    requires j < |s| && j < MaxResponse && !Hit(Stored(s[..j + 1]), target)
    requires forall k: nat :: k < j ==> !UntilStop(s, target, k)
    ensures forall k: nat :: k < j + 1 ==> !UntilStop(s, target, k)
  {
  }

  /** A reply that stops where `uart_read_until` first stops is its first stop. */
  lemma UntilFirstStop(s: seq<Rx>, target: seq<char>, r: Reply)
    requires r.Stopped? ==> r.at < |s| && UntilStop(s, target, r.at)
    requires forall k: nat :: k < (if r.Stopped? then r.at else |s|) ==> !UntilStop(s, target, k)
    ensures FirstStop(UntilReader(target), s, r)
  {
  }

  lemma ErrorSeenStep(s: seq<Rx>, j: nat)
    requires j < |s|
    ensures ErrorSeen(s, j + 1) <==> ErrorSeen(s, j) || Hit(Stored(s[..j + 1]), "ERROR")
  {
    if ErrorSeen(s, j + 1) && !ErrorSeen(s, j) {
      var k: nat :| k < j + 1 && ErrorAt(s, k);
      assert k == j;
    }
    if Hit(Stored(s[..j + 1]), "ERROR") {
      assert ErrorAt(s, j);
    }
  }

  /** How many bytes a `uart_read_until` reply left in the buffer: the overflowing byte is not stored. */
  function StoredCount(r: Reply, n: nat): nat
  {
    if r.Stopped? && r.code == Overflowed then r.at
    else if r.Stopped? then r.at + 1
    else n
  }

  /**
   * The two-byte window of `uart_read_OK` behaves as a substring search:
   * when no read fails, it stops exactly after the shortest prefix of the
   * stream that contains `"OK"`, and an exhausted stream never contained it.
   */
  lemma OkWindowIsSubstringSearch(s: seq<Rx>, r: Reply)
    requires AllBytes(s)
    requires FirstStop(OkReader, s, r)
    ensures r.Stopped? ==> Contains(Stored(s[..r.at + 1]), "OK")
    ensures forall n: nat :: n <= |s| && (r.Stopped? ==> n <= r.at) ==> !Contains(Stored(s[..n]), "OK")
  {
    if r.Stopped? {
      var p := s[..r.at + 1];
      StoredOfBytes(p);
      assert Stored(p)[r.at - 1..r.at + 1] == "OK";
      assert OccursAt(Stored(p), "OK", r.at - 1);
    }
    forall n: nat | n <= |s| && (r.Stopped? ==> n <= r.at)
      ensures !Contains(Stored(s[..n]), "OK")
    {
      var p := s[..n];
      StoredOfBytes(p);
      if Contains(Stored(p), "OK") {
        var i: nat :| i <= |Stored(p)| && OccursAt(Stored(p), "OK", i);
        assert Stored(p)[i] == 'O' && Stored(p)[i + 1] == 'K';
        assert Stops(OkReader, s, i + 1);
        assert false;
      }
    }
  }

  /**
   * When no read fails and no NUL arrives, `uart_read_FTPPUT(target)` stops
   * after the shortest prefix that contains `target`, and no prefix that fits
   * the buffer contained it before.
   */
  lemma TargetScanFindsShortestPrefix(s: seq<Rx>, target: seq<char>, r: Reply)
    requires target != []
    requires AllBytes(s) && forall i :: 0 <= i < |s| ==> s[i].c != Nul
    requires FirstStop(TargetReader(target), s, r)
    requires r.Stopped? ==> (r.code == Overflowed <==> r.at == MaxResponse)
    ensures r.Stopped? && r.code == Matched ==> Contains(Stored(s[..r.at + 1]), target)
    ensures forall n: nat :: n <= |s| && n <= MaxResponse && (r.Stopped? ==> n <= r.at) ==>
              !Contains(Stored(s[..n]), target)
  {
    forall n: nat | n <= |s|
      ensures Visible(Stored(s[..n])) == Stored(s[..n])
    {
      StoredOfBytes(s[..n]);
      VisibleOfCString(Stored(s[..n]));
    }
    forall n: nat | n <= |s| && n <= MaxResponse && (r.Stopped? ==> n <= r.at)
      ensures !Contains(Stored(s[..n]), target)
    {
      if n > 0 {
        assert !Stops(TargetReader(target), s, n - 1);
      }
    }
    if r.Stopped? && r.code == Matched {
      assert r.at <= MaxResponse by {
        if r.at > MaxResponse {
          assert Stops(TargetReader(target), s, MaxResponse);
        }
      }
      assert r.at < MaxResponse;
      assert Stops(TargetReader(target), s, r.at);
      assert s[r.at].Byte?;
      assert Visible(Stored(s[..r.at + 1])) == Stored(s[..r.at + 1]);
    }
  }

  /**
   * `uart_read_gen` reports success only when `"ERROR"` never appeared in
   * the stored bytes, up to and including the read it stopped at.
   */
  lemma GenOkExcludesError(s: seq<Rx>, r: Reply)
    requires FirstStop(GenReader, s, r)
    requires r.Stopped? && s[r.at].Byte? && r.at < MaxResponse
    requires r.code == Matched
    requires r.code == ErrorReply <==> Hit(Stored(s[..r.at + 1]), "ERROR")
    ensures forall n: nat :: 0 < n <= r.at + 1 ==> !Hit(Stored(s[..n]), "ERROR")
    ensures Hit(Stored(s[..r.at + 1]), "OK")
  {
    forall n: nat | 0 < n <= r.at + 1
      ensures !Hit(Stored(s[..n]), "ERROR")
    {
      if n <= r.at {
        assert !Stops(GenReader, s, n - 1);
      }
    }
    assert Stops(GenReader, s, r.at);
  }

  /**
   * One read of reader `rd` that starts at index `from` of `s`: `r` is its
   * first stop there, and `to` is where the next read starts.
   */
  ghost predicate Answer(rd: Reader, s: seq<Rx>, from: nat, r: Reply, to: nat)
  {
    && from <= |s|
    && FirstStop(rd, s[from..], r)
    && to == from + Consumed(r, |s| - from)
  }

  /**
   * `rs` are the replies of the first `|rs|` readers of `script`, run one
   * after the other on `s`: the `i`-th starts at `marks[i]` and the next
   * one where it stopped.
   */
  ghost predicate Chain(s: seq<Rx>, script: seq<Reader>, marks: seq<nat>, rs: seq<Reply>)
  {
    && |rs| <= |script|
    && |marks| == |rs| + 1
    && forall i {:trigger Answer(script[i], s, marks[i], rs[i], marks[i + 1])} ::
         0 <= i < |rs| ==> Answer(script[i], s, marks[i], rs[i], marks[i + 1])
  }

  /**
   * A session that runs the readers of `script` from `from` and goes on only
   * while their reads end: every reply but a last `Exhausted` one arrived,
   * the session is still `alive` exactly when all of them arrived, and it
   * stands at `to`, where the last one stopped.
   */
  ghost predicate Ran(s: seq<Rx>, script: seq<Reader>, from: nat, to: nat, marks: seq<nat>, rs: seq<Reply>, alive: bool)
  {
    && Chain(s, script, marks, rs)
    && marks[0] == from && marks[|rs|] == to
    && (forall i :: 0 <= i < |rs| - 1 ==> rs[i].Stopped?)
    && (alive ==> |rs| == |script| && (rs == [] || rs[|rs| - 1].Stopped?))
    && (!alive ==> rs != [] && rs[|rs| - 1].Exhausted?)
  }

  /** A single read is a session of one reader. */
  lemma RanOne(rd: Reader, s: seq<Rx>, from: nat, r: Reply, to: nat)
    requires Answer(rd, s, from, r, to)
    ensures Ran(s, [rd], from, to, [from, to], [r], r.Stopped?)
  {
    assert [from, to][0] == from && [from, to][1] == to;
  }

  /** Two reads, the first of which stopped: a session of two readers. */
  lemma RanPair(s: seq<Rx>, script: seq<Reader>, from: nat, mid: nat, to: nat, r1: Reply, r2: Reply)
    requires |script| == 2
    requires Answer(script[0], s, from, r1, mid) && r1.Stopped? && Answer(script[1], s, mid, r2, to)
    ensures Ran(s, script, from, to, [from, mid, to], [r1, r2], r2.Stopped?)
  {
    assert [from, mid, to][1] == mid && [from, mid, to][2] == to;
  }

  /** A first read that found the stream exhausted: a stalled session of two readers. */
  lemma RanFirstStalled(s: seq<Rx>, script: seq<Reader>, from: nat, r: Reply, to: nat)
    requires script != [] && Answer(script[0], s, from, r, to) && r.Exhausted?
    ensures Ran(s, script, from, to, [from, to], [r], false)
  {
    assert [from, to][1] == to;
  }

  /** A session that stalled has read the stream to its end. */
  lemma RanStalled(s: seq<Rx>, script: seq<Reader>, from: nat, to: nat, marks: seq<nat>, rs: seq<Reply>)
    requires Ran(s, script, from, to, marks, rs, false)
    ensures to == |s|
  {
    var i := |rs| - 1;
    assert Answer(script[i], s, marks[i], rs[i], marks[i + 1]);
  }

  /** Whatever was to follow a stalled session never ran: it is a stalled session of any longer script. */
  lemma RanStopped(s: seq<Rx>, a: seq<Reader>, b: seq<Reader>, from: nat, to: nat, marks: seq<nat>, rs: seq<Reply>)
    requires Ran(s, a, from, to, marks, rs, false) && a <= b
    ensures Ran(s, b, from, to, marks, rs, false)
  {
    assert forall i :: 0 <= i < |rs| ==> b[i] == a[i];
  }

  /** A session that stalled on `a` stalled on any script that goes on after `a`. */
  lemma RanStoppedThen(s: seq<Rx>, a: seq<Reader>, b: seq<Reader>, from: nat, to: nat, marks: seq<nat>, rs: seq<Reply>)
    requires Ran(s, a, from, to, marks, rs, false)
    ensures Ran(s, a + b, from, to, marks, rs, false)
  {
    RanStopped(s, a, a + b, from, to, marks, rs);
  }

  /** A session of a non-empty script has a last reply, and it is `Exhausted` exactly when the session stalled. */
  lemma RanLast(s: seq<Rx>, script: seq<Reader>, from: nat, to: nat, marks: seq<nat>, rs: seq<Reply>, alive: bool)
    requires Ran(s, script, from, to, marks, rs, alive) && script != []
    ensures rs != [] && (rs[|rs| - 1].Exhausted? <==> !alive)
  {
  }

  /** Before its first read, a session has run the empty prefix of its script. */
  lemma RanNone(s: seq<Rx>, script: seq<Reader>, at: nat)
    ensures Ran(s, script[..0], at, at, [at], [], true)
  {
  }

  /** The `k`-th reader of `script`, run where the first `k` ended, extends the session by one reply. */
  lemma RanNext(s: seq<Rx>, script: seq<Reader>, k: nat, from: nat, mid: nat, to: nat,
                marks: seq<nat>, rs: seq<Reply>, r: Reply)
    requires k < |script| && Ran(s, script[..k], from, mid, marks, rs, true)
    requires Answer(script[k], s, mid, r, to)
    ensures Ran(s, script[..k + 1], from, to, marks + [to], rs + [r], r.Stopped?)
    ensures r.Exhausted? ==> Ran(s, script, from, to, marks + [to], rs + [r], false)
  {
    RanOne(script[k], s, mid, r, to);
    RanJoin(s, script[..k], [script[k]], from, mid, to, marks, rs, [mid, to], [r], r.Stopped?);
    assert script[..k] + [script[k]] == script[..k + 1];
    assert [mid, to][1..] == [to];
    if r.Exhausted? {
      RanStopped(s, script[..k + 1], script, from, to, marks + [to], rs + [r]);
    }
  }

  /** A whole session over `sub`, the next part of `script`, extends the session by its replies. */
  lemma RanThen(s: seq<Rx>, script: seq<Reader>, k: nat, sub: seq<Reader>, from: nat, mid: nat, to: nat,
                m1: seq<nat>, r1: seq<Reply>, m2: seq<nat>, r2: seq<Reply>, alive: bool)
    requires k + |sub| <= |script| && script[k..k + |sub|] == sub
    requires Ran(s, script[..k], from, mid, m1, r1, true)
    requires Ran(s, sub, mid, to, m2, r2, alive)
    ensures Ran(s, script[..k + |sub|], from, to, m1 + m2[1..], r1 + r2, alive)
    ensures !alive ==> Ran(s, script, from, to, m1 + m2[1..], r1 + r2, false)
  {
    RanJoin(s, script[..k], sub, from, mid, to, m1, r1, m2, r2, alive);
    assert script[..k] + sub == script[..k + |sub|];
    if !alive {
      RanStopped(s, script[..k + |sub|], script, from, to, m1 + m2[1..], r1 + r2);
    }
  }

  /** A whole session, then another one where it ended: one session over both scripts. */
  lemma RanJoin(s: seq<Rx>, a: seq<Reader>, b: seq<Reader>, from: nat, mid: nat, to: nat,
                m1: seq<nat>, r1: seq<Reply>, m2: seq<nat>, r2: seq<Reply>, alive: bool)
    requires Ran(s, a, from, mid, m1, r1, true)
    requires Ran(s, b, mid, to, m2, r2, alive)
    ensures Ran(s, a + b, from, to, m1 + m2[1..], r1 + r2, alive)
    ensures (r1 + r2)[..|r1|] == r1 && (r1 + r2)[|r1|..] == r2
    ensures (m1 + m2[1..])[..|m1|] == m1 && (m1 + m2[1..])[|r1|..] == m2
  {
    var ms, qs := m1 + m2[1..], r1 + r2;
    ChainJoin(s, a, b, m1, r1, m2, r2);
    StoppedJoin(r1, r2);
    assert ms[|qs|] == m2[|r2|];
  }

  /** Replies that all stopped, then replies stopped up to their last: stopped up to the last of both. */
  lemma StoppedJoin(r1: seq<Reply>, r2: seq<Reply>)
    requires forall i :: 0 <= i < |r1| ==> r1[i].Stopped?
    requires forall i :: 0 <= i < |r2| - 1 ==> r2[i].Stopped?
    ensures forall i :: 0 <= i < |r1 + r2| - 1 ==> (r1 + r2)[i].Stopped?
  {
  }

  /** The answers of a whole script, then those of the next one: the answers of both. */
  lemma ChainJoin(s: seq<Rx>, a: seq<Reader>, b: seq<Reader>, m1: seq<nat>, r1: seq<Reply>, m2: seq<nat>, r2: seq<Reply>)
    requires Chain(s, a, m1, r1) && |r1| == |a| && Chain(s, b, m2, r2) && m1[|r1|] == m2[0]
    ensures Chain(s, a + b, m1 + m2[1..], r1 + r2)
  {
    var ms, qs := m1 + m2[1..], r1 + r2;
    forall i | 0 <= i < |qs|
      ensures Answer((a + b)[i], s, ms[i], qs[i], ms[i + 1])
    {
      if i < |r1| {
        assert Answer(a[i], s, m1[i], r1[i], m1[i + 1]);
        assert ms[i + 1] == m1[i + 1];
      } else {
        var j := i - |r1|;
        assert Answer(b[j], s, m2[j], r2[j], m2[j + 1]);
        assert ms[i] == m2[j] && ms[i + 1] == m2[j + 1];
      }
    }
  }

}
