/**
 * The serial line as the modem drivers see it: a finite stream of one-byte
 * read results coming in, C strings going out, and the buffers that the
 * response readers fill byte by byte.
 */
module Wire {

  /** One call of `read(fd, &tmp, 1)`: either a byte or a failed read. */
  datatype Rx = Byte(c: char) | ReadError

  /** The command terminator (S3, carriage return) appended to every AT command line. */
  const CR: char := 13 as char
  /** Ctrl-Z, which ends an SMS body in text mode. */
  const CtrlZ: char := 26 as char
  /** The string terminator of C. */
  const Nul: char := 0 as char

  /**
   * The value left in `tmp` after the reads in `s`: a failed read leaves
   * `tmp` as it was, and `tmp` starts at 0.
   */
  function LastByte(s: seq<Rx>): (c: char)
    ensures s != [] && s[|s| - 1].Byte? ==> c == s[|s| - 1].c
  {
    if s == [] then Nul
    else if s[|s| - 1].Byte? then s[|s| - 1].c
    else LastByte(s[..|s| - 1])
  }

  /**
   * The bytes a reader has stored after the reads in `s`, one per read:
   * `buf[i++] = tmp` after every call of `read`.
   */
  function Stored(s: seq<Rx>): (b: seq<char>)
    ensures |b| == |s|
  {
    if s == [] then [] else Stored(s[..|s| - 1]) + [LastByte(s)]
  }

  lemma StoredStep(s: seq<Rx>, j: nat)
    requires j < |s|
    ensures Stored(s[..j + 1]) == Stored(s[..j]) + [LastByte(s[..j + 1])]
    ensures s[j].Byte? ==> LastByte(s[..j + 1]) == s[j].c
    ensures s[j].ReadError? ==> LastByte(s[..j + 1]) == LastByte(s[..j])
  {
    assert s[..j + 1][..j] == s[..j];
  }

  /** No read in `s` failed. */
  predicate AllBytes(s: seq<Rx>)
  {
    forall i :: 0 <= i < |s| ==> s[i].Byte?
  }

  /** When no read failed, the stored bytes are exactly the bytes received. */
  lemma {:induction false} StoredOfBytes(s: seq<Rx>)
    requires AllBytes(s)
    ensures forall i :: 0 <= i < |s| ==> Stored(s)[i] == s[i].c
  {
    if s != [] {
      StoredOfBytes(s[..|s| - 1]);
    }
  }

  /** What `strstr` and `strlen` see of a buffer: everything before its first NUL. */
  function Visible(b: seq<char>): (v: seq<char>)
    ensures |v| <= |b| && v == b[..|v|]
    ensures Nul !in v
    ensures |v| < |b| ==> b[|v|] == Nul
  {
    if b == [] || b[0] == Nul then [] else [b[0]] + Visible(b[1..])
  }

  lemma {:induction false} VisibleOfCString(b: seq<char>)
    requires Nul !in b
    ensures Visible(b) == b
  {
    if b != [] {
      VisibleOfCString(b[1..]);
    }
  }

  /** `needle` occurs in `hay` starting at index `i`. */
  predicate OccursAt(hay: seq<char>, needle: seq<char>, i: nat)
  {
    i + |needle| <= |hay| && hay[i..i + |needle|] == needle
  }

  /** `strstr(hay, needle) != NULL`, for a needle without NUL. */
  predicate Contains(hay: seq<char>, needle: seq<char>)
  {
    exists i: nat | i <= |hay| :: OccursAt(hay, needle, i)
  }

  /** A buffer "contains" a target when `strstr` on it finds the target. */
  predicate Hit(buf: seq<char>, target: seq<char>)
  {
    Contains(Visible(buf), target)
  }

  /** Once a target is found in a buffer, it stays found as the buffer grows. */
  lemma HitGrows(buf: seq<char>, more: seq<char>, target: seq<char>)
    requires Hit(buf, target)
    ensures Hit(buf + more, target)
  {
    var v := Visible(buf);
    var w := Visible(buf + more);
    VisiblePrefix(buf, more);
    var i: nat :| i <= |v| && OccursAt(v, target, i);
    assert w[i..i + |target|] == target;
    assert OccursAt(w, target, i);
  }

  lemma {:induction false} VisiblePrefix(buf: seq<char>, more: seq<char>)
    ensures Visible(buf) <= Visible(buf + more)
  {
    if buf != [] && buf[0] != Nul {
      assert (buf + more)[1..] == buf[1..] + more;
      VisiblePrefix(buf[1..], more);
    }
  }

  /** Bytes after a NUL are invisible: a zeroed tail changes nothing `strstr` sees. */
  lemma {:induction false} VisibleNulTail(b: seq<char>, tail: seq<char>)
    requires tail == [] || tail[0] == Nul
    ensures Visible(b + tail) == Visible(b)
  {
    if b != [] && b[0] != Nul {
      assert (b + tail)[1..] == b[1..] + tail;
      VisibleNulTail(b[1..], tail);
    }
  }

  /**
   * The bytes `uart_write` sends for a line built by `strcpy(uart_str, text)`
   * and `strcat(uart_str, term)`: `strlen` stops at the first NUL of `text`.
   */
  function Frame(text: seq<char>, term: char): (f: seq<char>)
    ensures |f| >= 1 && f[|f| - 1] == term
    ensures f[..|f| - 1] <= text
  {
    Visible(text) + [term]
  }

  /** A command built from a C string literal goes out as its text and then the single terminator. */
  lemma FrameOfCString(text: seq<char>, term: char)
    requires Nul !in text
    ensures Frame(text, term) == text + [term]
  {
    VisibleOfCString(text);
  }

  function Digit(d: nat): (c: char)
    requires d < 10
    ensures '0' <= c <= '9'
  {
    ('0' as int + d) as char
  }

  /** `snprintf(buf, n, "%d", n)` for a non-negative value that fits the buffer. */
  function Decimal(n: nat): (s: seq<char>)
    ensures |s| >= 1
    ensures forall i :: 0 <= i < |s| ==> '0' <= s[i] <= '9'
    ensures n > 0 ==> s[0] != '0'
  {
    if n < 10 then [Digit(n)] else Decimal(n / 10) + [Digit(n % 10)]
  }

  /** The reading of a string of decimal digits (the modem's side of the count). */
  function ParseDecimal(s: seq<char>): nat
    requires forall i :: 0 <= i < |s| ==> '0' <= s[i] <= '9'
  {
    if s == [] then 0
    else ParseDecimal(s[..|s| - 1]) * 10 + (s[|s| - 1] as int - '0' as int)
  }

  lemma {:induction false} DecimalRoundTrip(n: nat)
    ensures ParseDecimal(Decimal(n)) == n
  {
    if n >= 10 {
      DecimalRoundTrip(n / 10);
      var s := Decimal(n);
      assert s[..|s| - 1] == Decimal(n / 10);
    }
  }
}
