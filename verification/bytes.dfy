/** Bytes, the separator and digit codes an ISO/IEC 8211 record is framed with,
    and the operations on byte strings that the decoder is built from:
    decimal digit runs, splitting on a separator byte, and UTF-8 validity. */
module Bytes {

  type Byte = x: int | 0 <= x < 0x100

  /** Record separator: ends the directory of a record. */
  const RecordSeparator: Byte := 0x1E
  /** Unit separator: delimits the parts of a field body. */
  const UnitSeparator: Byte := 0x1F

  /** The largest value of a 64-bit `usize`. */
  const UsizeMax: nat := 0xFFFF_FFFF_FFFF_FFFF

  /** The bytes of an ASCII string literal. */
  function Ascii(s: string): (r: seq<Byte>)
    requires forall i :: 0 <= i < |s| ==> s[i] as int < 0x80
    ensures |r| == |s|
    ensures forall i :: 0 <= i < |s| ==> r[i] == s[i] as int
  {
    seq(|s|, i requires 0 <= i < |s| => s[i] as int)
  }

  // ---------------------------------------------------------------------------
  // Decimal digits

  predicate IsDigit(b: Byte) {
    '0' as int <= b <= '9' as int
  }

  function DigitValue(b: Byte): nat
    requires IsDigit(b)
  {
    b - '0' as int
  }

  predicate AllDigits(s: seq<Byte>) {
    forall i :: 0 <= i < |s| ==> IsDigit(s[i])
  }

  /** The value of a run of decimal digits, most significant digit first. */
  function DecimalValue(s: seq<Byte>): nat
    requires AllDigits(s)
  {
    if s == [] then 0 else DecimalValue(s[..|s| - 1]) * 10 + DigitValue(s[|s| - 1])
  }

  lemma DecimalValueAppend(s: seq<Byte>, d: Byte)
    requires AllDigits(s) && IsDigit(d)
    ensures AllDigits(s + [d])
    ensures DecimalValue(s + [d]) == DecimalValue(s) * 10 + DigitValue(d)
  {
    assert (s + [d])[..|s|] == s;
  }

  /** The same value computed most significant digit first, as a scan does. */
  function Horner(s: seq<Byte>, acc: nat): nat
    requires AllDigits(s)
  {
    if s == [] then acc else Horner(s[1..], acc * 10 + DigitValue(s[0]))
  }

  lemma {:induction false} HornerAfterPrefix(p: seq<Byte>, d: seq<Byte>)
    requires AllDigits(p) && AllDigits(d)
    ensures AllDigits(p + d) && Horner(d, DecimalValue(p)) == DecimalValue(p + d)
    decreases |d|
  {
    if d == [] {
      assert p + d == p;
    } else {
      DecimalValueAppend(p, d[0]);
      assert (p + [d[0]]) + d[1..] == p + d;
      HornerAfterPrefix(p + [d[0]], d[1..]);
    }
  }

  /** Lets the value of a literal run of digits be computed by evaluation. */
  lemma DecimalValueByHorner(d: seq<Byte>)
    requires AllDigits(d)
    ensures DecimalValue(d) == Horner(d, 0)
  {
    assert [] + d == d;
    HornerAfterPrefix([], d);
  }

  /** Appending digits never makes the value smaller. */
  lemma {:induction false} DecimalValueMonotone(p: seq<Byte>, d: seq<Byte>)
    requires AllDigits(p) && AllDigits(d)
    ensures AllDigits(p + d)
    ensures DecimalValue(p + d) >= DecimalValue(p)
    decreases |d|
  {
    if d != [] {
      var d' := d[..|d| - 1];
      assert p + d == (p + d') + [d[|d| - 1]];
      DecimalValueMonotone(p, d');
      DecimalValueAppend(p + d', d[|d| - 1]);
    } else {
      assert p + d == p;
    }
  }

  function Pow10(n: nat): (r: nat)
    ensures r >= 1
  {
    if n == 0 then 1 else 10 * Pow10(n - 1)
  }

  /** A run of `n` digits is worth less than 10 to the power `n`. */
  lemma {:induction false} DecimalValueBound(s: seq<Byte>)
    requires AllDigits(s)
    ensures DecimalValue(s) < Pow10(|s|)
    decreases |s|
  {
    if s != [] {
      DecimalValueBound(s[..|s| - 1]);
    }
  }

  function DigitByte(d: nat): (b: Byte)
    requires d < 10
    ensures IsDigit(b) && DigitValue(b) == d
  {
    '0' as int + d
  }

  /** `n` written in decimal with exactly `width` digits, zero-padded on the left. */
  function PaddedDecimal(n: nat, width: nat): (r: seq<Byte>)
    requires n < Pow10(width)
    ensures |r| == width && AllDigits(r)
    ensures DecimalValue(r) == n
  {
    if width == 0 then []
    else
      var r := PaddedDecimal(n / 10, width - 1) + [DigitByte(n % 10)];
      DecimalValueAppend(PaddedDecimal(n / 10, width - 1), DigitByte(n % 10));
      r
  }

  /** A run of digits is the zero-padded decimal of its own value, at its own
      width: PaddedDecimal and DecimalValue are inverse on digit strings. */
  lemma {:induction false} DecimalCanonical(s: seq<Byte>)
    requires AllDigits(s)
    ensures DecimalValue(s) < Pow10(|s|)
    ensures PaddedDecimal(DecimalValue(s), |s|) == s
    decreases |s|
  {
    DecimalValueBound(s);
    if s != [] {
      var s' := s[..|s| - 1];
      DecimalCanonical(s');
      var v := DecimalValue(s);
      assert v / 10 == DecimalValue(s') && v % 10 == DigitValue(s[|s| - 1]);
      assert s == s' + [s[|s| - 1]];
    }
  }

  /** The end of the longest run of digits that starts at `from`. */
  function DigitRun(s: seq<Byte>, from: nat): (k: nat)
    requires from <= |s|
    ensures from <= k <= |s|
    ensures AllDigits(s[from..k])
    ensures k < |s| ==> !IsDigit(s[k])
    decreases |s| - from
  {
    if from < |s| && IsDigit(s[from]) then DigitRun(s, from + 1) else from
  }

  /** A run of digits ended by a non-digit is exactly what DigitRun finds. */
  lemma {:induction false} DigitRunExact(s: seq<Byte>, from: nat, k: nat)
    requires from <= k <= |s|
    requires AllDigits(s[from..k])
    requires k < |s| ==> !IsDigit(s[k])
    ensures DigitRun(s, from) == k
    decreases k - from
  {
    if from < k {
      assert s[from..k][0] == s[from];
      var run, rest := s[from..k], s[from + 1..k];
      assert forall i :: 0 <= i < |rest| ==> rest[i] == run[i + 1];
      DigitRunExact(s, from + 1, k);
    }
  }

  // ---------------------------------------------------------------------------
  // Splitting on a separator byte, as `split` on a Rust slice or string does

  function Occurrences(s: seq<Byte>, b: Byte): nat {
    if s == [] then 0 else (if s[0] == b then 1 else 0) + Occurrences(s[1..], b)
  }

  /** The pieces of `s` between occurrences of `sep`; empty pieces are kept,
      and a string without `sep` is one piece. */
  function Split(s: seq<Byte>, sep: Byte): (parts: seq<seq<Byte>>)
    ensures |parts| >= 1
  {
    if s == [] then [[]]
    else
      var rest := Split(s[1..], sep);
      if s[0] == sep then [[]] + rest else [[s[0]] + rest[0]] + rest[1..]
  }

  /** The inverse of Split: the pieces glued back with `sep` between them. */
  function Join(parts: seq<seq<Byte>>, sep: Byte): seq<Byte> {
    if parts == [] then []
    else if |parts| == 1 then parts[0]
    else parts[0] + [sep] + Join(parts[1..], sep)
  }

  /** Splitting gives one more piece than there are separators, no piece holds
      the separator, and joining the pieces gives back the input. */
  lemma {:induction false} SplitJoin(s: seq<Byte>, sep: Byte)
    ensures |Split(s, sep)| == Occurrences(s, sep) + 1
    ensures forall i :: 0 <= i < |Split(s, sep)| ==> sep !in Split(s, sep)[i]
    ensures Join(Split(s, sep), sep) == s
  {
    if s != [] {
      var rest := Split(s[1..], sep);
      SplitJoin(s[1..], sep);
      var parts := Split(s, sep);
      if s[0] == sep {
        assert parts == [[]] + rest;
        assert parts[1..] == rest;
        assert Join(parts, sep) == [] + [sep] + Join(rest, sep);
      } else {
        assert parts == [[s[0]] + rest[0]] + rest[1..];
        forall i | 0 <= i < |parts| ensures sep !in parts[i] {
          if i > 0 {
            assert parts[i] == rest[i];
          } else {
            assert sep !in rest[0];
          }
        }
        if |rest| == 1 {
          assert Join(parts, sep) == [s[0]] + rest[0];
        } else {
          assert parts[1..] == rest[1..];
          assert Join(parts, sep) == [s[0]] + rest[0] + [sep] + Join(rest[1..], sep);
          assert Join(rest, sep) == rest[0] + [sep] + Join(rest[1..], sep);
        }
        assert s == [s[0]] + s[1..];
      }
    }
  }

  /** A piece without the separator, then the separator: Split cuts there. */
  lemma {:induction false} SplitAfterPiece(p: seq<Byte>, sep: Byte, x: seq<Byte>)
    requires sep !in p
    ensures Split(p + [sep] + x, sep) == [p] + Split(x, sep)
    decreases |p|
  {
    var s := p + [sep] + x;
    if p == [] {
      assert s == [sep] + x && s[1..] == x;
    } else {
      assert s[1..] == p[1..] + [sep] + x;
      SplitAfterPiece(p[1..], sep, x);
      assert [p[0]] + p[1..] == p;
    }
  }

  /** A string without the separator is a single piece. */
  lemma {:induction false} SplitWhole(p: seq<Byte>, sep: Byte)
    requires sep !in p
    ensures Split(p, sep) == [p]
    decreases |p|
  {
    if p != [] {
      SplitWhole(p[1..], sep);
      assert [p[0]] + p[1..] == p;
    }
  }

  /** Conversely to SplitJoin: pieces free of the separator are recovered by
      splitting what Join glued together. */
  lemma {:induction false} JoinSplit(parts: seq<seq<Byte>>, sep: Byte)
    requires |parts| >= 1
    requires forall i :: 0 <= i < |parts| ==> sep !in parts[i]
    ensures Split(Join(parts, sep), sep) == parts
    decreases |parts|
  {
    if |parts| == 1 {
      SplitWhole(parts[0], sep);
    } else {
      JoinSplit(parts[1..], sep);
      SplitAfterPiece(parts[0], sep, Join(parts[1..], sep));
      assert [parts[0]] + parts[1..] == parts;
    }
  }

  /** Joining ASCII pieces with an ASCII separator gives ASCII text. */
  lemma {:induction false} JoinAscii(parts: seq<seq<Byte>>, sep: Byte)
    requires sep < 0x80
    requires forall i :: 0 <= i < |parts| ==> IsAscii(parts[i])
    ensures IsAscii(Join(parts, sep))
    decreases |parts|
  {
    if |parts| > 1 {
      JoinAscii(parts[1..], sep);
      var rest := Join(parts[1..], sep);
      var j := Join(parts, sep);
      assert j == parts[0] + [sep] + rest;
      assert forall i :: 0 <= i < |j| ==> j[i] < 0x80 by {
        forall i | 0 <= i < |j| ensures j[i] < 0x80 {
          if i < |parts[0]| {
            assert j[i] == parts[0][i];
          } else if i > |parts[0]| {
            assert j[i] == rest[i - |parts[0]| - 1];
          }
        }
      }
    }
  }

  /** The first position of `b` in `s`, as `iter().position` finds it. */
  function Position(s: seq<Byte>, b: Byte): (r: int)
    ensures -1 <= r < |s|
    ensures r >= 0 ==> s[r] == b && b !in s[..r]
    ensures r == -1 <==> b !in s
  {
    if s == [] then -1
    else if s[0] == b then 0
    else
      var r := Position(s[1..], b);
      assert s == [s[0]] + s[1..];
      if r == -1 then -1 else (assert s[..r + 1] == [s[0]] + s[1..][..r]; r + 1)
  }

  // ---------------------------------------------------------------------------
  // UTF-8 well-formedness (RFC 3629, table 3-7 of the Unicode standard): what
  // Rust's `str::from_utf8` accepts

  predicate InRange(s: seq<Byte>, i: nat, lo: Byte, hi: Byte) {
    i < |s| && lo <= s[i] <= hi
  }

  predicate IsContinuation(s: seq<Byte>, i: nat) {
    InRange(s, i, 0x80, 0xBF)
  }

  /** The length of the well-formed UTF-8 sequence at the start of `s`,
      or 0 when `s` does not start with one. */
  function Utf8SequenceLength(s: seq<Byte>): (n: nat)
    requires s != []
    ensures n <= 4 && n <= |s|
    ensures s[0] < 0x80 <==> n == 1
  {
    var b := s[0];
    if b < 0x80 then 1
    else if 0xC2 <= b <= 0xDF then
      (if IsContinuation(s, 1) then 2 else 0)
    else if b == 0xE0 then
      (if InRange(s, 1, 0xA0, 0xBF) && IsContinuation(s, 2) then 3 else 0)
    else if 0xE1 <= b <= 0xEC || 0xEE <= b <= 0xEF then
      (if IsContinuation(s, 1) && IsContinuation(s, 2) then 3 else 0)
    else if b == 0xED then
      (if InRange(s, 1, 0x80, 0x9F) && IsContinuation(s, 2) then 3 else 0)
    else if b == 0xF0 then
      (if InRange(s, 1, 0x90, 0xBF) && IsContinuation(s, 2) && IsContinuation(s, 3) then 4 else 0)
    else if 0xF1 <= b <= 0xF3 then
      (if IsContinuation(s, 1) && IsContinuation(s, 2) && IsContinuation(s, 3) then 4 else 0)
    else if b == 0xF4 then
      (if InRange(s, 1, 0x80, 0x8F) && IsContinuation(s, 2) && IsContinuation(s, 3) then 4 else 0)
    else 0
  }

  predicate ValidUtf8(s: seq<Byte>)
    decreases |s|
  {
    s == [] || (Utf8SequenceLength(s) > 0 && ValidUtf8(s[Utf8SequenceLength(s)..]))
  }

  predicate IsAscii(s: seq<Byte>) {
    forall i :: 0 <= i < |s| ==> s[i] < 0x80
  }

  lemma {:induction false} AsciiIsUtf8(s: seq<Byte>)
    requires IsAscii(s)
    ensures ValidUtf8(s)
    decreases |s|
  {
    if s != [] {
      AsciiIsUtf8(s[1..]);
    }
  }

  lemma Utf8SequenceLengthPrefix(a: seq<Byte>, b: seq<Byte>)
    requires a != [] && Utf8SequenceLength(a) > 0
    ensures Utf8SequenceLength(a + b) == Utf8SequenceLength(a)
  {
  }

  /** Gluing two valid UTF-8 strings gives a valid UTF-8 string. */
  lemma {:induction false} ConcatUtf8(a: seq<Byte>, b: seq<Byte>)
    requires ValidUtf8(a) && ValidUtf8(b)
    ensures ValidUtf8(a + b)
    decreases |a|
  {
    if a == [] {
      assert a + b == b;
    } else {
      var n := Utf8SequenceLength(a);
      Utf8SequenceLengthPrefix(a, b);
      assert (a + b)[n..] == a[n..] + b;
      ConcatUtf8(a[n..], b);
    }
  }

  /** The sequence length at the start of `s` depends only on the bytes the
      sequence covers. */
  lemma Utf8SequenceLengthOfPrefix(s: seq<Byte>, m: nat)
    requires s != [] && 0 < Utf8SequenceLength(s) <= m <= |s|
    ensures Utf8SequenceLength(s[..m]) == Utf8SequenceLength(s)
  {
    Utf8SequenceLengthPrefix(s[..m], s[m..]);
    assert s[..m] + s[m..] == s;
  }

  /** An ASCII byte never sits inside a multi-byte character: valid UTF-8 cut
      around one is valid UTF-8 on both sides. */
  lemma {:induction false} CutAtAscii(s: seq<Byte>, k: nat)
    requires ValidUtf8(s) && k < |s| && s[k] < 0x80
    ensures ValidUtf8(s[..k]) && ValidUtf8(s[k + 1..])
    decreases |s|
  {
    var n := Utf8SequenceLength(s);
    if k < n {
      // every byte after the lead byte of a multi-byte sequence is >= 0x80
      assert k == 0 && n == 1;
      assert s[..k] == [];
    } else {
      var tail := s[n..];
      CutAtAscii(tail, k - n);
      assert tail[k - n + 1..] == s[k + 1..];
      Utf8SequenceLengthOfPrefix(s, k);
      assert s[..k][n..] == tail[..k - n];
    }
  }

  lemma PrependUtf8(p: seq<Byte>, rest: seq<seq<Byte>>)
    requires ValidUtf8(p)
    requires forall i :: 0 <= i < |rest| ==> ValidUtf8(rest[i])
    ensures forall i :: 0 <= i < |[p] + rest| ==> ValidUtf8(([p] + rest)[i])
  {
    forall i | 0 <= i < |[p] + rest| ensures ValidUtf8(([p] + rest)[i]) {
      if i > 0 {
        assert ([p] + rest)[i] == rest[i - 1];
      }
    }
  }

  /** Splitting valid UTF-8 at an ASCII separator gives pieces that are each
      valid UTF-8, so splitting the bytes is splitting the text. */
  lemma {:induction false} SplitUtf8(s: seq<Byte>, sep: Byte)
    requires ValidUtf8(s) && sep < 0x80
    ensures forall i :: 0 <= i < |Split(s, sep)| ==> ValidUtf8(Split(s, sep)[i])
    decreases |s|
  {
    var k := Position(s, sep);
    if k == -1 {
      SplitWhole(s, sep);
    } else {
      var p, x := s[..k], s[k + 1..];
      CutAtAscii(s, k);
      assert s == p + [sep] + x;
      SplitAfterPiece(p, sep, x);
      SplitUtf8(x, sep);
      PrependUtf8(p, Split(x, sep));
    }
  }
}
