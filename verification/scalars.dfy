/** The two scalar decoders the record parsers are built on: a byte slice as
    text (`parse_to_string`) and as an unsigned decimal (`parse_to_usize`),
    with the `usize::from_str` conversion the latter relies on. */
module Scalars {
  import opened Bytes
  import opened Errors

  /** Outcome of `usize::from_str`. */
  datatype IntParse = Parsed(n: nat) | Refused(reason: IntErrorKind)

  const Plus: Byte := '+' as int

  /** The digits of a literal once its optional leading '+' is dropped. */
  function Unsigned(s: seq<Byte>): seq<Byte> {
    if |s| >= 1 && s[0] == Plus then s[1..] else s
  }

  /** The literals `usize::from_str` accepts: an optional '+', then one or more
      ASCII digits whose value fits in a usize. */
  predicate IsUsizeLiteral(s: seq<Byte>) {
    var d := Unsigned(s);
    d != [] && AllDigits(d) && DecimalValue(d) <= UsizeMax
  }

  function UsizeValue(s: seq<Byte>): nat
    requires IsUsizeLiteral(s)
  {
    DecimalValue(Unsigned(s))
  }

  /** The digit loop of `from_str`: each byte must be a digit, and the running
      value must stay within usize. */
  function Accumulate(d: seq<Byte>, acc: nat): (r: IntParse)
    requires acc <= UsizeMax
    ensures r != Refused(Empty)
    decreases |d|
  {
    if d == [] then Parsed(acc)
    else if !IsDigit(d[0]) then Refused(InvalidDigit)
    else if acc * 10 + DigitValue(d[0]) > UsizeMax then Refused(PosOverflow)
    else Accumulate(d[1..], acc * 10 + DigitValue(d[0]))
  }

  /** Scanning the digits `d` after an already scanned prefix `p` succeeds
      exactly when all of `d` are digits and the whole number fits, and then
      yields the decimal value of `p + d`. */
  lemma {:induction false} AccumulateSpec(p: seq<Byte>, d: seq<Byte>)
    requires AllDigits(p) && DecimalValue(p) <= UsizeMax
    ensures Accumulate(d, DecimalValue(p)).Parsed? <==>
            AllDigits(d) && AllDigits(p + d) && DecimalValue(p + d) <= UsizeMax
    ensures Accumulate(d, DecimalValue(p)).Parsed? ==>
            AllDigits(p + d) && Accumulate(d, DecimalValue(p)).n == DecimalValue(p + d)
    decreases |d|
  {
    if d == [] {
      assert p + d == p;
    } else if IsDigit(d[0]) {
      var p' := p + [d[0]];
      DecimalValueAppend(p, d[0]);
      assert p' + d[1..] == p + d;
      if DecimalValue(p') <= UsizeMax {
        AccumulateSpec(p', d[1..]);
      } else if AllDigits(d) {
        DecimalValueMonotone(p', d[1..]);
      }
    }
  }

  /** `usize::from_str`: empty input is `Empty`, a lone sign is `InvalidDigit`,
      otherwise the digits after an optional '+' are scanned. */
  function UsizeFromStr(s: seq<Byte>): (r: IntParse)
    ensures r.Parsed? <==> IsUsizeLiteral(s)
    ensures r.Parsed? ==> r.n == UsizeValue(s)
    ensures r == Refused(Empty) <==> s == []
  {
    if s == [] then Refused(Empty)
    else if s == [Plus] then Refused(InvalidDigit)
    else
      assert [] + Unsigned(s) == Unsigned(s);
      AccumulateSpec([], Unsigned(s));
      Accumulate(Unsigned(s), 0)
  }

  lemma UsizeLiteralIsAscii(s: seq<Byte>)
    ensures IsUsizeLiteral(s) ==> IsAscii(s) && ValidUtf8(s)
  {
    if IsUsizeLiteral(s) {
      if s[0] == Plus {
        assert forall i :: 1 <= i < |s| ==> s[i] == Unsigned(s)[i - 1];
      }
      AsciiIsUtf8(s);
    }
  }

  /** catalog.rs `parse_to_string`: the bytes as text, when they are UTF-8. */
  function ParseToString(bytes: seq<Byte>): (r: Result<seq<Byte>>)
    ensures r.Ok? <==> ValidUtf8(bytes)
    ensures r.Ok? ==> r.value == bytes
    ensures r.Err? ==> r.error == Leaf(UtfError)
  {
    if ValidUtf8(bytes) then Ok(bytes) else Err(Leaf(UtfError))
  }

  /** catalog.rs `parse_to_usize`: UTF-8 validation, then `usize::from_str`.
      It succeeds exactly on the usize literals and yields their value; the
      failures are the UTF-8 error or the parse error, each raised directly. */
  function ParseToUsize(bytes: seq<Byte>): (r: Result<nat>)
    ensures r.Ok? <==> IsUsizeLiteral(bytes)
    ensures r.Ok? ==> r.value == UsizeValue(bytes) && r.value <= UsizeMax
    ensures !ValidUtf8(bytes) ==> r == Err(Leaf(UtfError))
    ensures ValidUtf8(bytes) && !IsUsizeLiteral(bytes) ==>
              r.Err? && r.error.Leaf? && r.error.kind.ParseIntError?
    ensures r == Err(Leaf(ParseIntError(Empty))) <==> bytes == []
  {
    UsizeLiteralIsAscii(bytes);
    if !ValidUtf8(bytes) then Err(Leaf(UtfError))
    else
      match UsizeFromStr(bytes)
      case Parsed(n) => Ok(n)
      case Refused(reason) => Err(Leaf(ParseIntError(reason)))
  }

  /** A zero-padded decimal of any positive width reads back as its value. */
  lemma PaddedDecimalParses(n: nat, width: nat)
    requires 1 <= width && n < Pow10(width) && n <= UsizeMax
    ensures ParseToUsize(PaddedDecimal(n, width)) == Ok(n)
  {
    var s := PaddedDecimal(n, width);
    assert Unsigned(s) == s;
  }

  /** Plain digits that fit are a usize literal worth their decimal value. */
  lemma DigitsLiteral(s: seq<Byte>)
    requires s != [] && AllDigits(s) && DecimalValue(s) <= UsizeMax
    ensures IsUsizeLiteral(s) && UsizeValue(s) == DecimalValue(s)
  {
    assert IsDigit(s[0]);
    assert Unsigned(s) == s;
  }

  /** An unsigned literal is a non-empty run of digits read as its decimal
      value. */
  lemma LiteralDigits(s: seq<Byte>)
    requires AllDigits(s) && IsUsizeLiteral(s)
    ensures s != [] && DecimalValue(s) <= UsizeMax && UsizeValue(s) == DecimalValue(s)
  {
    if s != [] {
      assert IsDigit(s[0]);
      assert Unsigned(s) == s;
    }
  }

  /** A run of digits without a sign reads as its decimal value; with a
      literal argument the value is computed by evaluation. */
  lemma DigitsAreLiteral(s: seq<Byte>)
    requires s != [] && AllDigits(s) && Horner(s, 0) <= UsizeMax
    ensures IsUsizeLiteral(s) && UsizeValue(s) == Horner(s, 0)
  {
    DecimalValueByHorner(s);
    assert Unsigned(s) == s;
  }
}
