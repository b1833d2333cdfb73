/** One token of a format-control string: an optional repeat count, a type
    letter, and an optional parenthesised width, such as `2I(10)` or `R`. The
    pattern is matched at the start of the token only; what follows the
    recognised prefix is ignored. */
module DataParser {
  import opened Bytes
  import opened Errors
  import opened Scalars

  datatype Option<T> = None | Some(value: T)

  datatype ParseType = Integer | String | Float

  datatype ParseData =
    | Fixed(typ: ParseType, width: nat)
    | Variable(typ: ParseType)

  const OpenParen: Byte := '(' as int
  const CloseParen: Byte := ')' as int

  predicate IsTypeLetter(b: Byte) {
    b == 'A' as int || b == 'I' as int || b == 'R' as int
  }

  /** The letter a type is written with: A for text, I for integers, R for reals. */
  function TypeLetter(t: ParseType): (b: Byte)
    ensures IsTypeLetter(b)
  {
    match t
    case String => 'A' as int
    case Integer => 'I' as int
    case Float => 'R' as int
  }

  /** data_parser.rs: the type a letter stands for. */
  function TypeOf(b: Byte): (t: ParseType)
    requires IsTypeLetter(b)
    ensures TypeLetter(t) == b
  {
    if b == 'A' as int then String
    else if b == 'I' as int then Integer
    else Float
  }

  /** The letters and the types are in one-to-one correspondence. */
  lemma TypeLetterRoundTrip(t: ParseType)
    ensures TypeOf(TypeLetter(t)) == t
  {
  }

  /** What the pattern's three groups capture: the count digits (empty when
      the group is absent), the type letter, and the whole width group with
      its parentheses. */
  datatype Captures = Captures(count: seq<Byte>, letter: Byte, width: Option<seq<Byte>>)

  /** A width group: digits between parentheses. */
  predicate IsWidthGroup(g: seq<Byte>) {
    |g| >= 2 && g[0] == OpenParen && g[|g| - 1] == CloseParen && AllDigits(g[1..|g| - 1])
  }

  /** The optional width group starting at `at`; the pattern takes it whenever
      one is there. */
  function WidthGroup(s: seq<Byte>, at: nat): (g: Option<seq<Byte>>)
    requires at <= |s|
    ensures g.Some? ==> at + |g.value| <= |s| && s[at..at + |g.value|] == g.value && IsWidthGroup(g.value)
    ensures g.None? ==> forall j :: at < j <= |s| ==> !IsWidthGroup(s[at..j])
  {
    if at < |s| && s[at] == OpenParen then
      var j := DigitRun(s, at + 1);
      if j < |s| && s[j] == CloseParen then
        InnerSlice(s, at, j + 1);
        Some(s[at..j + 1])
      else
        WidthGroupAbsent(s, at);
        None
    else
      None
  }

  /** The inside of a slice, without its first and last byte. */
  lemma InnerSlice(s: seq<Byte>, from: nat, to: nat)
    requires from + 2 <= to <= |s|
    ensures s[from..to][1..to - from - 1] == s[from + 1..to - 1]
    ensures s[from..to][0] == s[from] && s[from..to][to - from - 1] == s[to - 1]
  {
    var g, inner := s[from..to], s[from + 1..to - 1];
    assert forall i :: 0 <= i < |inner| ==> inner[i] == g[i + 1];
  }

  /** When the digits after an opening parenthesis are not closed, there is
      no width group there at any length. */
  lemma WidthGroupAbsent(s: seq<Byte>, at: nat)
    requires at < |s| && s[at] == OpenParen
    requires DigitRun(s, at + 1) == |s| || s[DigitRun(s, at + 1)] != CloseParen
    ensures forall j :: at < j <= |s| ==> !IsWidthGroup(s[at..j])
  {
    forall j | at < j <= |s| && IsWidthGroup(s[at..j])
      ensures false
    {
      InnerSlice(s, at, j);
      DigitRunExact(s, at + 1, j - 1);
    }
  }

  /** The pattern matched at the start of `s`: the longest run of digits,
      then a type letter, then the width group if there is one. */
  function Capture(s: seq<Byte>): (c: Option<Captures>)
    ensures c.Some? ==> AllDigits(c.value.count) && IsTypeLetter(c.value.letter)
  {
    var k := DigitRun(s, 0);
    if k < |s| && IsTypeLetter(s[k]) then Some(Captures(s[..k], s[k], WidthGroup(s, k + 1)))
    else None
  }

  /** The tokens ParseDataNew returns on rather than failing an `unwrap`:
      unless the pattern does not match, the count must fit in a usize, and a
      width group must hold one or more digits whose value fits as well. */
  predicate NewDefined(s: seq<Byte>) {
    match Capture(s)
    case None => true
    case Some(c) =>
      && (c.count == [] || IsUsizeLiteral(c.count))
      && (c.width.Some? ==> IsUsizeLiteral(c.width.value[1..|c.width.value| - 1]))
  }

  /** data_parser.rs `ParseData::new`: the repeat count (1 when absent) and the
      descriptor of one token; `Fixed` when a width group follows the letter,
      `Variable` otherwise. A token that does not start with optional digits
      and a type letter is UnParsable, carrying the token. */
  function ParseDataNew(s: seq<Byte>): (r: Result<(nat, ParseData)>)
    requires NewDefined(s)
    ensures r.Ok? <==> exists k :: 0 <= k < |s| && AllDigits(s[..k]) && IsTypeLetter(s[k])
    ensures r.Err? ==> r.error == Leaf(UnParsable(s))
  {
    MatchIff(s);
    match Capture(s)
    case None => Err(Leaf(UnParsable(s)))
    case Some(c) =>
      var num := if c.count == [] then 1 else UsizeValue(c.count);
      var typ := TypeOf(c.letter);
      var pd := match c.width
        case None => Variable(typ)
        case Some(g) => Fixed(typ, UsizeValue(g[1..|g| - 1]));
      Ok((num, pd))
  }

  /** The pattern matches exactly the tokens that start with digits and a
      type letter. */
  lemma MatchIff(s: seq<Byte>)
    ensures Capture(s).Some? <==> exists k :: 0 <= k < |s| && AllDigits(s[..k]) && IsTypeLetter(s[k])
  {
    var k := DigitRun(s, 0);
    if Capture(s).Some? {
      assert 0 <= k < |s| && AllDigits(s[..k]) && IsTypeLetter(s[k]);
    } else if exists j :: 0 <= j < |s| && AllDigits(s[..j]) && IsTypeLetter(s[j]) {
      var j :| 0 <= j < |s| && AllDigits(s[..j]) && IsTypeLetter(s[j]);
      assert s[0..j] == s[..j];
      DigitRunExact(s, 0, j);
    }
  }

  /** The width group text of an optional width. */
  function WidthText(width: Option<seq<Byte>>): seq<Byte> {
    match width
    case None => []
    case Some(w) => [OpenParen] + w + [CloseParen]
  }

  /** The descriptor and count a token made of `count`, the letter of `t`,
      the optional width and an ignored tail stands for. */
  function TokenValue(count: seq<Byte>, t: ParseType, width: Option<seq<Byte>>): (nat, ParseData)
    requires AllDigits(count)
    requires width.Some? ==> AllDigits(width.value)
  {
    (if count == [] then 1 else DecimalValue(count),
     match width
     case None => Variable(t)
     case Some(w) => Fixed(t, DecimalValue(w)))
  }

  /** The pattern finds the digits and the letter where they are. */
  lemma CaptureAt(s: seq<Byte>, k: nat)
    requires k < |s| && AllDigits(s[..k]) && IsTypeLetter(s[k])
    ensures Capture(s) == Some(Captures(s[..k], s[k], WidthGroup(s, k + 1)))
  {
    assert s[0..k] == s[..k];
    DigitRunExact(s, 0, k);
  }

  /** A parenthesised run of digits at `at` is the width group. */
  lemma WidthGroupAt(s: seq<Byte>, at: nat, w: seq<Byte>)
    requires at + |w| + 2 <= |s| && AllDigits(w)
    requires s[at] == OpenParen && s[at + 1..at + 1 + |w|] == w && s[at + 1 + |w|] == CloseParen
    ensures WidthGroup(s, at) == Some(s[at..at + |w| + 2])
    ensures s[at..at + |w| + 2][1..|w| + 1] == w
  {
    DigitRunExact(s, at + 1, at + 1 + |w|);
  }

  /** The three parts of a token sit where they were put. */
  lemma TokenParts(count: seq<Byte>, letter: Byte, rest: seq<Byte>)
    ensures var s := count + [letter] + rest;
            s[..|count|] == count && s[|count|] == letter && s[|count| + 1..] == rest
  {
  }

  /** A width text followed by a tail: the digits sit between the parentheses. */
  lemma WidthTextParts(w: seq<Byte>, tail: seq<Byte>)
    ensures var r := WidthText(Some(w)) + tail;
            |r| == |w| + 2 + |tail| && r[0] == OpenParen && r[1..|w| + 1] == w && r[|w| + 1] == CloseParen
            && r[..|w| + 2] == WidthText(Some(w))
  {
    var g := WidthText(Some(w));
    var r := g + tail;
    assert |g| == |w| + 2;
    assert r[..|w| + 2] == g;
    assert g[1..|w| + 1] == w;
    assert r[1..|w| + 1] == g[1..|w| + 1];
  }

  /** The width group of a token whose remainder starts with a width text. */
  lemma WidthGroupOfText(s: seq<Byte>, at: nat, w: seq<Byte>, tail: seq<Byte>)
    requires at <= |s| && s[at..] == WidthText(Some(w)) + tail && AllDigits(w)
    ensures WidthGroup(s, at) == Some(WidthText(Some(w)))
  {
    WidthTextParts(w, tail);
    var r := s[at..];
    assert s[at + 1..at + 1 + |w|] == r[1..|w| + 1];
    assert s[at..at + |w| + 2] == r[..|w| + 2];
    WidthGroupAt(s, at, w);
  }

  /** No prefix of `tail` is a width group, so the pattern leaves it alone. */
  predicate NoWidthGroupAhead(tail: seq<Byte>) {
    forall j :: 0 < j <= |tail| ==> !IsWidthGroup(tail[..j])
  }

  /** The width group at `at` is absent exactly when no prefix of the
      remainder is one. */
  lemma WidthGroupNone(s: seq<Byte>, at: nat)
    requires at <= |s|
    ensures WidthGroup(s, at).None? <==> NoWidthGroupAhead(s[at..])
  {
    var r := s[at..];
    if WidthGroup(s, at).None? {
      forall j | 0 < j <= |r|
        ensures !IsWidthGroup(r[..j])
      {
        assert r[..j] == s[at..at + j];
      }
    } else {
      var g := WidthGroup(s, at).value;
      assert r[..|g|] == g;
    }
  }

  /** What the pattern captures in a token built from its parts. */
  lemma CaptureOfToken(count: seq<Byte>, t: ParseType, width: Option<seq<Byte>>, tail: seq<Byte>)
    requires AllDigits(count) && (width.Some? ==> AllDigits(width.value))
    requires width.None? ==> NoWidthGroupAhead(tail)
    ensures Capture(count + [TypeLetter(t)] + WidthText(width) + tail)
            == Some(Captures(count, TypeLetter(t), if width.None? then None else Some(WidthText(width))))
  {
    var letter := TypeLetter(t);
    var rest := WidthText(width) + tail;
    var s := count + [letter] + rest;
    ConcatAssoc(count + [letter], WidthText(width), tail);
    TokenParts(count, letter, rest);
    CaptureAt(s, |count|);
    if width.Some? {
      WidthGroupOfText(s, |count| + 1, width.value, tail);
    } else {
      WidthGroupNone(s, |count| + 1);
    }
  }

  /** Well-formed count digits, letter and width, followed by any tail that
      cannot be mistaken for a width group, parse to the count (1 when
      omitted) and the descriptor they spell. */
  lemma TokenRoundTrip(count: seq<Byte>, t: ParseType, width: Option<seq<Byte>>, tail: seq<Byte>)
    requires AllDigits(count) && (count == [] || DecimalValue(count) <= UsizeMax)
    requires width.Some? ==> width.value != [] && AllDigits(width.value) && DecimalValue(width.value) <= UsizeMax
    requires width.None? ==> NoWidthGroupAhead(tail)
    ensures NewDefined(count + [TypeLetter(t)] + WidthText(width) + tail)
    ensures ParseDataNew(count + [TypeLetter(t)] + WidthText(width) + tail) == Ok(TokenValue(count, t, width))
  {
    var s := count + [TypeLetter(t)] + WidthText(width) + tail;
    CaptureOfToken(count, t, width, tail);
    TypeLetterRoundTrip(t);
    var c := Capture(s).value;
    assert c.count == count && c.letter == TypeLetter(t);
    if count != [] {
      DigitsLiteral(count);
    }
    match width
    case None =>
      assert c.width == None;
    case Some(w) =>
      assert c.width == Some(WidthText(width));
      WidthTextParts(w, []);
      DigitsLiteral(w);
  }

  /** The width digits of the width group at `at`, if any, and what follows
      the group. */
  lemma WidthAt(s: seq<Byte>, at: nat) returns (width: Option<seq<Byte>>, tail: seq<Byte>)
    requires at <= |s|
    ensures width.Some? ==> AllDigits(width.value)
    ensures WidthGroup(s, at) == (if width.None? then None else Some(WidthText(width)))
    ensures width.None? ==> NoWidthGroupAhead(tail)
    ensures s[at..] == WidthText(width) + tail
  {
    var rest := s[at..];
    match WidthGroup(s, at)
    case None =>
      width, tail := None, rest;
      WidthGroupNone(s, at);
    case Some(g) =>
      width := Some(g[1..|g| - 1]);
      assert g == WidthText(width);
      assert rest[..|g|] == g;
      tail := rest[|g|..];
      assert rest == g + tail;
  }

  lemma ConcatAssoc(a: seq<Byte>, b: seq<Byte>, c: seq<Byte>)
    ensures a + (b + c) == a + b + c
  {
  }

  /** The count digits and the type letter the pattern finds at the head of
      a matching token. */
  lemma TokenHead(s: seq<Byte>) returns (count: seq<Byte>, t: ParseType)
    requires NewDefined(s) && Capture(s).Some?
    ensures count == Capture(s).value.count && TypeLetter(t) == Capture(s).value.letter
    ensures Capture(s).value.width == WidthGroup(s, |count| + 1)
    ensures AllDigits(count) && (count == [] || DecimalValue(count) <= UsizeMax)
    ensures |count| < |s| && s == count + [TypeLetter(t)] + s[|count| + 1..]
  {
    var c := Capture(s).value;
    var k := |c.count|;
    count, t := c.count, TypeOf(c.letter);
    assert s[..k] == count && s[k] == c.letter;
    if count != [] {
      DigitsLiteral(count);
    }
    assert s == s[..k] + [s[k]] + s[k + 1..];
  }

  /** The parts the pattern splits a matching token into, with the bounds
      NewDefined guarantees for them. */
  lemma TokenShape(s: seq<Byte>) returns (count: seq<Byte>, t: ParseType, width: Option<seq<Byte>>, tail: seq<Byte>)
    requires NewDefined(s) && Capture(s).Some?
    ensures AllDigits(count) && (count == [] || DecimalValue(count) <= UsizeMax)
    ensures width.Some? ==> width.value != [] && AllDigits(width.value) && DecimalValue(width.value) <= UsizeMax
    ensures width.None? ==> NoWidthGroupAhead(tail)
    ensures s == count + [TypeLetter(t)] + WidthText(width) + tail
  {
    count, t := TokenHead(s);
    var k := |count|;
    width, tail := WidthAt(s, k + 1);
    if width.Some? {
      var g := WidthText(width);
      DefinedWidth(s, g);
      WidthLiteral(g, width.value);
    }
    assert s == count + [TypeLetter(t)] + WidthText(width) + tail by {
      ConcatAssoc(count + [TypeLetter(t)], WidthText(width), tail);
    }
  }

  /** NewDefined asks the digits of a captured width group to read as a
      usize. */
  lemma DefinedWidth(s: seq<Byte>, g: seq<Byte>)
    requires NewDefined(s) && Capture(s).Some? && Capture(s).value.width == Some(g)
    ensures |g| >= 2 && IsUsizeLiteral(g[1..|g| - 1])
  {
  }

  /** The digits of a width group that reads as a usize. */
  lemma WidthLiteral(g: seq<Byte>, w: seq<Byte>)
    requires g == WidthText(Some(w)) && AllDigits(w) && IsUsizeLiteral(g[1..|g| - 1])
    ensures w != [] && DecimalValue(w) <= UsizeMax
  {
    assert g[1..|g| - 1] == w;
    LiteralDigits(w);
  }

  /** The parts a parsed token is made of, as the pattern splits it. */
  lemma TokenDecomposition(s: seq<Byte>) returns (count: seq<Byte>, t: ParseType, width: Option<seq<Byte>>, tail: seq<Byte>)
    requires NewDefined(s) && Capture(s).Some?
    ensures AllDigits(count) && (width.Some? ==> AllDigits(width.value))
    ensures s == count + [TypeLetter(t)] + WidthText(width) + tail
    ensures ParseDataNew(s) == Ok(TokenValue(count, t, width))
  {
    count, t, width, tail := TokenShape(s);
    TokenRoundTrip(count, t, width, tail);
  }

  /** Conversely, every token that parses is such a token: digits, a letter,
      an optional width group and a tail, and the result is what they spell. */
  lemma ParsedTokenForm(s: seq<Byte>)
    requires NewDefined(s) && ParseDataNew(s).Ok?
    ensures exists count: seq<Byte>, t: ParseType, width: Option<seq<Byte>>, tail: seq<Byte> ::
              && AllDigits(count) && (width.Some? ==> AllDigits(width.value))
              && s == count + [TypeLetter(t)] + WidthText(width) + tail
              && ParseDataNew(s) == Ok(TokenValue(count, t, width))
  {
    MatchIff(s);
    var count, t, width, tail := TokenDecomposition(s);
  }

  // ---------------------------------------------------------------------------
  // The tokens of the data_parser.rs unit test

  /** A token spelled from a count, a letter and a width parses to them. */
  lemma ExampleToken(b: seq<Byte>, count: seq<Byte>, t: ParseType, width: Option<seq<Byte>>)
    requires b == count + [TypeLetter(t)] + WidthText(width) + []
    requires AllDigits(count) && (count == [] || DecimalValue(count) <= UsizeMax)
    requires width.Some? ==> width.value != [] && AllDigits(width.value) && DecimalValue(width.value) <= UsizeMax
    ensures NewDefined(b) && ParseDataNew(b) == Ok(TokenValue(count, t, width))
  {
    TokenRoundTrip(count, t, width, []);
  }

  /** "A(3)" */
  lemma ExampleA3(b: seq<Byte>)
    requires b == [0x41, 0x28, 0x33, 0x29]
    ensures NewDefined(b) && ParseDataNew(b) == Ok((1, Fixed(String, 3)))
  {
    assert b == [] + [TypeLetter(String)] + WidthText(Some([0x33])) + [];
    assert DecimalValue([0x33]) == 3;
    ExampleToken(b, [], String, Some([0x33]));
  }

  /** "I(10)" */
  lemma ExampleI10(b: seq<Byte>)
    requires b == [0x49, 0x28, 0x31, 0x30, 0x29]
    ensures NewDefined(b) && ParseDataNew(b) == Ok((1, Fixed(Integer, 10)))
  {
    assert b == [] + [TypeLetter(Integer)] + WidthText(Some([0x31, 0x30])) + [];
    assert DecimalValue([0x31, 0x30]) == 10;
    ExampleToken(b, [], Integer, Some([0x31, 0x30]));
  }

  /** "R(5)" */
  lemma ExampleR5(b: seq<Byte>)
    requires b == [0x52, 0x28, 0x35, 0x29]
    ensures NewDefined(b) && ParseDataNew(b) == Ok((1, Fixed(Float, 5)))
  {
    assert b == [] + [TypeLetter(Float)] + WidthText(Some([0x35])) + [];
    assert DecimalValue([0x35]) == 5;
    ExampleToken(b, [], Float, Some([0x35]));
  }

  /** "5R" */
  lemma Example5R(b: seq<Byte>)
    requires b == [0x35, 0x52]
    ensures NewDefined(b) && ParseDataNew(b) == Ok((5, Variable(Float)))
  {
    assert b == [0x35] + [TypeLetter(Float)] + WidthText(None) + [];
    assert DecimalValue([0x35]) == 5;
    ExampleToken(b, [0x35], Float, None);
  }

  /** "10I" */
  lemma Example10I(b: seq<Byte>)
    requires b == [0x31, 0x30, 0x49]
    ensures NewDefined(b) && ParseDataNew(b) == Ok((10, Variable(Integer)))
  {
    assert b == [0x31, 0x30] + [TypeLetter(Integer)] + WidthText(None) + [];
    assert DecimalValue([0x31, 0x30]) == 10;
    ExampleToken(b, [0x31, 0x30], Integer, None);
  }

  /** "1A" */
  lemma Example1A(b: seq<Byte>)
    requires b == [0x31, 0x41]
    ensures NewDefined(b) && ParseDataNew(b) == Ok((1, Variable(String)))
  {
    assert b == [0x31] + [TypeLetter(String)] + WidthText(None) + [];
    assert DecimalValue([0x31]) == 1;
    ExampleToken(b, [0x31], String, None);
  }

  /** "2A(3)" */
  lemma Example2A3(b: seq<Byte>)
    requires b == [0x32, 0x41, 0x28, 0x33, 0x29]
    ensures NewDefined(b) && ParseDataNew(b) == Ok((2, Fixed(String, 3)))
  {
    assert b == [0x32] + [TypeLetter(String)] + WidthText(Some([0x33])) + [];
    assert DecimalValue([0x32]) == 2;
    assert DecimalValue([0x33]) == 3;
    ExampleToken(b, [0x32], String, Some([0x33]));
  }

  /** "10I(10)" */
  lemma Example10I10(b: seq<Byte>)
    requires b == [0x31, 0x30, 0x49, 0x28, 0x31, 0x30, 0x29]
    ensures NewDefined(b) && ParseDataNew(b) == Ok((10, Fixed(Integer, 10)))
  {
    assert b == [0x31, 0x30] + [TypeLetter(Integer)] + WidthText(Some([0x31, 0x30])) + [];
    assert DecimalValue([0x31, 0x30]) == 10;
    assert DecimalValue([0x31, 0x30]) == 10;
    ExampleToken(b, [0x31, 0x30], Integer, Some([0x31, 0x30]));
  }

  /** "1R(5)" */
  lemma Example1R5(b: seq<Byte>)
    requires b == [0x31, 0x52, 0x28, 0x35, 0x29]
    ensures NewDefined(b) && ParseDataNew(b) == Ok((1, Fixed(Float, 5)))
  {
    assert b == [0x31] + [TypeLetter(Float)] + WidthText(Some([0x35])) + [];
    assert DecimalValue([0x31]) == 1;
    assert DecimalValue([0x35]) == 5;
    ExampleToken(b, [0x31], Float, Some([0x35]));
  }
}
