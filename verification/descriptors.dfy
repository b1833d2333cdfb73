/** The two descriptive parts of a data descriptive field after its field
    controls: the array descriptor, a '!'-separated list of subfield names, and
    the format controls, a parenthesised ','-separated list of tokens that say
    how each subfield is read. */
module DescriptorDecoder {
  import opened Bytes
  import opened Errors
  import opened Scalars
  import opened DataParser

  const Bang: Byte := '!' as int
  const Comma: Byte := ',' as int

  /** "DRID", the name given to the unnamed record identifier field. */
  const DridName: seq<Byte> := [0x44, 0x52, 0x49, 0x44]

  // ---------------------------------------------------------------------------
  // Array descriptors

  /** catalog.rs `parse_array_descriptors`: an empty descriptor names the
      single record-identifier subfield DRID; otherwise the text is split on
      '!'. The names are never empty as a list, one more than the '!'s, free of
      '!', each valid text, and joined back with '!' they are the input.
      Invalid text fails with a UTF-8 error. */
  function ParseArrayDescriptors(byte: seq<Byte>): (r: Result<seq<seq<Byte>>>)
    ensures byte == [] ==> r == Ok([DridName])
    ensures byte != [] ==> (r.Ok? <==> ValidUtf8(byte))
    ensures r.Ok? ==> |r.value| >= 1
    ensures byte != [] && r.Ok? ==>
              && |r.value| == Occurrences(byte, Bang) + 1
              && (forall i :: 0 <= i < |r.value| ==> Bang !in r.value[i])
              && Join(r.value, Bang) == byte
    ensures r.Ok? ==> forall i :: 0 <= i < |r.value| ==> ValidUtf8(r.value[i])
    ensures r.Err? ==> r.error == Leaf(UtfError)
  {
    if byte == [] then Ok([DridName])
    else
      var text :- ParseToString(byte);
      SplitJoin(text, Bang);
      SplitUtf8(text, Bang);
      Ok(Split(text, Bang))
  }

  /** Names free of '!', none of them empty as a list, are read back from the
      text they are joined into. */
  lemma ArrayDescriptorsRoundTrip(names: seq<seq<Byte>>)
    requires |names| >= 1 && Join(names, Bang) != []
    requires forall i :: 0 <= i < |names| ==> Bang !in names[i]
    requires ValidUtf8(Join(names, Bang))
    ensures ParseArrayDescriptors(Join(names, Bang)) == Ok(names)
  {
    JoinSplit(names, Bang);
  }

  // ---------------------------------------------------------------------------
  // Format controls

  /** The tokens ParseTokens reaches are all ones ParseDataNew returns on: it
      stops at the first token that does not parse. */
  predicate TokensDefined(tokens: seq<seq<Byte>>)
    decreases |tokens|
  {
    tokens == [] ||
    (NewDefined(tokens[0]) && (ParseDataNew(tokens[0]).Ok? ==> TokensDefined(tokens[1..])))
  }

  /** Collecting the parsed tokens into a `Result`: the first token that does
      not parse is the error. */
  function ParseTokens(tokens: seq<seq<Byte>>): Result<seq<(nat, ParseData)>>
    requires TokensDefined(tokens)
    decreases |tokens|
  {
    if tokens == [] then Ok([])
    else
      var head :- ParseDataNew(tokens[0]);
      var rest :- ParseTokens(tokens[1..]);
      Ok([head] + rest)
  }

  /** A token ParseDataNew accepts. */
  predicate TokenParses(t: seq<Byte>) {
    NewDefined(t) && ParseDataNew(t).Ok?
  }

  /** The index of the first token that does not parse, or the number of
      tokens when all do. */
  function FirstUnparsable(tokens: seq<seq<Byte>>): (k: nat)
    ensures k <= |tokens|
    ensures forall i :: 0 <= i < k ==> TokenParses(tokens[i])
    ensures k < |tokens| ==> !TokenParses(tokens[k])
    decreases |tokens|
  {
    if tokens == [] || !TokenParses(tokens[0]) then 0
    else
      var k := FirstUnparsable(tokens[1..]);
      assert forall i :: 0 < i <= k ==> tokens[i] == tokens[1..][i - 1];
      1 + k
  }

  /** The count and descriptor of a token that parses. */
  function ParsedValue(t: seq<Byte>): (nat, ParseData)
    requires TokenParses(t)
  {
    ParseDataNew(t).value
  }

  /** The values of tokens that all parse, in order. */
  function TokenValues(tokens: seq<seq<Byte>>): (r: seq<(nat, ParseData)>)
    requires forall i :: 0 <= i < |tokens| ==> TokenParses(tokens[i])
    ensures |r| == |tokens|
    ensures forall i :: 0 <= i < |tokens| ==> r[i] == ParsedValue(tokens[i])
    decreases |tokens|
  {
    if tokens == [] then []
    else
      assert forall i :: 0 <= i < |tokens| - 1 ==> tokens[1..][i] == tokens[i + 1];
      [ParsedValue(tokens[0])] + TokenValues(tokens[1..])
  }

  /** ParseTokens succeeds exactly when every token parses, and then gives
      one result per token, in order; otherwise it fails with the error of
      the first token that does not parse, which names that token. */
  lemma {:induction false} ParseTokensSpec(tokens: seq<seq<Byte>>)
    requires TokensDefined(tokens)
    ensures ParseTokens(tokens).Ok? <==> FirstUnparsable(tokens) == |tokens|
    ensures ParseTokens(tokens).Ok? ==>
              && (forall i :: 0 <= i < |tokens| ==> TokenParses(tokens[i]))
              && ParseTokens(tokens).value == TokenValues(tokens)
    ensures ParseTokens(tokens).Err? ==>
              ParseTokens(tokens).error == Leaf(UnParsable(tokens[FirstUnparsable(tokens)]))
    decreases |tokens|
  {
    if tokens != [] && TokenParses(tokens[0]) {
      ParseTokensSpec(tokens[1..]);
      if ParseTokens(tokens).Ok? {
        assert forall i :: 0 < i < |tokens| ==> tokens[1..][i - 1] == tokens[i];
      }
    }
  }

  /** `n` copies of `d`. */
  function Repeat(d: ParseData, n: nat): (r: seq<ParseData>)
    ensures |r| == n
    ensures forall i :: 0 <= i < n ==> r[i] == d
  {
    if n == 0 then [] else [d] + Repeat(d, n - 1)
  }

  /** The total of the repeat counts. */
  function SumCounts(pairs: seq<(nat, ParseData)>): nat {
    if pairs == [] then 0 else pairs[0].0 + SumCounts(pairs[1..])
  }

  /** Each descriptor repeated as often as its count says, in token order. */
  function Expand(pairs: seq<(nat, ParseData)>): (r: seq<ParseData>)
    ensures |r| == SumCounts(pairs)
  {
    if pairs == [] then [] else Repeat(pairs[0].1, pairs[0].0) + Expand(pairs[1..])
  }

  /** Expanding a concatenation expands each part in turn. */
  lemma {:induction false} ExpandAppend(a: seq<(nat, ParseData)>, b: seq<(nat, ParseData)>)
    ensures Expand(a + b) == Expand(a) + Expand(b)
    decreases |a|
  {
    if a == [] {
      assert a + b == b;
    } else {
      assert (a + b)[1..] == a[1..] + b;
      ExpandAppend(a[1..], b);
      var head := Repeat(a[0].1, a[0].0);
      assert Expand(a + b) == head + (Expand(a[1..]) + Expand(b));
    }
  }

  /** A descriptor occurs in the expansion exactly when some token with a
      positive count carries it: nothing is invented and nothing with a
      count is dropped. */
  lemma {:induction false} ExpandMembers(pairs: seq<(nat, ParseData)>, d: ParseData)
    ensures d in Expand(pairs) <==> exists i :: 0 <= i < |pairs| && pairs[i].0 > 0 && pairs[i].1 == d
    decreases |pairs|
  {
    if pairs != [] {
      ExpandMembers(pairs[1..], d);
      var head := Repeat(pairs[0].1, pairs[0].0);
      assert Expand(pairs) == head + Expand(pairs[1..]);
      assert d in head <==> pairs[0].0 > 0 && pairs[0].1 == d by {
        if pairs[0].0 > 0 { assert head[0] == pairs[0].1; }
      }
      if exists i :: 0 < i < |pairs| && pairs[i].0 > 0 && pairs[i].1 == d {
        var i :| 0 < i < |pairs| && pairs[i].0 > 0 && pairs[i].1 == d;
        assert pairs[1..][i - 1] == pairs[i];
      }
      if exists j :: 0 <= j < |pairs| - 1 && pairs[1..][j].0 > 0 && pairs[1..][j].1 == d {
        var j :| 0 <= j < |pairs| - 1 && pairs[1..][j].0 > 0 && pairs[1..][j].1 == d;
        assert pairs[j + 1] == pairs[1..][j];
      }
    }
  }

  /** The text between the surrounding parentheses. */
  function Inner(byte: seq<Byte>): seq<Byte>
    requires |byte| >= 2
  {
    byte[1..|byte| - 1]
  }

  /** The inputs ParseFormatControls returns on rather than failing an
      `unwrap` in a token it reaches. */
  predicate FormatControlsDefined(byte: seq<Byte>) {
    |byte| < 2 || !ValidUtf8(Inner(byte)) || TokensDefined(Split(Inner(byte), Comma))
  }

  /** catalog.rs `parse_format_controls`: fewer than two bytes is
      EmptyFormatControls; otherwise the first and last byte (the parentheses)
      are dropped, the text is split on ',', every token is parsed, and each
      descriptor is repeated as often as its count says. */
  function ParseFormatControls(byte: seq<Byte>): (r: Result<seq<ParseData>>)
    requires FormatControlsDefined(byte)
    ensures r == Err(Leaf(EmptyFormatControls)) <==> |byte| < 2
    ensures r.Err? ==>
              || r.error == Leaf(EmptyFormatControls)
              || r.error == Leaf(UtfError)
              || r.error.kind.UnParsable?
  {
    if |byte| < 2 then Err(Leaf(EmptyFormatControls))
    else
      var text :- ParseToString(Inner(byte));
      ParseTokensSpec(Split(text, Comma));
      var pairs :- ParseTokens(Split(text, Comma));
      Ok(Expand(pairs))
  }

  /** What a format control list that decodes stands for: its tokens all
      parse, and the result holds each token's descriptor as many times as its
      count, in token order, so its length is the sum of the counts. */
  lemma FormatControlsSpec(byte: seq<Byte>)
    requires FormatControlsDefined(byte) && ParseFormatControls(byte).Ok?
    ensures |byte| >= 2 && ValidUtf8(Inner(byte))
    ensures var tokens := Split(Inner(byte), Comma);
            && (forall i :: 0 <= i < |tokens| ==> TokenParses(tokens[i]))
            && ParseFormatControls(byte).value == Expand(TokenValues(tokens))
  {
    ParseTokensSpec(Split(Inner(byte), Comma));
  }

  /** Why a format control list of two bytes or more fails: text that is not
      UTF-8, or the first token that does not parse, named in the error. */
  lemma FormatControlsErrors(byte: seq<Byte>)
    requires FormatControlsDefined(byte) && |byte| >= 2
    ensures !ValidUtf8(Inner(byte)) ==> ParseFormatControls(byte) == Err(Leaf(UtfError))
    ensures ValidUtf8(Inner(byte)) ==>
              var tokens := Split(Inner(byte), Comma);
              var k := FirstUnparsable(tokens);
              (ParseFormatControls(byte).Err? <==> k < |tokens|) &&
              (k < |tokens| ==> ParseFormatControls(byte) == Err(Leaf(UnParsable(tokens[k]))))
  {
    if ValidUtf8(Inner(byte)) {
      ParseTokensSpec(Split(Inner(byte), Comma));
    }
  }

  /** Tokens free of ',' that all parse, joined with ',' and put between
      parentheses, decode to the expansion of their values. */
  lemma FormatControlsRoundTrip(tokens: seq<seq<Byte>>, byte: seq<Byte>)
    requires |tokens| >= 1
    requires forall i :: 0 <= i < |tokens| ==> Comma !in tokens[i] && TokenParses(tokens[i])
    requires |byte| >= 2 && Inner(byte) == Join(tokens, Comma) && ValidUtf8(Join(tokens, Comma))
    ensures FormatControlsDefined(byte)
    ensures ParseFormatControls(byte) == Ok(Expand(TokenValues(tokens)))
  {
    JoinSplit(tokens, Comma);
    AllParseDefined(tokens);
    ParseTokensSpec(tokens);
  }

  /** Tokens that all parse are all reached. */
  lemma {:induction false} AllParseDefined(tokens: seq<seq<Byte>>)
    requires forall i :: 0 <= i < |tokens| ==> TokenParses(tokens[i])
    ensures TokensDefined(tokens) && FirstUnparsable(tokens) == |tokens|
    decreases |tokens|
  {
    if tokens != [] {
      assert forall i :: 0 <= i < |tokens| - 1 ==> tokens[1..][i] == tokens[i + 1];
      AllParseDefined(tokens[1..]);
    }
  }

  // ---------------------------------------------------------------------------
  // The format controls of the catalog unit tests

  /** Fewer than two bytes cannot hold the parentheses. */
  lemma ExampleEmptyFormatControls()
    ensures ParseFormatControls([]) == Err(Leaf(EmptyFormatControls))
  {
  }

  /** The bytes of the catalog test's format controls and of its tokens. */
  lemma ExampleFormatBytes()
    ensures Ascii("(A(2),2I(10),2R)") == [0x28, 0x41, 0x28, 0x32, 0x29, 0x2C, 0x32, 0x49, 0x28, 0x31, 0x30, 0x29, 0x2C, 0x32, 0x52, 0x29]
    ensures Ascii("A(2)") == [0x41, 0x28, 0x32, 0x29]
    ensures Ascii("2I(10)") == [0x32, 0x49, 0x28, 0x31, 0x30, 0x29]
    ensures Ascii("2R") == [0x32, 0x52]
  {
  }

  /** "A(2)", the first token of the catalog test's format controls. */
  lemma ExampleTokenA2(t: seq<Byte>)
    requires t == Ascii("A(2)")
    ensures TokenParses(t) && ParsedValue(t) == (1, Fixed(String, 2))
  {
    ExampleFormatBytes();
    assert t == [] + [TypeLetter(String)] + WidthText(Some([0x32])) + [];
    assert DecimalValue([0x32]) == 2;
    ExampleToken(t, [], String, Some([0x32]));
  }

  /** "2I(10)", the second token. */
  lemma ExampleToken2I10(t: seq<Byte>)
    requires t == Ascii("2I(10)")
    ensures TokenParses(t) && ParsedValue(t) == (2, Fixed(Integer, 10))
  {
    ExampleFormatBytes();
    assert t == [0x32] + [TypeLetter(Integer)] + WidthText(Some([0x31, 0x30])) + [];
    assert DecimalValue([0x32]) == 2 && DecimalValue([0x31, 0x30]) == 10;
    ExampleToken(t, [0x32], Integer, Some([0x31, 0x30]));
  }

  /** "2R", the third token. */
  lemma ExampleToken2R(t: seq<Byte>)
    requires t == Ascii("2R")
    ensures TokenParses(t) && ParsedValue(t) == (2, Variable(Float))
  {
    ExampleFormatBytes();
    assert t == [0x32] + [TypeLetter(Float)] + WidthText(None) + [];
    assert DecimalValue([0x32]) == 2;
    ExampleToken(t, [0x32], Float, None);
  }

  /** The text between the parentheses of "(A(2),2I(10),2R)" is its three
      ASCII tokens joined with ','. */
  lemma ExampleFormatText(b: seq<Byte>, a2: seq<Byte>, i10: seq<Byte>, r: seq<Byte>)
    requires b == Ascii("(A(2),2I(10),2R)")
    requires a2 == Ascii("A(2)") && i10 == Ascii("2I(10)") && r == Ascii("2R")
    ensures |b| >= 2 && Inner(b) == Join([a2, i10, r], Comma)
  {
    ExampleFormatBytes();
    var parts := [a2, i10, r];
    assert parts[1..] == [i10, r] && parts[1..][1..] == [r];
    assert Join(parts[1..], Comma) == i10 + [Comma] + r;
  }

  /** The tokens are ASCII and free of ','. */
  lemma ExampleTokenBytes(a2: seq<Byte>, i10: seq<Byte>, r: seq<Byte>)
    requires a2 == Ascii("A(2)") && i10 == Ascii("2I(10)") && r == Ascii("2R")
    ensures Comma !in a2 && Comma !in i10 && Comma !in r
    ensures IsAscii(a2) && IsAscii(i10) && IsAscii(r)
  {
    ExampleFormatBytes();
  }

  /** The expansion of the three tokens' values. */
  lemma ExampleExpansion(values: seq<(nat, ParseData)>)
    requires values == [(1, Fixed(String, 2)), (2, Fixed(Integer, 10)), (2, Variable(Float))]
    ensures Expand(values) == [Fixed(String, 2), Fixed(Integer, 10), Fixed(Integer, 10), Variable(Float), Variable(Float)]
  {
    assert values[1..] == [(2, Fixed(Integer, 10)), (2, Variable(Float))];
    assert values[1..][1..] == [(2, Variable(Float))];
    assert Expand(values[1..][1..]) == Repeat(Variable(Float), 2) + Expand([]);
    assert Expand(values[1..]) == Repeat(Fixed(Integer, 10), 2) + Expand(values[1..][1..]);
    assert Expand(values) == Repeat(Fixed(String, 2), 1) + Expand(values[1..]);
  }

  /** Three tokens that parse, between parentheses, decode to the expansion
      of their three values. */
  lemma ThreeTokenFormat(b: seq<Byte>, t1: seq<Byte>, t2: seq<Byte>, t3: seq<Byte>)
    requires TokenParses(t1) && TokenParses(t2) && TokenParses(t3)
    requires Comma !in t1 && Comma !in t2 && Comma !in t3
    requires |b| >= 2 && Inner(b) == Join([t1, t2, t3], Comma) && ValidUtf8(Inner(b))
    ensures FormatControlsDefined(b)
    ensures ParseFormatControls(b) == Ok(Expand([ParsedValue(t1), ParsedValue(t2), ParsedValue(t3)]))
  {
    var tokens := [t1, t2, t3];
    FormatControlsRoundTrip(tokens, b);
    assert TokenValues(tokens) == [ParsedValue(t1), ParsedValue(t2), ParsedValue(t3)];
  }

  /** "(A(2),2I(10),2R)": one String field of width 2, two Integer fields of
      width 10 and two variable-width Float fields. */
  lemma ExampleFormatControls(b: seq<Byte>)
    requires b == Ascii("(A(2),2I(10),2R)")
    ensures FormatControlsDefined(b)
    ensures ParseFormatControls(b) ==
            Ok([Fixed(String, 2), Fixed(Integer, 10), Fixed(Integer, 10), Variable(Float), Variable(Float)])
  {
    ExampleFormatTokens(b, Ascii("A(2)"), Ascii("2I(10)"), Ascii("2R"));
  }

  lemma ExampleFormatTokens(b: seq<Byte>, a2: seq<Byte>, i10: seq<Byte>, r: seq<Byte>)
    requires b == Ascii("(A(2),2I(10),2R)")
    requires a2 == Ascii("A(2)") && i10 == Ascii("2I(10)") && r == Ascii("2R")
    ensures FormatControlsDefined(b)
    ensures ParseFormatControls(b) ==
            Ok([Fixed(String, 2), Fixed(Integer, 10), Fixed(Integer, 10), Variable(Float), Variable(Float)])
  {
    ExampleTokenA2(a2);
    ExampleToken2I10(i10);
    ExampleToken2R(r);
    ExampleFormatText(b, a2, i10, r);
    ExampleTokenBytes(a2, i10, r);
    JoinAscii([a2, i10, r], Comma);
    AsciiIsUtf8(Inner(b));
    ThreeTokenFormat(b, a2, i10, r);
    ExampleExpansion([ParsedValue(a2), ParsedValue(i10), ParsedValue(r)]);
  }
}
