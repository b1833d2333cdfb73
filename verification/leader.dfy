/** The leader of an ISO/IEC 8211 record: the fixed preamble after the 5-byte
    record length, whose entry map gives the widths of every directory entry. */
module LeaderDecoder {
  import opened Bytes
  import opened Errors
  import opened Scalars

  /** `as u32` keeps the value modulo 2^32. */
  const U32Modulus: nat := 0x1_0000_0000

  datatype Leader = Leader(
    rl: nat,                    // record length
    il: Byte,                   // interchange level
    li: Byte,                   // leader identifier
    cei: Byte,                  // in-line code extension indicator
    vn: Byte,                   // version number
    ai: Byte,                   // application indicator
    fcl: (Byte, Byte),          // field control length
    ba: nat,                    // base address of the field area (a u32)
    csi: (Byte, Byte, Byte),    // extended character set indicator
    flf: nat,                   // entry map: size of the field length field
    fpf: nat,                   // entry map: size of the field position field
    rsv: Byte,                  // entry map: reserved
    ftf: nat)                   // entry map: size of the field tag field

  /** The leader fields read as numbers: base address and the three widths. */
  predicate NumericFieldsValid(byte: seq<Byte>)
    requires |byte| >= 19
  {
    IsUsizeLiteral(byte[7..12]) && IsDigit(byte[15]) && IsDigit(byte[16]) && IsDigit(byte[18])
  }

  /** A one-byte usize literal is a single digit (a lone '+' is refused). */
  lemma OneByteLiteral(s: seq<Byte>)
    requires |s| == 1
    ensures IsUsizeLiteral(s) <==> IsDigit(s[0])
    ensures IsUsizeLiteral(s) ==> UsizeValue(s) == DigitValue(s[0])
  {
    assert s[..|s| - 1] == [];
    if s[0] == Plus {
      assert Unsigned(s) == [];
    } else {
      assert Unsigned(s) == s;
      assert AllDigits(s) <==> IsDigit(s[0]);
      if IsDigit(s[0]) {
        assert DecimalValue(s) == DigitValue(s[0]);
      }
    }
  }

  /** A five-byte usize literal is below 100000, so `as u32` keeps it. */
  lemma BaseAddressBound(s: seq<Byte>)
    requires |s| == 5
    ensures IsUsizeLiteral(s) ==> UsizeValue(s) < 100000
  {
    if IsUsizeLiteral(s) {
      DecimalValueBound(Unsigned(s));
      assert Pow10(4) == 10000 && Pow10(5) == 100000;
    }
  }

  /** catalog.rs `parse_leader`: the 19 bytes after the record length, read at
      fixed offsets. Byte-sized fields are kept as they are; the base address
      (bytes 7..12) and the entry-map widths (bytes 15, 16 and 18) must be
      decimal, and the first that is not fails the leader with InvalidLeader
      wrapped around the decoding error. */
  function ParseLeader(byte: seq<Byte>, len: nat): (r: Result<Leader>)
    requires |byte| >= 19
    ensures r.Ok? <==> NumericFieldsValid(byte)
    ensures r.Ok? ==>
              && r.value.rl == len
              && r.value.il == byte[0] && r.value.li == byte[1] && r.value.cei == byte[2]
              && r.value.vn == byte[3] && r.value.ai == byte[4]
              && r.value.fcl == (byte[5], byte[6])
              && r.value.ba == UsizeValue(byte[7..12]) && r.value.ba < 100000
              && r.value.csi == (byte[12], byte[13], byte[14])
              && r.value.flf == DigitValue(byte[15])
              && r.value.fpf == DigitValue(byte[16])
              && r.value.rsv == byte[17]
              && r.value.ftf == DigitValue(byte[18])
    ensures r.Err? ==>
              && r.error.Context? && r.error.kind == InvalidLeader
              && r.error.cause.Leaf?
              && (r.error.cause.kind == UtfError || r.error.cause.kind.ParseIntError?)
    ensures !IsUsizeLiteral(byte[7..12]) ==>
              r == Err(Context(InvalidLeader, ParseToUsize(byte[7..12]).error))
  {
    OneByteLiteral(byte[15..16]);
    OneByteLiteral(byte[16..17]);
    OneByteLiteral(byte[18..19]);
    BaseAddressBound(byte[7..12]);
    var ba :- WithContext(ParseToUsize(byte[7..12]), InvalidLeader);
    var flf :- WithContext(ParseToUsize(byte[15..16]), InvalidLeader);
    var fpf :- WithContext(ParseToUsize(byte[16..17]), InvalidLeader);
    var ftf :- WithContext(ParseToUsize(byte[18..19]), InvalidLeader);
    Ok(Leader(len, byte[0], byte[1], byte[2], byte[3], byte[4], (byte[5], byte[6]),
              ba % U32Modulus, (byte[12], byte[13], byte[14]), flf, fpf, byte[17], ftf))
  }

  /** The leaders that can be written back in 19 bytes: a five-digit base
      address and one-digit entry-map widths. */
  predicate Encodable(l: Leader) {
    l.ba < 100000 && l.flf < 10 && l.fpf < 10 && l.ftf < 10
  }

  /** The 19 leader bytes for `l`: the inverse of ParseLeader. */
  function EncodeLeader(l: Leader): (b: seq<Byte>)
    requires Encodable(l)
    ensures |b| == 19
  {
    assert Pow10(5) == 100000;
    [l.il, l.li, l.cei, l.vn, l.ai, l.fcl.0, l.fcl.1]
    + PaddedDecimal(l.ba, 5)
    + [l.csi.0, l.csi.1, l.csi.2, DigitByte(l.flf), DigitByte(l.fpf), l.rsv, DigitByte(l.ftf)]
  }

  /** Every encodable leader survives a write and a read unchanged. */
  lemma LeaderRoundTrip(l: Leader)
    requires Encodable(l)
    ensures ParseLeader(EncodeLeader(l), l.rl) == Ok(l)
  {
    var b := EncodeLeader(l);
    assert Pow10(5) == 100000;
    assert b[7..12] == PaddedDecimal(l.ba, 5);
    PaddedDecimalParses(l.ba, 5);
    assert b[15] == DigitByte(l.flf) && b[16] == DigitByte(l.fpf) && b[18] == DigitByte(l.ftf);
  }

  /** Conversely, a leader whose base address is written without a sign is
      re-encoded to exactly the bytes it was read from. */
  lemma LeaderReencodes(byte: seq<Byte>, len: nat)
    requires |byte| == 19 && ParseLeader(byte, len).Ok? && AllDigits(byte[7..12])
    ensures Encodable(ParseLeader(byte, len).value)
    ensures EncodeLeader(ParseLeader(byte, len).value) == byte
  {
    var l := ParseLeader(byte, len).value;
    assert Unsigned(byte[7..12]) == byte[7..12];
    FieldsReencode(byte, l);
  }

  /** The field-by-field step of LeaderReencodes, once the fields are read. */
  lemma FieldsReencode(byte: seq<Byte>, l: Leader)
    requires |byte| == 19 && AllDigits(byte[7..12])
    requires l.il == byte[0] && l.li == byte[1] && l.cei == byte[2] && l.vn == byte[3] && l.ai == byte[4]
    requires l.fcl == (byte[5], byte[6]) && l.csi == (byte[12], byte[13], byte[14]) && l.rsv == byte[17]
    requires l.ba == DecimalValue(byte[7..12])
    requires IsDigit(byte[15]) && IsDigit(byte[16]) && IsDigit(byte[18])
    requires l.flf == DigitValue(byte[15]) && l.fpf == DigitValue(byte[16]) && l.ftf == DigitValue(byte[18])
    ensures Encodable(l) && EncodeLeader(l) == byte
  {
    var digits := byte[7..12];
    DecimalCanonical(digits);
    assert Pow10(5) == 100000;
    var head := [l.il, l.li, l.cei, l.vn, l.ai, l.fcl.0, l.fcl.1];
    var tail := [l.csi.0, l.csi.1, l.csi.2, DigitByte(l.flf), DigitByte(l.fpf), l.rsv, DigitByte(l.ftf)];
    assert head == byte[..7];
    assert tail == byte[12..];
    assert EncodeLeader(l) == head + digits + tail;
    assert byte == byte[..7] + digits + byte[12..];
  }

  /** The leader of the catalog test fixture: interchange level '3', leader
      identifier 'L', extension indicator 'E', version '1', field control
      length "09", base address 58, character set " ! ", and an entry map of
      3 length digits, 4 position digits and 4 tag bytes. */
  const FixtureLeader := Leader(241, '3' as int, 'L' as int, 'E' as int, '1' as int, ' ' as int,
                                ('0' as int, '9' as int), 58, (' ' as int, '!' as int, ' ' as int),
                                3, 4, '0' as int, 4)

  lemma ExampleLeaderBytes()
    ensures Ascii("3LE1 0900058 ! 3404") ==
            [0x33, 0x4C, 0x45, 0x31, 0x20, 0x30, 0x39, 0x30, 0x30, 0x30,
             0x35, 0x38, 0x20, 0x21, 0x20, 0x33, 0x34, 0x30, 0x34]
  {
  }

  lemma ExampleBaseAddress(ba: seq<Byte>)
    requires ba == [0x30, 0x30, 0x30, 0x35, 0x38]
    ensures IsUsizeLiteral(ba) && UsizeValue(ba) == 58
  {
    DigitsAreLiteral([0x30, 0x30, 0x30, 0x35, 0x38]);
  }

  /** The fixture's leader bytes decode to the fixture leader. */
  lemma ExampleLeader(b: seq<Byte>)
    requires b == Ascii("3LE1 0900058 ! 3404")
    ensures ParseLeader(b, 241) == Ok(FixtureLeader)
  {
    ExampleLeaderBytes();
    ExampleBaseAddress(b[7..12]);
    assert NumericFieldsValid(b);
  }
}
