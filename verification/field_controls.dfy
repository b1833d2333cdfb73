/** The field controls at the head of a data descriptive field: a data
    structure code, a data type code, two auxiliary and two printable bytes,
    and a truncated escape sequence. Each code comes from a small closed table. */
module FieldControlDecoder {
  import opened Bytes
  import opened Errors
  import opened Scalars

  datatype DataStructureCode =
    | SDI   // single data item
    | LS    // linear structure
    | MDS   // multi-dimensional structure

  datatype DataTypeCode =
    | CS    // character string
    | IP    // implicit point
    | EP    // explicit point (real)
    | BF    // binary form
    | MDT   // mixed data types

  /** Truncated escape sequence: the lexical level. */
  datatype TruncEscSeq = LE0 | LE1 | LE2

  datatype FieldControls = FieldControls(
    dsc: DataStructureCode,
    dtc: DataTypeCode,
    aux: seq<Byte>,             // auxiliary controls
    prt: seq<Byte>,             // printable graphics
    tes: TruncEscSeq)

  // ---------------------------------------------------------------------------
  // The three code tables, each with the text it is written as

  function DataStructureCodeText(c: DataStructureCode): seq<Byte> {
    match c
    case SDI => [0x30]          // "0"
    case LS => [0x31]           // "1"
    case MDS => [0x32]          // "2"
  }

  /** catalog.rs `DataStructureCode::from_str`: "0", "1" or "2"; anything else
      is BadDataStructureCode carrying the text. */
  function DataStructureCodeFromStr(value: seq<Byte>): (r: Result<DataStructureCode>)
    ensures r.Ok? ==> DataStructureCodeText(r.value) == value
    ensures r.Err? ==> r.error == Leaf(BadDataStructureCode(value))
  {
    if value == [0x30] then Ok(SDI)
    else if value == [0x31] then Ok(LS)
    else if value == [0x32] then Ok(MDS)
    else Err(Leaf(BadDataStructureCode(value)))
  }

  /** Every data structure code is read back from its text. */
  lemma DataStructureCodeRoundTrip(c: DataStructureCode)
    ensures DataStructureCodeFromStr(DataStructureCodeText(c)) == Ok(c)
  {
  }

  function DataTypeCodeText(c: DataTypeCode): seq<Byte> {
    match c
    case CS => [0x30]           // "0"
    case IP => [0x31]           // "1"
    case EP => [0x32]           // "2"
    case BF => [0x35]           // "5"
    case MDT => [0x36]          // "6"
  }

  /** catalog.rs `DataTypeCode::from_str`: "0", "1", "2", "5" or "6"; anything
      else is BadDataTypeCode carrying the text. */
  function DataTypeCodeFromStr(value: seq<Byte>): (r: Result<DataTypeCode>)
    ensures r.Ok? ==> DataTypeCodeText(r.value) == value
    ensures r.Err? ==> r.error == Leaf(BadDataTypeCode(value))
  {
    if value == [0x30] then Ok(CS)
    else if value == [0x31] then Ok(IP)
    else if value == [0x32] then Ok(EP)
    else if value == [0x35] then Ok(BF)
    else if value == [0x36] then Ok(MDT)
    else Err(Leaf(BadDataTypeCode(value)))
  }

  lemma DataTypeCodeRoundTrip(c: DataTypeCode)
    ensures DataTypeCodeFromStr(DataTypeCodeText(c)) == Ok(c)
  {
  }

  function TruncEscSeqText(c: TruncEscSeq): seq<Byte> {
    match c
    case LE0 => [0x20, 0x20, 0x20]    // "   "
    case LE1 => [0x2D, 0x41, 0x20]    // "-A "
    case LE2 => [0x25, 0x2F, 0x41]    // "%/A"
  }

  /** catalog.rs `TruncEscSeq::from_str`: "   ", "-A " or "%/A"; anything else
      is BadTruncEscSeq carrying the text. */
  function TruncEscSeqFromStr(value: seq<Byte>): (r: Result<TruncEscSeq>)
    ensures r.Ok? ==> TruncEscSeqText(r.value) == value
    ensures r.Err? ==> r.error == Leaf(BadTruncEscSeq(value))
  {
    if value == [0x20, 0x20, 0x20] then Ok(LE0)
    else if value == [0x2D, 0x41, 0x20] then Ok(LE1)
    else if value == [0x25, 0x2F, 0x41] then Ok(LE2)
    else Err(Leaf(BadTruncEscSeq(value)))
  }

  lemma TruncEscSeqRoundTrip(c: TruncEscSeq)
    ensures TruncEscSeqFromStr(TruncEscSeqText(c)) == Ok(c)
  {
  }

  /** The code texts are ASCII, hence text. */
  lemma CodeTextsAreUtf8(dsc: DataStructureCode, dtc: DataTypeCode, tes: TruncEscSeq)
    ensures ValidUtf8(DataStructureCodeText(dsc))
    ensures ValidUtf8(DataTypeCodeText(dtc))
    ensures ValidUtf8(TruncEscSeqText(tes))
  {
    AsciiIsUtf8(DataStructureCodeText(dsc));
    AsciiIsUtf8(DataTypeCodeText(dtc));
    AsciiIsUtf8(TruncEscSeqText(tes));
  }

  // ---------------------------------------------------------------------------
  // The field controls

  /** One code field: the bytes as text, then the table lookup, whose failure
      gets BadFieldControl wrapped around it. */
  function StructureCodeField(b: seq<Byte>): Result<DataStructureCode> {
    var s :- ParseToString(b);
    WithContext(DataStructureCodeFromStr(s), BadFieldControl)
  }

  function TypeCodeField(b: seq<Byte>): Result<DataTypeCode> {
    var s :- ParseToString(b);
    WithContext(DataTypeCodeFromStr(s), BadFieldControl)
  }

  function EscapeField(b: seq<Byte>): Result<TruncEscSeq> {
    var s :- ParseToString(b);
    WithContext(TruncEscSeqFromStr(s), BadFieldControl)
  }

  /** The inputs `parse_field_controls` returns on rather than slicing out of
      range: each field is read only after the ones before it decoded, so a
      short input is fine as long as an earlier field has already failed. */
  predicate FieldControlsDefined(byte: seq<Byte>) {
    |byte| >= 1 &&
    (StructureCodeField(byte[0..1]).Err? ||
     (|byte| >= 2 &&
      (TypeCodeField(byte[1..2]).Err? ||
       (|byte| >= 4 && (ParseToString(byte[2..4]).Err? || |byte| >= 6)))))
  }

  /** The field controls of `fc` as bytes: the inverse of ParseFieldControls. */
  function EncodeFieldControls(fc: FieldControls): seq<Byte> {
    DataStructureCodeText(fc.dsc) + DataTypeCodeText(fc.dtc) + fc.aux + fc.prt + TruncEscSeqText(fc.tes)
  }

  /** Field controls that can be written: two bytes of text each for the
      auxiliary and printable controls. */
  predicate EncodableFieldControls(fc: FieldControls) {
    |fc.aux| == 2 && |fc.prt| == 2 && ValidUtf8(fc.aux) && ValidUtf8(fc.prt)
  }

  /** catalog.rs `parse_field_controls`: the data structure code from byte 0,
      the data type code from byte 1, the auxiliary controls from bytes 2-3,
      the printable graphics from bytes 4-5 and the escape sequence from the
      rest. A success is exactly the encoding of what it returns; a failure
      is a UTF-8 error, or BadFieldControl around a code-table error that
      carries the offending text. */
  function ParseFieldControls(byte: seq<Byte>): (r: Result<FieldControls>)
    requires FieldControlsDefined(byte)
    ensures r.Ok? ==> EncodableFieldControls(r.value) && EncodeFieldControls(r.value) == byte
    ensures r.Err? ==>
              || r.error == Leaf(UtfError)
              || r.error == Context(BadFieldControl, Leaf(BadDataStructureCode(byte[0..1])))
              || (|byte| >= 2 && r.error == Context(BadFieldControl, Leaf(BadDataTypeCode(byte[1..2]))))
              || (|byte| >= 6 && r.error == Context(BadFieldControl, Leaf(BadTruncEscSeq(byte[6..]))))
  {
    var dsc :- StructureCodeField(byte[0..1]);
    var dtc :- TypeCodeField(byte[1..2]);
    var aux :- ParseToString(byte[2..4]);
    var prt :- ParseToString(byte[4..6]);
    var tes :- EscapeField(byte[6..]);
    assert byte == byte[0..1] + byte[1..2] + byte[2..4] + byte[4..6] + byte[6..];
    Ok(FieldControls(dsc, dtc, aux, prt, tes))
  }

  /** Every encodable set of field controls is read back from its encoding. */
  lemma FieldControlsRoundTrip(fc: FieldControls)
    requires EncodableFieldControls(fc)
    ensures FieldControlsDefined(EncodeFieldControls(fc))
    ensures ParseFieldControls(EncodeFieldControls(fc)) == Ok(fc)
  {
    var b := EncodeFieldControls(fc);
    CodeTextsAreUtf8(fc.dsc, fc.dtc, fc.tes);
    DataStructureCodeRoundTrip(fc.dsc);
    DataTypeCodeRoundTrip(fc.dtc);
    TruncEscSeqRoundTrip(fc.tes);
    ControlSlices(DataStructureCodeText(fc.dsc), DataTypeCodeText(fc.dtc), fc.aux, fc.prt, TruncEscSeqText(fc.tes));
  }

  /** The five fields of an encoding sit at the offsets the decoder reads. */
  lemma ControlSlices(dsc: seq<Byte>, dtc: seq<Byte>, aux: seq<Byte>, prt: seq<Byte>, tes: seq<Byte>)
    requires |dsc| == 1 && |dtc| == 1 && |aux| == 2 && |prt| == 2
    ensures var b := dsc + dtc + aux + prt + tes;
            b[0..1] == dsc && b[1..2] == dtc && b[2..4] == aux && b[4..6] == prt && b[6..] == tes
  {
  }

  /** The bytes of the catalog test fixture's field controls. */
  lemma ExampleFieldControlBytes()
    ensures Ascii("1600;&-A ") == [0x31, 0x36, 0x30, 0x30, 0x3B, 0x26, 0x2D, 0x41, 0x20]
    ensures Ascii("00") == [0x30, 0x30] && Ascii(";&") == [0x3B, 0x26]
  {
  }

  /** The fixture's field controls are encodable, and encode to its bytes. */
  lemma ExampleEncoding(fc: FieldControls)
    requires fc == FieldControls(LS, MDT, [0x30, 0x30], [0x3B, 0x26], LE1)
    ensures EncodableFieldControls(fc)
    ensures EncodeFieldControls(fc) == [0x31, 0x36, 0x30, 0x30, 0x3B, 0x26, 0x2D, 0x41, 0x20]
  {
    AsciiIsUtf8(fc.aux);
    AsciiIsUtf8(fc.prt);
  }

  /** The field controls of the catalog test fixture. */
  lemma ExampleFieldControls(b: seq<Byte>)
    requires b == Ascii("1600;&-A ")
    ensures FieldControlsDefined(b)
    ensures ParseFieldControls(b) == Ok(FieldControls(LS, MDT, Ascii("00"), Ascii(";&"), LE1))
  {
    ExampleFieldControlBytes();
    var fc := FieldControls(LS, MDT, Ascii("00"), Ascii(";&"), LE1);
    ExampleEncoding(fc);
    FieldControlsRoundTrip(fc);
  }
}
