/** The data descriptive record (DDR) as a whole: its leader, its directory,
    and the data descriptive fields the directory points into, each made of
    field controls, a name, an array descriptor and format controls. */
module RecordDecoder {
  import opened Bytes
  import opened Errors
  import opened Scalars
  import opened LeaderDecoder
  import opened DirectoryDecoder
  import opened FieldControlDecoder
  import opened DataParser
  import opened DescriptorDecoder

  /** A data descriptive field: its controls, its name, and each subfield
      name paired with the descriptor that says how to read it. */
  datatype DdfEntry = DdfEntry(fic: FieldControls, name: seq<Byte>, foc: seq<(seq<Byte>, ParseData)>)

  datatype Ddr = Ddr(leader: Leader, dirs: seq<DirectoryEntry>, fields: seq<DdfEntry>)

  /** The first part of a field ends its field controls at byte 9. */
  const ControlsLength: nat := 9

  // ---------------------------------------------------------------------------
  // One data descriptive field

  /** Pairs of equal-length lists, position by position. */
  function Zip(a: seq<seq<Byte>>, b: seq<ParseData>): (r: seq<(seq<Byte>, ParseData)>)
    requires |a| == |b|
    ensures |r| == |a|
    ensures forall i :: 0 <= i < |r| ==> r[i] == (a[i], b[i])
  {
    if a == [] then [] else [(a[0], b[0])] + Zip(a[1..], b[1..])
  }

  function Names(foc: seq<(seq<Byte>, ParseData)>): seq<seq<Byte>> {
    if foc == [] then [] else [foc[0].0] + Names(foc[1..])
  }

  function Descriptors(foc: seq<(seq<Byte>, ParseData)>): seq<ParseData> {
    if foc == [] then [] else [foc[0].1] + Descriptors(foc[1..])
  }

  /** Zipping loses nothing: the names and the descriptors come back out. */
  lemma {:induction false} ZipUnzip(a: seq<seq<Byte>>, b: seq<ParseData>)
    requires |a| == |b|
    ensures Names(Zip(a, b)) == a && Descriptors(Zip(a, b)) == b
    decreases |a|
  {
    if a != [] {
      ZipUnzip(a[1..], b[1..]);
    }
  }

  /** Nine bytes always reach the last field control. */
  lemma ControlsDefined(b: seq<Byte>)
    requires |b| == ControlsLength
    ensures FieldControlsDefined(b)
  {
  }

  /** The inputs ParseDdf returns on rather than panicking: the first part
      holds the nine control bytes, and the format controls, when reached,
      are ones ParseFormatControls returns on. */
  predicate DdfDefined(byte: seq<Byte>) {
    var parts := Split(byte, UnitSeparator);
    && |parts[0]| >= ControlsLength
    && (|parts[0][..ControlsLength]| == ControlsLength && FieldControlsDefined(parts[0][..ControlsLength]))
    && (|| ParseToString(parts[0][ControlsLength..]).Err?
        || ParseFieldControls(parts[0][..ControlsLength]).Err?
        || |parts| < 3
        || ParseArrayDescriptors(parts[1]).Err?
        || FormatControlsDefined(parts[2]))
  }

  /** catalog.rs `parse_ddf`: the field is split on the unit separator; the
      first part is nine bytes of field controls followed by the name, the
      second the array descriptor and the third the format controls. A name
      that is not text fails with CouldNotParseName; every later failure names
      the field in InvalidDDF: the controls, a missing part, a descriptor
      part that does not decode, or names and descriptors of unequal number. */
  function ParseDdf(byte: seq<Byte>): (r: Result<DdfEntry>)
    requires DdfDefined(byte)
    ensures r.Err? ==>
              || r.error == Context(CouldNotParseName, Leaf(UtfError))
              || r.error.kind == InvalidDDF(Split(byte, UnitSeparator)[0][ControlsLength..])
  {
    var parts := Split(byte, UnitSeparator);
    var name :- WithContext(ParseToString(parts[0][ControlsLength..]), CouldNotParseName);
    var fic :- WithContext(ParseFieldControls(parts[0][..ControlsLength]), InvalidDDF(name));
    if |parts| < 2 then Err(Leaf(InvalidDDF(name)))
    else
      var names :- WithContext(ParseArrayDescriptors(parts[1]), InvalidDDF(name));
      if |parts| < 3 then Err(Leaf(InvalidDDF(name)))
      else
        var descriptors :- WithContext(ParseFormatControls(parts[2]), InvalidDDF(name));
        if |names| == |descriptors| then Ok(DdfEntry(fic, name, Zip(names, descriptors)))
        else Err(Leaf(InvalidDDF(name)))
  }

  /** Everything that must hold of the parts for a field to decode. */
  predicate PartsDecode(byte: seq<Byte>)
    requires DdfDefined(byte)
  {
    var parts := Split(byte, UnitSeparator);
    && ValidUtf8(parts[0][ControlsLength..])
    && ParseFieldControls(parts[0][..ControlsLength]).Ok?
    && |parts| >= 3
    && ParseArrayDescriptors(parts[1]).Ok?
    && ParseFormatControls(parts[2]).Ok?
  }

  /** A field decodes exactly when its parts all decode and there are as many
      names as descriptors; then the name and the controls are those of the
      first part, and the i-th name is paired with the i-th descriptor, so
      nothing is truncated or padded. When the parts decode but the counts
      differ, the error is InvalidDDF naming the field. */
  lemma DdfSpec(byte: seq<Byte>)
    requires DdfDefined(byte)
    ensures var parts := Split(byte, UnitSeparator);
            ParseDdf(byte).Ok? <==>
              PartsDecode(byte) &&
              |ParseArrayDescriptors(parts[1]).value| == |ParseFormatControls(parts[2]).value|
    ensures var parts := Split(byte, UnitSeparator);
            ParseDdf(byte).Ok? ==>
              && ParseDdf(byte).value.name == parts[0][ControlsLength..]
              && ParseDdf(byte).value.fic == ParseFieldControls(parts[0][..ControlsLength]).value
              && Names(ParseDdf(byte).value.foc) == ParseArrayDescriptors(parts[1]).value
              && Descriptors(ParseDdf(byte).value.foc) == ParseFormatControls(parts[2]).value
    ensures var parts := Split(byte, UnitSeparator);
            PartsDecode(byte) &&
            |ParseArrayDescriptors(parts[1]).value| != |ParseFormatControls(parts[2]).value| ==>
              ParseDdf(byte) == Err(Leaf(InvalidDDF(parts[0][ControlsLength..])))
  {
    var parts := Split(byte, UnitSeparator);
    if ParseDdf(byte).Ok? {
      ZipUnzip(ParseArrayDescriptors(parts[1]).value, ParseFormatControls(parts[2]).value);
    }
  }

  /** A field whose name is text and whose controls decode but that lacks its
      descriptor parts fails with InvalidDDF naming the field. */
  lemma MissingPartFails(byte: seq<Byte>)
    requires DdfDefined(byte)
    requires ValidUtf8(Split(byte, UnitSeparator)[0][ControlsLength..])
    requires ParseFieldControls(Split(byte, UnitSeparator)[0][..ControlsLength]).Ok?
    requires |Split(byte, UnitSeparator)| < 2
    ensures ParseDdf(byte) == Err(Leaf(InvalidDDF(Split(byte, UnitSeparator)[0][ControlsLength..])))
  {
  }

  // ---------------------------------------------------------------------------
  // All the data descriptive fields

  /** The directory entry's field lies within the field area: at least one
      byte long, ending at or before the end. */
  predicate FieldInRange(area: seq<Byte>, d: DirectoryEntry) {
    d.length >= 1 && d.offset + d.length - 1 <= |area|
  }

  /** The field an entry points at, without its closing field terminator. */
  function FieldBytes(area: seq<Byte>, d: DirectoryEntry): seq<Byte>
    requires FieldInRange(area, d)
  {
    area[d.offset..d.offset + d.length - 1]
  }

  /** A field that decodes, read from where its entry points. */
  predicate FieldDecodes(area: seq<Byte>, d: DirectoryEntry) {
    FieldInRange(area, d) && DdfDefined(FieldBytes(area, d)) && ParseDdf(FieldBytes(area, d)).Ok?
  }

  /** An entry whose field can be cut out of the area and is one ParseDdf
      returns on. */
  predicate FieldReadable(area: seq<Byte>, d: DirectoryEntry) {
    FieldInRange(area, d) && DdfDefined(FieldBytes(area, d))
  }

  /** The entries ParseFields reaches all point at readable fields: it stops
      at the first field that fails, so an entry must be readable only when
      the fields of all the entries before it decode. */
  predicate FieldsDefined(area: seq<Byte>, entries: seq<DirectoryEntry>) {
    forall i :: 0 <= i < |entries| ==>
      (forall j :: 0 <= j < i ==> FieldDecodes(area, entries[j])) ==> FieldReadable(area, entries[i])
  }

  /** Past a field that decodes, the remaining entries are still defined. */
  lemma FieldsDefinedTail(area: seq<Byte>, entries: seq<DirectoryEntry>)
    requires entries != [] && FieldsDefined(area, entries) && FieldDecodes(area, entries[0])
    ensures FieldsDefined(area, entries[1..])
  {
    var tail := entries[1..];
    forall i | 0 <= i < |tail| && (forall j :: 0 <= j < i ==> FieldDecodes(area, tail[j]))
      ensures FieldReadable(area, tail[i])
    {
      forall j | 0 <= j < i + 1
        ensures FieldDecodes(area, entries[j])
      {
        if j > 0 {
          assert entries[j] == tail[j - 1];
        }
      }
      assert entries[i + 1] == tail[i];
    }
  }

  /** Collecting the decoded fields into a `Result`: the first failure, with
      InvalidDDFS around it, is the error. */
  function ParseFields(area: seq<Byte>, entries: seq<DirectoryEntry>): Result<seq<DdfEntry>>
    requires FieldsDefined(area, entries)
    decreases |entries|
  {
    if entries == [] then Ok([])
    else
      assert FieldReadable(area, entries[0]);
      var ddf :- WithContext(ParseDdf(FieldBytes(area, entries[0])), InvalidDDFS);
      FieldsDefinedTail(area, entries);
      var rest :- ParseFields(area, entries[1..]);
      Ok([ddf] + rest)
  }

  /** The index of the first entry whose field does not decode, or the number
      of entries when all do. */
  function FirstBadField(area: seq<Byte>, entries: seq<DirectoryEntry>): (k: nat)
    ensures k <= |entries|
    ensures forall i :: 0 <= i < k ==> FieldDecodes(area, entries[i])
    ensures k < |entries| ==> !FieldDecodes(area, entries[k])
    decreases |entries|
  {
    if entries == [] || !FieldDecodes(area, entries[0]) then 0
    else
      var k := FirstBadField(area, entries[1..]);
      assert forall i :: 0 < i <= k ==> entries[i] == entries[1..][i - 1];
      1 + k
  }

  /** ParseFields succeeds exactly when every entry's field decodes, and then
      gives one field per entry, in order, each decoded from the bytes its
      entry points at; otherwise it fails with InvalidDDFS around the error of
      the first field that does not decode. */
  lemma {:induction false} ParseFieldsSpec(area: seq<Byte>, entries: seq<DirectoryEntry>)
    requires FieldsDefined(area, entries)
    ensures ParseFields(area, entries).Ok? <==> FirstBadField(area, entries) == |entries|
    ensures ParseFields(area, entries).Ok? ==>
              && |ParseFields(area, entries).value| == |entries|
              && forall i :: 0 <= i < |entries| ==>
                   FieldDecodes(area, entries[i]) &&
                   ParseFields(area, entries).value[i] == ParseDdf(FieldBytes(area, entries[i])).value
    ensures ParseFields(area, entries).Err? ==>
              var k := FirstBadField(area, entries);
              k < |entries| && FieldInRange(area, entries[k]) && DdfDefined(FieldBytes(area, entries[k])) &&
              ParseFields(area, entries).error == Context(InvalidDDFS, ParseDdf(FieldBytes(area, entries[k])).error)
    decreases |entries|
  {
    if entries != [] && FieldDecodes(area, entries[0]) {
      var tail := entries[1..];
      ParseFieldsSpec(area, tail);
      var ddf := ParseDdf(FieldBytes(area, entries[0])).value;
      var rest := ParseFields(area, tail);
      if rest.Ok? {
        var v := [ddf] + rest.value;
        assert ParseFields(area, entries) == Ok(v);
        forall i | 0 <= i < |entries|
          ensures FieldDecodes(area, entries[i]) && v[i] == ParseDdf(FieldBytes(area, entries[i])).value
        {
          if i > 0 {
            assert entries[i] == tail[i - 1] && v[i] == rest.value[i - 1];
          }
        }
      } else {
        assert ParseFields(area, entries) == rest;
        assert FirstBadField(area, entries) == 1 + FirstBadField(area, tail);
      }
    }
  }

  /** The entries after the first, which describes the file control field. */
  function DescribedEntries(dirs: seq<DirectoryEntry>): (r: seq<DirectoryEntry>)
    ensures |r| == if dirs == [] then 0 else |dirs| - 1
    ensures forall i :: 0 <= i < |r| ==> r[i] == dirs[i + 1]
  {
    if dirs == [] then [] else dirs[1..]
  }

  /** catalog.rs `parse_ddfs`: the field of every directory entry but the
      first, decoded from the bytes its entry points at; on success there is
      one field per such entry. */
  function ParseDdfs(area: seq<Byte>, dirs: seq<DirectoryEntry>): (r: Result<seq<DdfEntry>>)
    requires FieldsDefined(area, DescribedEntries(dirs))
    ensures r.Ok? ==> |r.value| == |DescribedEntries(dirs)|
    ensures r.Err? ==> r.error.Context? && r.error.kind == InvalidDDFS
  {
    ParseFieldsSpec(area, DescribedEntries(dirs));
    ParseFields(area, DescribedEntries(dirs))
  }

  // ---------------------------------------------------------------------------
  // The record

  /** What decoding the directory and the field area needs: a non-zero
      directory entry width, and, once the directory is decoded, fields that
      can be cut out of the area. */
  predicate PartsDefined(dirBytes: seq<Byte>, area: seq<Byte>, leader: Leader) {
    && ChunkSize(leader) > 0
    && (DecodeDirectory(dirBytes, leader).Ok? ==>
          FieldsDefined(area, DescribedEntries(DecodeDirectory(dirBytes, leader).value)))
  }

  /** The directory, then the fields it points at; a failure of either gets
      InvalidDDR around it. */
  function ParseParts(dirBytes: seq<Byte>, area: seq<Byte>, leader: Leader): (r: Result<Ddr>)
    requires PartsDefined(dirBytes, area, leader)
    ensures r.Err? ==> r.error.Context? && r.error.kind == InvalidDDR
    ensures r.Ok? ==> r.value.leader == leader && |r.value.fields| == |DescribedEntries(r.value.dirs)|
  {
    var dirs :- WithContext(DecodeDirectory(dirBytes, leader), InvalidDDR);
    var fields :- WithContext(ParseDdfs(area, dirs), InvalidDDR);
    Ok(Ddr(leader, dirs, fields))
  }

  /** What ParseDdr needs once the leader is read: a record separator (if
      any) no earlier than the end of the leader, and what PartsDefined asks
      of the directory before it and the field area after it. */
  predicate BodyDefined(b: seq<Byte>, leader: Leader) {
    var idx := Position(b, RecordSeparator);
    idx != -1 ==> 19 <= idx && PartsDefined(b[19..idx], b[idx + 1..], leader)
  }

  /** The inputs ParseDdr returns on rather than panicking: at least the 19
      leader bytes, and what BodyDefined asks once the leader is read. */
  predicate DdrDefined(b: seq<Byte>, len: nat) {
    |b| >= 19 && (ParseLeader(b[..19], len).Ok? ==> BodyDefined(b, ParseLeader(b[..19], len).value))
  }

  /** The record separator is searched for from the start of the record, the
      leader included, so a leader that holds one makes `parse_ddr` slice
      backwards and panic: such a record is outside DdrDefined even when its
      leader reads. */
  lemma SeparatorInLeader(b: seq<Byte>, len: nat, j: nat)
    requires |b| >= 19 && j < 19 && b[j] == RecordSeparator
    requires ParseLeader(b[..19], len).Ok?
    ensures !DdrDefined(b, len)
  {
  }

  /** The directory and the fields of a record whose leader is read: the
      directory from byte 19 to the first record separator, the fields from
      the field area after it. */
  function ParseBody(b: seq<Byte>, leader: Leader): (r: Result<Ddr>)
    requires BodyDefined(b, leader)
    ensures r.Err? ==> r.error == Leaf(BadDirectoryData) || (r.error.Context? && r.error.kind == InvalidDDR)
    ensures r.Ok? ==> r.value.leader == leader && |r.value.fields| == |DescribedEntries(r.value.dirs)|
  {
    var idx := Position(b, RecordSeparator);
    if idx == -1 then Err(Leaf(BadDirectoryData))
    else
      assert 19 <= idx < |b| && PartsDefined(b[19..idx], b[idx + 1..], leader);
      ParseParts(b[19..idx], b[idx + 1..], leader)
  }

  /** catalog.rs `parse_ddr`: the leader from the first 19 bytes, the
      directory from there to the first record separator, and the fields from
      the field area after it. A record without a separator fails with
      BadDirectoryData; a failing leader, directory or field fails with
      InvalidDDR around its error. */
  function ParseDdr(b: seq<Byte>, len: nat): (r: Result<Ddr>)
    requires DdrDefined(b, len)
    ensures r.Err? ==> r.error == Leaf(BadDirectoryData) || (r.error.Context? && r.error.kind == InvalidDDR)
    ensures r.Ok? ==> |r.value.fields| == |DescribedEntries(r.value.dirs)|
  {
    var leader :- WithContext(ParseLeader(b[..19], len), InvalidDDR);
    ParseBody(b, leader)
  }

  /** Decoded parts are the directory, a whole number of entries long, and
      the fields decoded from the area with it. */
  lemma PartsSpec(dirBytes: seq<Byte>, area: seq<Byte>, leader: Leader) returns (dirs: seq<DirectoryEntry>)
    requires PartsDefined(dirBytes, area, leader) && ParseParts(dirBytes, area, leader).Ok?
    ensures ChunkSize(leader) > 0 && DecodeDirectory(dirBytes, leader) == Ok(dirs)
    ensures |dirBytes| % ChunkSize(leader) == 0 && |dirs| == |dirBytes| / ChunkSize(leader)
    ensures FieldsDefined(area, DescribedEntries(dirs)) && ParseDdfs(area, dirs).Ok?
    ensures ParseParts(dirBytes, area, leader) == Ok(Ddr(leader, dirs, ParseDdfs(area, dirs).value))
  {
    var d := DecodeDirectory(dirBytes, leader);
    assert d.Ok?;
    dirs := d.value;
    DirectoryLength(dirBytes, leader);
  }

  /** A record body that decodes is made of its parts: a record separator at
      `idx`, the first one, with the directory decoded from bytes 19 up to it,
      whose length is a whole number of entries, and the fields decoded from
      the field area after the separator. */
  lemma BodySpec(b: seq<Byte>, leader: Leader) returns (idx: nat, dirs: seq<DirectoryEntry>)
    requires BodyDefined(b, leader) && ParseBody(b, leader).Ok?
    ensures 19 <= idx < |b| && b[idx] == RecordSeparator && RecordSeparator !in b[..idx]
    ensures ChunkSize(leader) > 0 && DecodeDirectory(b[19..idx], leader) == Ok(dirs)
    ensures (idx - 19) % ChunkSize(leader) == 0 && |dirs| == (idx - 19) / ChunkSize(leader)
    ensures FieldsDefined(b[idx + 1..], DescribedEntries(dirs)) && ParseDdfs(b[idx + 1..], dirs).Ok?
    ensures ParseBody(b, leader) == Ok(Ddr(leader, dirs, ParseDdfs(b[idx + 1..], dirs).value))
  {
    var i := Position(b, RecordSeparator);
    assert i != -1;
    idx := i;
    var dirBytes, area := b[19..idx], b[idx + 1..];
    assert |dirBytes| == idx - 19;
    assert ParseBody(b, leader) == ParseParts(dirBytes, area, leader);
    dirs := PartsSpec(dirBytes, area, leader);
  }

  /** A decoded record is made of its parts: the leader of the first 19
      bytes; a record separator at `idx`, the first one, with the directory
      decoded from bytes 19 up to it, whose length is a whole number of
      entries; and the fields decoded from the field area after the
      separator. */
  lemma DdrSpec(b: seq<Byte>, len: nat) returns (leader: Leader, idx: nat, dirs: seq<DirectoryEntry>)
    requires DdrDefined(b, len) && ParseDdr(b, len).Ok?
    ensures ParseLeader(b[..19], len) == Ok(leader)
    ensures 19 <= idx < |b| && b[idx] == RecordSeparator && RecordSeparator !in b[..idx]
    ensures ChunkSize(leader) > 0 && DecodeDirectory(b[19..idx], leader) == Ok(dirs)
    ensures (idx - 19) % ChunkSize(leader) == 0 && |dirs| == (idx - 19) / ChunkSize(leader)
    ensures FieldsDefined(b[idx + 1..], DescribedEntries(dirs)) && ParseDdfs(b[idx + 1..], dirs).Ok?
    ensures ParseDdr(b, len) == Ok(Ddr(leader, dirs, ParseDdfs(b[idx + 1..], dirs).value))
  {
    var r := ParseLeader(b[..19], len);
    assert r.Ok?;
    leader := r.value;
    assert ParseDdr(b, len) == ParseBody(b, leader);
    idx, dirs := BodySpec(b, leader);
  }

  /** A record with a readable leader but no record separator anywhere fails
      with BadDirectoryData. */
  lemma NoSeparatorFails(b: seq<Byte>, len: nat)
    requires |b| >= 19 && ParseLeader(b[..19], len).Ok? && RecordSeparator !in b
    ensures DdrDefined(b, len)
    ensures ParseDdr(b, len) == Err(Leaf(BadDirectoryData))
  {
  }

  // ---------------------------------------------------------------------------
  // Opening a catalog

  /** An opened catalog: its DDR and the stream positioned after it, from
      which the data records are read. */
  datatype Catalog = Catalog(ddr: Ddr, rest: seq<Byte>)

  /** The record length is the first five bytes of the record. */
  const LengthDigits: nat := 5

  /** The streams `Catalog::new` returns on rather than panicking: a record
      length, once read and parsed, of at least its own five bytes, and a
      record that ParseDdr returns on, once read. */
  predicate CatalogDefined(stream: seq<Byte>) {
    || |stream| < LengthDigits
    || ParseToUsize(stream[..LengthDigits]).Err?
    || (var len := ParseToUsize(stream[..LengthDigits]).value;
        && len >= LengthDigits
        && (|stream| < len || DdrDefined(stream[LengthDigits..len], len)))
  }

  /** catalog.rs `Catalog::new`, with the reader as the byte stream it
      yields: read the five-byte record length, parse it, read the rest of
      the record and decode it as a DDR. A stream too short for either read
      fails with IOError(UnexpectedEof); a length that is not a number fails
      with the error of ParseToUsize itself; a record that does not decode
      fails with CouldNotParseCatalog around its error. On success the stream
      is left just after the record. */
  function CatalogNew(stream: seq<Byte>): (r: Result<Catalog>)
    requires CatalogDefined(stream)
    ensures |stream| < LengthDigits ==> r == Err(Leaf(IOError(UnexpectedEof)))
    ensures r.Ok? ==>
              && IsUsizeLiteral(stream[..LengthDigits])
              && var len := UsizeValue(stream[..LengthDigits]);
              && LengthDigits <= len <= |stream|
              && r.value.rest == stream[len..]
              && DdrDefined(stream[LengthDigits..len], len)
              && ParseDdr(stream[LengthDigits..len], len) == Ok(r.value.ddr)
    ensures r.Err? ==>
              || r.error == Leaf(IOError(UnexpectedEof))
              || r.error == Leaf(UtfError)
              || r.error.kind.ParseIntError?
              || (r.error.Context? && r.error.kind == CouldNotParseCatalog)
  {
    if |stream| < LengthDigits then Err(Leaf(IOError(UnexpectedEof)))
    else
      var len :- ParseToUsize(stream[..LengthDigits]);
      if |stream| < len then Err(Leaf(IOError(UnexpectedEof)))
      else
        var ddr :- WithContext(ParseDdr(stream[LengthDigits..len], len), CouldNotParseCatalog);
        Ok(Catalog(ddr, stream[len..]))
  }

  /** A stream that starts with a record, its length written in five digits
      in front of it, yields the record's DDR, or fails with
      CouldNotParseCatalog around the record's error, and is left at the
      bytes after the record. */
  lemma CatalogOfRecord(len: nat, record: seq<Byte>, rest: seq<Byte>)
    requires |record| + LengthDigits == len && len < Pow10(LengthDigits)
    requires DdrDefined(record, len)
    ensures var stream := PaddedDecimal(len, LengthDigits) + record + rest;
            && CatalogDefined(stream)
            && (ParseDdr(record, len).Ok? ==>
                  CatalogNew(stream) == Ok(Catalog(ParseDdr(record, len).value, rest)))
            && (ParseDdr(record, len).Err? ==>
                  CatalogNew(stream) == Err(Context(CouldNotParseCatalog, ParseDdr(record, len).error)))
  {
    var header := PaddedDecimal(len, LengthDigits);
    var stream := header + record + rest;
    assert Pow10(LengthDigits) == 100000;
    PaddedDecimalParses(len, LengthDigits);
    assert stream[..LengthDigits] == header;
    assert stream[LengthDigits..len] == record;
    assert stream[len..] == rest;
  }

  /** A stream whose first five bytes are not a record length fails with the
      error ParseToUsize reports for them, with no context around it. */
  lemma BadLengthFails(stream: seq<Byte>)
    requires |stream| >= LengthDigits && !IsUsizeLiteral(stream[..LengthDigits])
    ensures CatalogDefined(stream)
    ensures CatalogNew(stream) == Err(ParseToUsize(stream[..LengthDigits]).error)
  {
  }
}
