/** The directory of a record: after the leader, one fixed-width entry per
    field giving its tag, its length and its offset in the field area. The
    entry width is the sum of the three widths in the leader's entry map. */
module DirectoryDecoder {
  import opened Bytes
  import opened Errors
  import opened Scalars
  import opened LeaderDecoder

  datatype DirectoryEntry = DirectoryEntry(id: seq<Byte>, length: nat, offset: nat)

  /** The width of one directory entry: tag, length and position fields. */
  function ChunkSize(leader: Leader): nat {
    leader.ftf + leader.flf + leader.fpf
  }

  /** One directory entry: the tag is the first `ftf` bytes as text, the length
      the next `flf` bytes as a decimal, the offset the rest as a decimal. A
      failure is the text or number error itself, with no context added. */
  function ParseEntry(chunk: seq<Byte>, leader: Leader): Result<DirectoryEntry>
    requires |chunk| == ChunkSize(leader)
  {
    var id :- ParseToString(chunk[..leader.ftf]);
    var length :- ParseToUsize(chunk[leader.ftf..leader.ftf + leader.flf]);
    var offset :- ParseToUsize(chunk[leader.ftf + leader.flf..]);
    Ok(DirectoryEntry(id, length, offset))
  }

  /** An entry decodes exactly when its tag is text and its length and offset
      are usize literals; it then holds the tag bytes and the two values. */
  lemma ParseEntrySpec(chunk: seq<Byte>, leader: Leader)
    requires |chunk| == ChunkSize(leader)
    ensures ParseEntry(chunk, leader).Ok? <==>
              && ValidUtf8(chunk[..leader.ftf])
              && IsUsizeLiteral(chunk[leader.ftf..leader.ftf + leader.flf])
              && IsUsizeLiteral(chunk[leader.ftf + leader.flf..])
    ensures ParseEntry(chunk, leader).Ok? ==>
              ParseEntry(chunk, leader).value ==
              DirectoryEntry(chunk[..leader.ftf],
                             UsizeValue(chunk[leader.ftf..leader.ftf + leader.flf]),
                             UsizeValue(chunk[leader.ftf + leader.flf..]))
    ensures ParseEntry(chunk, leader).Err? ==>
              && ParseEntry(chunk, leader).error.Leaf?
              && (ParseEntry(chunk, leader).error.kind == UtfError ||
                  ParseEntry(chunk, leader).error.kind.ParseIntError?)
  {
    var id := ParseToString(chunk[..leader.ftf]);
    var length := ParseToUsize(chunk[leader.ftf..leader.ftf + leader.flf]);
    var offset := ParseToUsize(chunk[leader.ftf + leader.flf..]);
    if id.Err? {
      assert ParseEntry(chunk, leader) == Err(id.error);
    } else if length.Err? {
      assert ParseEntry(chunk, leader) == Err(length.error);
    } else if offset.Err? {
      assert ParseEntry(chunk, leader) == Err(offset.error);
    } else {
      assert ParseEntry(chunk, leader) == Ok(DirectoryEntry(id.value, length.value, offset.value));
    }
  }

  /** The bytes of a sequence of chunks, laid end to end. */
  function Flatten(cs: seq<seq<Byte>>): seq<Byte> {
    if cs == [] then [] else cs[0] + Flatten(cs[1..])
  }

  /** `byte.chunks(size)`: the span cut into consecutive non-empty pieces of
      `size` bytes, of which only the last may be shorter. */
  function Chunks(byte: seq<Byte>, size: nat): (cs: seq<seq<Byte>>)
    requires size > 0
    ensures Flatten(cs) == byte
    ensures forall i :: 0 <= i < |cs| ==> 0 < |cs[i]| <= size
    ensures forall i :: 0 <= i < |cs| - 1 ==> |cs[i]| == size
    decreases |byte|
  {
    if |byte| <= size then
      if byte == [] then [] else
        assert Flatten([byte]) == byte + Flatten([]);
        [byte]
    else
      var rest := Chunks(byte[size..], size);
      assert ([byte[..size]] + rest)[1..] == rest;
      assert byte[..size] + byte[size..] == byte;
      [byte[..size]] + rest
  }

  /** The loop of `parse_directory` over the chunks, written recursively: a
      chunk shorter than an entry is BadDirectoryData, and the first chunk
      that does not decode ends the directory with its error. */
  function DecodeChunks(cs: seq<seq<Byte>>, leader: Leader): Result<seq<DirectoryEntry>> {
    if cs == [] then Ok([])
    else if |cs[0]| != ChunkSize(leader) then Err(Leaf(BadDirectoryData))
    else
      match ParseEntry(cs[0], leader)
      case Err(e) => Err(e)
      case Ok(entry) => Prepend([entry], DecodeChunks(cs[1..], leader))
  }

  /** The directory decoded from a span. */
  function DecodeDirectory(byte: seq<Byte>, leader: Leader): Result<seq<DirectoryEntry>>
    requires ChunkSize(leader) > 0
  {
    DecodeChunks(Chunks(byte, ChunkSize(leader)), leader)
  }

  /** `done` in front of a directory decoded from the remaining chunks. */
  function Prepend(done: seq<DirectoryEntry>, rest: Result<seq<DirectoryEntry>>): Result<seq<DirectoryEntry>> {
    match rest
    case Ok(entries) => Ok(done + entries)
    case Err(e) => Err(e)
  }

  /** Decoding from chunk `i` on: chunk `i` first, then the rest. */
  lemma DecodeChunksStep(cs: seq<seq<Byte>>, i: nat, leader: Leader)
    requires i < |cs|
    ensures DecodeChunks(cs[i..], leader) ==
              if |cs[i]| != ChunkSize(leader) then Err(Leaf(BadDirectoryData))
              else match ParseEntry(cs[i], leader)
                   case Err(e) => Err(e)
                   case Ok(entry) => Prepend([entry], DecodeChunks(cs[i + 1..], leader))
  {
    assert cs[i..][0] == cs[i] && cs[i..][1..] == cs[i + 1..];
  }

  lemma PrependPrepend(a: seq<DirectoryEntry>, b: seq<DirectoryEntry>, r: Result<seq<DirectoryEntry>>)
    ensures Prepend(a, Prepend(b, r)) == Prepend(a + b, r)
  {
    if r.Ok? {
      assert a + (b + r.value) == (a + b) + r.value;
    }
  }

  /** catalog.rs `parse_directory`: walks the span in entry-sized chunks,
      refusing a short chunk and pushing each decoded entry in turn. */
  method ParseDirectory(byte: seq<Byte>, leader: Leader) returns (r: Result<seq<DirectoryEntry>>)
    requires ChunkSize(leader) > 0
    ensures r == DecodeDirectory(byte, leader)
  {
    var chunksize := ChunkSize(leader);
    var dirIter := Chunks(byte, chunksize);
    var directories: seq<DirectoryEntry> := [];
    assert dirIter[0..] == dirIter;
    assert Prepend([], DecodeChunks(dirIter, leader)) == DecodeChunks(dirIter, leader) by {
      if DecodeChunks(dirIter, leader).Ok? {
        assert [] + DecodeChunks(dirIter, leader).value == DecodeChunks(dirIter, leader).value;
      }
    }
    for i := 0 to |dirIter|
      invariant DecodeChunks(dirIter, leader) == Prepend(directories, DecodeChunks(dirIter[i..], leader))
    {
      var d := dirIter[i];
      DecodeChunksStep(dirIter, i, leader);
      if |d| != chunksize {
        return Err(Leaf(BadDirectoryData));
      }
      var id :- ParseToString(d[..leader.ftf]);
      var length :- ParseToUsize(d[leader.ftf..leader.ftf + leader.flf]);
      var offset :- ParseToUsize(d[leader.ftf + leader.flf..]);
      var entry := DirectoryEntry(id, length, offset);
      PrependPrepend(directories, [entry], DecodeChunks(dirIter[i + 1..], leader));
      directories := directories + [entry];
    }
    assert directories + [] == directories;
    return Ok(directories);
  }

  /** A chunk that is a whole entry and decodes. */
  predicate EntryDecodes(chunk: seq<Byte>, leader: Leader) {
    |chunk| == ChunkSize(leader) && ParseEntry(chunk, leader).Ok?
  }

  predicate AllDecode(cs: seq<seq<Byte>>, leader: Leader) {
    forall i :: 0 <= i < |cs| ==> EntryDecodes(cs[i], leader)
  }

  /** The error a chunk that does not decode stops the directory with. */
  function ChunkError(chunk: seq<Byte>, leader: Leader): Error
    requires !EntryDecodes(chunk, leader)
  {
    if |chunk| != ChunkSize(leader) then Leaf(BadDirectoryData) else ParseEntry(chunk, leader).error
  }

  /** A list of chunks decodes exactly when every chunk is a whole entry that
      decodes; the entries are then those of the chunks, one each, in order. */
  lemma {:induction false} DecodeChunksIff(cs: seq<seq<Byte>>, leader: Leader)
    ensures DecodeChunks(cs, leader).Ok? <==> AllDecode(cs, leader)
    ensures DecodeChunks(cs, leader).Ok? ==>
              && |DecodeChunks(cs, leader).value| == |cs|
              && forall i :: 0 <= i < |cs| ==>
                   Ok(DecodeChunks(cs, leader).value[i]) == ParseEntry(cs[i], leader)
  {
    if cs != [] {
      var tail := cs[1..];
      DecodeChunksIff(tail, leader);
      if !EntryDecodes(cs[0], leader) {
        assert DecodeChunks(cs, leader).Err?;
      } else if DecodeChunks(tail, leader).Err? {
        assert DecodeChunks(cs, leader).Err?;
        var j :| 0 <= j < |tail| && !EntryDecodes(tail[j], leader);
        assert cs[j + 1] == tail[j];
      } else {
        var rest := DecodeChunks(tail, leader).value;
        var v := [ParseEntry(cs[0], leader).value] + rest;
        assert DecodeChunks(cs, leader) == Ok(v);
        forall i | 0 <= i < |cs|
          ensures EntryDecodes(cs[i], leader) && Ok(v[i]) == ParseEntry(cs[i], leader)
        {
          if i > 0 {
            assert cs[i] == tail[i - 1] && v[i] == rest[i - 1];
          }
        }
      }
    }
  }

  /** The position of the first chunk that is not a whole entry that
      decodes, or the number of chunks when there is none. */
  function FirstBad(cs: seq<seq<Byte>>, leader: Leader): (k: nat)
    ensures k <= |cs|
    ensures forall j :: 0 <= j < k ==> EntryDecodes(cs[j], leader)
    ensures k < |cs| ==> !EntryDecodes(cs[k], leader)
  {
    if cs == [] || !EntryDecodes(cs[0], leader) then 0
    else
      var k := FirstBad(cs[1..], leader);
      assert forall j :: 0 < j <= k ==> cs[j] == cs[1..][j - 1];
      1 + k
  }

  /** A failing directory fails with the error of its first bad chunk:
      BadDirectoryData when that chunk is short, or the chunk's own decoding
      error otherwise. */
  lemma {:induction false} DecodeChunksFirstError(cs: seq<seq<Byte>>, leader: Leader)
    ensures DecodeChunks(cs, leader).Err? <==> FirstBad(cs, leader) < |cs|
    ensures DecodeChunks(cs, leader).Err? ==>
              DecodeChunks(cs, leader).error == ChunkError(cs[FirstBad(cs, leader)], leader)
  {
    if cs != [] && EntryDecodes(cs[0], leader) {
      DecodeChunksFirstError(cs[1..], leader);
    }
  }

  lemma MulAtLeast(k: int, size: int)
    requires k >= 1 && size > 0
    ensures k * size >= size
  {
    if k > 1 {
      MulAtLeast(k - 1, size);
      assert k * size == (k - 1) * size + size;
    }
  }

  /** Dropping one entry's worth of bytes removes one whole entry. */
  lemma DivStep(n: nat, m: nat, size: nat)
    requires 0 < size && n == m + size
    ensures n / size == m / size + 1
    ensures n % size == m % size
  {
    var a, b := n / size, n % size;
    var q, r := m / size, m % size;
    var k := a - q - 1;
    assert k * size == a * size - q * size - size;
    assert k * size == r - b;
    if k >= 1 {
      MulAtLeast(k, size);
    } else if k < 0 {
      MulAtLeast(-k, size);
    }
  }

  /** A count below one entry holds no whole entry. */
  lemma SmallDiv(n: nat, size: nat)
    requires n < size
    ensures n / size == 0 && n % size == n
  {
    var q, r := n / size, n % size;
    assert q * size == n - r;
    if q >= 1 {
      MulAtLeast(q, size);
    } else if q < 0 {
      MulAtLeast(-q, size);
    }
  }

  predicate AllFull(cs: seq<seq<Byte>>, size: nat) {
    forall i :: 0 <= i < |cs| ==> |cs[i]| == size
  }

  /** Past the first entry, the chunks are all full exactly when those of the
      rest of the span are. */
  lemma AllFullStep(byte: seq<Byte>, size: nat)
    requires 0 < size <= |byte|
    ensures AllFull(Chunks(byte, size), size) <==>
            (|byte| == size || AllFull(Chunks(byte[size..], size), size))
  {
    var cs := Chunks(byte, size);
    if |byte| == size {
      assert cs == [byte];
    } else {
      var rs := Chunks(byte[size..], size);
      assert cs == [byte[..size]] + rs;
      assert forall i :: 1 <= i < |cs| ==> cs[i] == rs[i - 1];
    }
  }

  /** Every chunk is a whole entry exactly when the span is a whole number of
      entries. */
  lemma {:induction false} ChunksAligned(byte: seq<Byte>, size: nat)
    requires size > 0
    ensures AllFull(Chunks(byte, size), size) <==> |byte| % size == 0
    decreases |byte|
  {
    if |byte| < size {
      SmallDiv(|byte|, size);
      if byte != [] {
        assert Chunks(byte, size) == [byte];
      }
    } else if |byte| == size {
      AllFullStep(byte, size);
      DivStep(|byte|, 0, size);
      SmallDiv(0, size);
    } else {
      ChunksAligned(byte[size..], size);
      ChunksAlignedStep(byte, size);
    }
  }

  /** One step of ChunksAligned: past a whole first entry, both sides of the
      equivalence are those of the rest of the span. */
  lemma ChunksAlignedStep(byte: seq<Byte>, size: nat)
    requires 0 < size < |byte|
    requires AllFull(Chunks(byte[size..], size), size) <==> |byte[size..]| % size == 0
    ensures AllFull(Chunks(byte, size), size) <==> |byte| % size == 0
  {
    var rest := byte[size..];
    assert |rest| == |byte| - size;
    AllFullStep(byte, size);
    DivStep(|byte|, |rest|, size);
  }

  /** A span of whole entries is cut into one chunk per entry. */
  lemma {:induction false} ChunkCount(byte: seq<Byte>, size: nat)
    requires size > 0 && |byte| % size == 0
    ensures |Chunks(byte, size)| == |byte| / size
    decreases |byte|
  {
    if byte != [] {
      if |byte| < size {
        SmallDiv(|byte|, size);
      } else {
        DivStep(|byte|, |byte| - size, size);
        if |byte| > size {
          ChunkCount(byte[size..], size);
        } else {
          SmallDiv(0, size);
        }
      }
    } else {
      SmallDiv(0, size);
    }
  }

  /** A directory decodes exactly when every entry-sized chunk of its span is
      a whole entry that decodes; entry `k` is then what chunk `k` decodes to. */
  lemma DirectoryDecodesIff(byte: seq<Byte>, leader: Leader)
    requires ChunkSize(leader) > 0
    ensures DecodeDirectory(byte, leader).Ok? <==> AllDecode(Chunks(byte, ChunkSize(leader)), leader)
    ensures DecodeDirectory(byte, leader).Ok? ==>
              && |DecodeDirectory(byte, leader).value| == |Chunks(byte, ChunkSize(leader))|
              && forall i :: 0 <= i < |DecodeDirectory(byte, leader).value| ==>
                   Ok(DecodeDirectory(byte, leader).value[i]) ==
                   ParseEntry(Chunks(byte, ChunkSize(leader))[i], leader)
  {
    DecodeChunksIff(Chunks(byte, ChunkSize(leader)), leader);
  }

  /** A decoded directory spans a whole number of entries, one per entry. */
  lemma DirectoryLength(byte: seq<Byte>, leader: Leader)
    requires ChunkSize(leader) > 0
    requires DecodeDirectory(byte, leader).Ok?
    ensures |byte| % ChunkSize(leader) == 0
    ensures |DecodeDirectory(byte, leader).value| == |byte| / ChunkSize(leader)
  {
    var cs := Chunks(byte, ChunkSize(leader));
    DirectoryDecodesIff(byte, leader);
    assert AllFull(cs, ChunkSize(leader)) by {
      forall i | 0 <= i < |cs| ensures |cs[i]| == ChunkSize(leader) {
        assert EntryDecodes(cs[i], leader);
      }
    }
    ChunksAligned(byte, ChunkSize(leader));
    ChunkCount(byte, ChunkSize(leader));
  }

  /** Of the chunks of a span that is not a whole number of entries, the last
      is the short one. */
  lemma ShortLastChunk(byte: seq<Byte>, size: nat)
    requires size > 0 && |byte| % size != 0
    ensures |Chunks(byte, size)| >= 1
    ensures |Chunks(byte, size)[|Chunks(byte, size)| - 1]| != size
  {
    ChunksAligned(byte, size);
  }

  /** Chunks that all decode up to a short last one fail with BadDirectoryData. */
  lemma {:induction false} ShortLastChunkFails(cs: seq<seq<Byte>>, leader: Leader)
    requires |cs| >= 1 && |cs[|cs| - 1]| != ChunkSize(leader)
    requires forall i :: 0 <= i < |cs| - 1 ==> EntryDecodes(cs[i], leader)
    ensures DecodeChunks(cs, leader) == Err(Leaf(BadDirectoryData))
  {
    if |cs| > 1 {
      var tail := cs[1..];
      assert EntryDecodes(cs[0], leader);
      assert tail[|tail| - 1] == cs[|cs| - 1];
      assert forall i :: 0 <= i < |tail| - 1 ==> tail[i] == cs[i + 1];
      ShortLastChunkFails(tail, leader);
    }
  }

  /** A span that is not a whole number of entries never decodes; when every
      chunk before the short remainder decodes, the failure is
      BadDirectoryData. */
  lemma MisalignedDirectoryFails(byte: seq<Byte>, leader: Leader)
    requires ChunkSize(leader) > 0
    requires |byte| % ChunkSize(leader) != 0
    ensures DecodeDirectory(byte, leader).Err?
    ensures |Chunks(byte, ChunkSize(leader))| >= 1
    ensures (forall i :: 0 <= i < |Chunks(byte, ChunkSize(leader))| - 1 ==>
               EntryDecodes(Chunks(byte, ChunkSize(leader))[i], leader)) ==>
            DecodeDirectory(byte, leader) == Err(Leaf(BadDirectoryData))
  {
    var cs := Chunks(byte, ChunkSize(leader));
    ShortLastChunk(byte, ChunkSize(leader));
    DecodeChunksIff(cs, leader);
    assert !EntryDecodes(cs[|cs| - 1], leader);
    if forall i :: 0 <= i < |cs| - 1 ==> EntryDecodes(cs[i], leader) {
      ShortLastChunkFails(cs, leader);
    }
  }

  /** Entries that can be written back: a tag of exactly `ftf` bytes of text,
      and a length and an offset that fit their (non-empty) decimal fields. */
  predicate EncodableEntry(e: DirectoryEntry, leader: Leader) {
    && |e.id| == leader.ftf && ValidUtf8(e.id)
    && 1 <= leader.flf && e.length < Pow10(leader.flf) && e.length <= UsizeMax
    && 1 <= leader.fpf && e.offset < Pow10(leader.fpf) && e.offset <= UsizeMax
  }

  function EncodeEntry(e: DirectoryEntry, leader: Leader): (chunk: seq<Byte>)
    requires EncodableEntry(e, leader)
    ensures |chunk| == ChunkSize(leader)
  {
    e.id + PaddedDecimal(e.length, leader.flf) + PaddedDecimal(e.offset, leader.fpf)
  }

  /** The directory bytes for a list of entries, one encoded entry after the other. */
  function EncodeDirectory(entries: seq<DirectoryEntry>, leader: Leader): (byte: seq<Byte>)
    requires forall i :: 0 <= i < |entries| ==> EncodableEntry(entries[i], leader)
  {
    Flatten(seq(|entries|, i requires 0 <= i < |entries| => EncodeEntry(entries[i], leader)))
  }

  lemma EntryRoundTrip(e: DirectoryEntry, leader: Leader)
    requires EncodableEntry(e, leader)
    ensures ParseEntry(EncodeEntry(e, leader), leader) == Ok(e)
  {
    var chunk := EncodeEntry(e, leader);
    var ftf, flf := leader.ftf, leader.flf;
    ParseEntrySpec(chunk, leader);
    assert chunk[..ftf] == e.id;
    assert chunk[ftf..ftf + flf] == PaddedDecimal(e.length, flf);
    assert chunk[ftf + flf..] == PaddedDecimal(e.offset, leader.fpf);
    PaddedDecimalParses(e.length, flf);
    PaddedDecimalParses(e.offset, leader.fpf);
  }

  /** Chunks of equal, full size laid end to end are cut back into themselves. */
  lemma {:induction false} ChunksOfFlatten(cs: seq<seq<Byte>>, size: nat)
    requires size > 0
    requires forall i :: 0 <= i < |cs| ==> |cs[i]| == size
    ensures Chunks(Flatten(cs), size) == cs
  {
    if cs != [] {
      ChunksOfFlatten(cs[1..], size);
      var byte := Flatten(cs);
      assert byte[..size] == cs[0] && byte[size..] == Flatten(cs[1..]);
      if |byte| == size {
        assert Flatten(cs[1..]) == [];
        assert cs[1..] == [];
      }
      assert cs == [cs[0]] + cs[1..];
    }
  }

  /** Writing a directory and decoding it gives back the same entries. */
  lemma DirectoryRoundTrip(entries: seq<DirectoryEntry>, leader: Leader)
    requires ChunkSize(leader) > 0
    requires forall i :: 0 <= i < |entries| ==> EncodableEntry(entries[i], leader)
    ensures DecodeDirectory(EncodeDirectory(entries, leader), leader) == Ok(entries)
  {
    var cs := seq(|entries|, i requires 0 <= i < |entries| => EncodeEntry(entries[i], leader));
    ChunksOfFlatten(cs, ChunkSize(leader));
    forall i | 0 <= i < |entries|
      ensures ParseEntry(cs[i], leader) == Ok(entries[i])
    {
      EntryRoundTrip(entries[i], leader);
    }
    DecodeChunksIff(cs, leader);
    assert DecodeChunks(cs, leader).value == entries;
  }

  /** The lengths in the catalog test fixture's directory. */
  lemma ExampleLengths()
    ensures IsUsizeLiteral([0x30, 0x31, 0x39]) && UsizeValue([0x30, 0x31, 0x39]) == 19
    ensures IsUsizeLiteral([0x30, 0x34, 0x34]) && UsizeValue([0x30, 0x34, 0x34]) == 44
    ensures IsUsizeLiteral([0x31, 0x32, 0x30]) && UsizeValue([0x31, 0x32, 0x30]) == 120
  {
    DigitsAreLiteral([0x30, 0x31, 0x39]);
    DigitsAreLiteral([0x30, 0x34, 0x34]);
    DigitsAreLiteral([0x31, 0x32, 0x30]);
  }

  /** The offsets in the catalog test fixture's directory. */
  lemma ExampleOffsets()
    ensures IsUsizeLiteral([0x30, 0x30, 0x30, 0x30]) && UsizeValue([0x30, 0x30, 0x30, 0x30]) == 0
    ensures IsUsizeLiteral([0x30, 0x30, 0x31, 0x39]) && UsizeValue([0x30, 0x30, 0x31, 0x39]) == 19
    ensures IsUsizeLiteral([0x30, 0x30, 0x36, 0x33]) && UsizeValue([0x30, 0x30, 0x36, 0x33]) == 63
  {
    DigitsAreLiteral([0x30, 0x30, 0x30, 0x30]);
    DigitsAreLiteral([0x30, 0x30, 0x31, 0x39]);
    DigitsAreLiteral([0x30, 0x30, 0x36, 0x33]);
  }

  /** The tags in the catalog test fixture's directory are ASCII. */
  lemma ExampleTags()
    ensures IsAscii([0x30, 0x30, 0x30, 0x30]) && IsAscii([0x30, 0x30, 0x30, 0x31])
    ensures IsAscii([0x43, 0x41, 0x54, 0x44])
  {
  }

  /** One entry under the fixture leader's widths: a four-byte tag, three
      length digits and four offset digits. */
  lemma FixtureEntry(chunk: seq<Byte>, leader: Leader, tag: seq<Byte>, length: seq<Byte>, offset: seq<Byte>)
    requires leader == FixtureLeader
    requires |tag| == 4 && |length| == 3 && |offset| == 4 && chunk == tag + length + offset
    requires IsAscii(tag) && IsUsizeLiteral(length) && IsUsizeLiteral(offset)
    ensures |chunk| == ChunkSize(leader)
    ensures ParseEntry(chunk, leader) == Ok(DirectoryEntry(tag, UsizeValue(length), UsizeValue(offset)))
  {
    AsciiIsUtf8(tag);
    assert chunk[..4] == tag && chunk[4..7] == length && chunk[7..] == offset;
    ParseEntrySpec(chunk, leader);
  }

  lemma FlattenThree(cs: seq<seq<Byte>>)
    requires |cs| == 3
    ensures Flatten(cs) == cs[0] + cs[1] + cs[2]
  {
    assert cs[1..][1..] == [cs[2]];
    assert Flatten([cs[2]]) == cs[2] + Flatten([cs[2]][1..]);
  }

  /** Three full chunks laid end to end are cut back into themselves. */
  lemma ThreeChunks(b: seq<Byte>, size: nat, c0: seq<Byte>, c1: seq<Byte>, c2: seq<Byte>) returns (cs: seq<seq<Byte>>)
    requires size > 0 && b == c0 + c1 + c2 && |c0| == |c1| == |c2| == size
    ensures cs == [c0, c1, c2] && Chunks(b, size) == cs
  {
    cs := [c0, c1, c2];
    FlattenThree(cs);
    ChunksOfFlatten(cs, size);
  }

  /** Three entries that each decode, laid end to end, decode to the three
      of them in order. */
  lemma ThreeEntryDirectory(b: seq<Byte>, leader: Leader, c0: seq<Byte>, c1: seq<Byte>, c2: seq<Byte>,
                            e0: DirectoryEntry, e1: DirectoryEntry, e2: DirectoryEntry)
    requires ChunkSize(leader) > 0 && b == c0 + c1 + c2
    requires |c0| == |c1| == |c2| == ChunkSize(leader)
    requires ParseEntry(c0, leader) == Ok(e0) && ParseEntry(c1, leader) == Ok(e1) && ParseEntry(c2, leader) == Ok(e2)
    ensures DecodeDirectory(b, leader) == Ok([e0, e1, e2])
  {
    var cs := ThreeChunks(b, ChunkSize(leader), c0, c1, c2);
    DecodeChunksIff(cs, leader);
    var v := DecodeChunks(cs, leader).value;
    assert Ok(v[0]) == Ok(e0) && Ok(v[1]) == Ok(e1) && Ok(v[2]) == Ok(e2);
    assert v == [e0, e1, e2];
  }

  /** The fixture directory's bytes, one entry after the other, each a tag,
      a length and an offset. */
  lemma ExampleDirectoryBytes(b: seq<Byte>) returns (c0: seq<Byte>, c1: seq<Byte>, c2: seq<Byte>)
    requires b == Ascii("0000019000000010440019CATD1200063")
    ensures b == c0 + c1 + c2
    ensures c0 == [0x30, 0x30, 0x30, 0x30] + [0x30, 0x31, 0x39] + [0x30, 0x30, 0x30, 0x30]
    ensures c1 == [0x30, 0x30, 0x30, 0x31] + [0x30, 0x34, 0x34] + [0x30, 0x30, 0x31, 0x39]
    ensures c2 == [0x43, 0x41, 0x54, 0x44] + [0x31, 0x32, 0x30] + [0x30, 0x30, 0x36, 0x33]
  {
    c0 := [0x30, 0x30, 0x30, 0x30] + [0x30, 0x31, 0x39] + [0x30, 0x30, 0x30, 0x30];
    c1 := [0x30, 0x30, 0x30, 0x31] + [0x30, 0x34, 0x34] + [0x30, 0x30, 0x31, 0x39];
    c2 := [0x43, 0x41, 0x54, 0x44] + [0x31, 0x32, 0x30] + [0x30, 0x30, 0x36, 0x33];
  }

  /** The directory of the catalog test fixture. */
  lemma ExampleDirectory(b: seq<Byte>, leader: Leader, entries: seq<DirectoryEntry>)
    requires leader == FixtureLeader
    requires b == Ascii("0000019000000010440019CATD1200063")
    requires entries == [DirectoryEntry([0x30, 0x30, 0x30, 0x30], 19, 0),
                         DirectoryEntry([0x30, 0x30, 0x30, 0x31], 44, 19),
                         DirectoryEntry([0x43, 0x41, 0x54, 0x44], 120, 63)]
    ensures ChunkSize(leader) == 11
    ensures DecodeDirectory(b, leader) == Ok(entries)
  {
    var c0, c1, c2 := ExampleDirectoryBytes(b);
    ExampleLengths();
    ExampleOffsets();
    ExampleTags();
    FixtureEntry(c0, leader, [0x30, 0x30, 0x30, 0x30], [0x30, 0x31, 0x39], [0x30, 0x30, 0x30, 0x30]);
    FixtureEntry(c1, leader, [0x30, 0x30, 0x30, 0x31], [0x30, 0x34, 0x34], [0x30, 0x30, 0x31, 0x39]);
    FixtureEntry(c2, leader, [0x43, 0x41, 0x54, 0x44], [0x31, 0x32, 0x30], [0x30, 0x30, 0x36, 0x33]);
    ThreeEntryDirectory(b, leader, c0, c1, c2, entries[0], entries[1], entries[2]);
  }
}
