/** The GARC packed archive, read-only: the container index built when a file
    is opened (four tagged sections, a chain of relative offsets and one
    16-byte descriptor per record), and the three readers over it: whole
    records, the records of a nested mini-archive, and encrypted text tables.
    The file is given by its contents; every `seek` + `read` is a `Read` at an
    absolute offset. */
module Garc {
  import opened Binary
  import TextCodec

  const Magic: seq<byte> := [0x43, 0x52, 0x41, 0x47]  // "CRAG"
  const FatoTag: seq<byte> := [0x4F, 0x54, 0x41, 0x46]  // "OTAF"
  const FatbTag: seq<byte> := [0x42, 0x54, 0x41, 0x46]  // "BTAF"
  const FimbTag: seq<byte> := [0x42, 0x4D, 0x49, 0x46]  // "BMIF"

  const TextBaseKey: u16 := 0x7C89
  const TextAdvKey: u16 := 0x2983

  /** The four sections of an archive, each opened by its tag. */
  datatype Section = Container | OffsetTable | LengthTable | DataSection

  /** The tag a section starts with. */
  function Tag(s: Section): seq<byte>
  {
    match s
    case Container => Magic
    case OffsetTable => FatoTag
    case LengthTable => FatbTag
    case DataSection => FimbTag
  }

  /** A section tag that is not where the chain of offsets says (with where
      it was looked for and what was found), a read that came back short, or
      a record index past the end of the descriptor list. */
  datatype GarcError = BadMagic(section: Section, at: nat, found: seq<byte>) | Truncated | NoSuchRecord(n: nat)

  /** What is kept of a 16-byte record descriptor: the record's start,
      relative to the data segment, and its size. */
  datatype Descriptor = Descriptor(start: nat, size: nat)

  /** What `set_offsets` records about an archive: where each section
      starts, the number of records, their descriptors, and where the data
      begins. */
  datatype Index = Index(
    fatoOffset: nat,
    fatbOffset: nat,
    fimbOffset: nat,
    nRecords: nat,
    descriptors: seq<Descriptor>,
    dataSegmentOffset: nat)

  /** Descriptor fields `<3IHBB`: index, start, stop, size and two bytes; only
      start (bytes 4..8) and size (bytes 12..14) are kept. */
  function DescriptorOf(entry: seq<byte>): Descriptor
    requires |entry| == 16
  {
    Descriptor(U32(entry[4..8]), U16(entry[12..14]))
  }

  /** The descriptor stored at `pos`. */
  function DescriptorAt(file: seq<byte>, pos: nat): Descriptor
    requires pos + 16 <= |file|
  {
    DescriptorOf(file[pos..pos + 16])
  }

  /** Declarative reading of the container header, one predicate per
      section: `ix` is what the tags and offsets found in `file` say. */
  predicate ContainerAt(file: seq<byte>, ix: Index)
  {
    8 <= |file| && file[..4] == Magic && ix.fatoOffset == U32(file[4..8])
  }

  /** The offset table sits at `fatoOffset`, tagged, and gives the length
      table's position relative to its own. */
  predicate OffsetTableAt(file: seq<byte>, ix: Index)
  {
    var fato := ix.fatoOffset;
    fato + 8 <= |file| && file[fato..fato + 4] == FatoTag
    && ix.fatbOffset == fato + U32(file[fato + 4..fato + 8])
  }

  /** The length table sits at `fatbOffset`, tagged, with the data
      section's relative position, the record count and one descriptor per
      record after its header. */
  predicate LengthTableAt(file: seq<byte>, ix: Index)
  {
    var fatb, n := ix.fatbOffset, ix.nRecords;
    fatb + 12 + 16 * n <= |file| && file[fatb..fatb + 4] == FatbTag
    && ix.fimbOffset == fatb + U32(file[fatb + 4..fatb + 8]) && n == U32(file[fatb + 8..fatb + 12])
    && |ix.descriptors| == n && DescriptorsStored(file, fatb + 12, ix.descriptors)
  }

  /** Descriptor `k` of `ds` is the one stored `16 * k` bytes after `pos`. */
  predicate DescriptorsStored(file: seq<byte>, pos: nat, ds: seq<Descriptor>)
  {
    pos + 16 * |ds| <= |file|
    && forall k :: 0 <= k < |ds| ==> ds[k] == DescriptorAt(file, pos + 16 * k)
  }

  /** The data section sits at `fimbOffset`, tagged, and the records
      start the given half-word further on. */
  predicate DataSectionAt(file: seq<byte>, ix: Index)
  {
    var fimb := ix.fimbOffset;
    fimb + 6 <= |file| && file[fimb..fimb + 4] == FimbTag
    && ix.dataSegmentOffset == fimb + U16(file[fimb + 4..fimb + 6])
  }

  /** `ix` is what the file's four sections say. */
  predicate IsIndexOf(file: seq<byte>, ix: Index)
  {
    ContainerAt(file, ix) && OffsetTableAt(file, ix) && LengthTableAt(file, ix) && DataSectionAt(file, ix)
  }

  /** An error says what it found: a tag error carries the four bytes read
      where the tag should have been, which differ from the tag. */
  predicate ErrorFound(file: seq<byte>, e: GarcError)
  {
    e.Truncated? || (e.BadMagic? && e.found == Read(file, e.at, 4) && e.found != Tag(e.section))
  }

  /** Opening a file: the checks and reads in the order the source makes
      them, one stage per section. A wrong first tag is reported as such,
      and every tag error carries the four bytes found instead. */
  function ParseIndex(file: seq<byte>): (r: Result<Index, GarcError>)
    ensures Read(file, 0, 4) != Magic ==> r == Failure(BadMagic(Container, 0, Read(file, 0, 4)))
  {
    var magic := Read(file, 0, 4);
    if magic != Magic then Failure(BadMagic(Container, 0, magic))
    else match UnpackU32(Read(file, 4, 4))
      case None => Failure(Truncated)
      case Some(fato) => FromOffsetTable(file, fato)
  }

  /** The offset table at `fato`: its tag, then the offset of the length
      table relative to `fato`. */
  function FromOffsetTable(file: seq<byte>, fato: nat): Result<Index, GarcError>
  {
    var hdr := Read(file, fato, 4);
    if hdr != FatoTag then Failure(BadMagic(OffsetTable, fato, hdr))
    else match UnpackU32(Read(file, fato + 4, 4))
      case None => Failure(Truncated)
      case Some(rel) => FromLengthTable(file, fato, fato + rel)
  }

  /** The length table at `fatb`: its tag, the offset of the data section
      relative to `fatb`, the record count and the descriptors. */
  function FromLengthTable(file: seq<byte>, fato: nat, fatb: nat): Result<Index, GarcError>
  {
    var hdr := Read(file, fatb, 4);
    if hdr != FatbTag then Failure(BadMagic(LengthTable, fatb, hdr))
    else
      var words := Read(file, fatb + 4, 8);
      if |words| != 8 then Failure(Truncated)
      else
        var fimb, n := fatb + U32(words[..4]), U32(words[4..]);
        if |file| < fatb + 12 + 16 * n then Failure(Truncated)
        else FromDataSection(file, fato, fatb, fimb, n, Descriptors(file, fatb + 12, n))
  }

  /** The `n` descriptors stored one after the other from `pos`. */
  function Descriptors(file: seq<byte>, pos: nat, n: nat): (ds: seq<Descriptor>)
    requires n == 0 || pos + 16 * n <= |file|
    ensures |ds| == n
  {
    seq(n, k requires 0 <= k < n => DescriptorOf(Read(file, pos + 16 * k, 16)))
  }

  /** The data section at `fimb`: its tag, then the 2-byte offset of the
      data segment from the section's start. */
  function FromDataSection(file: seq<byte>, fato: nat, fatb: nat, fimb: nat, n: nat, ds: seq<Descriptor>): Result<Index, GarcError>
  {
    var hdr := Read(file, fimb, 4);
    if hdr != FimbTag then Failure(BadMagic(DataSection, fimb, hdr))
    else match UnpackU16(Read(file, fimb + 4, 2))
      case None => Failure(Truncated)
      case Some(rel) => Success(Index(fato, fatb, fimb, n, ds, fimb + rel))
  }

  /** A tag read at `p` matches exactly when the tag's bytes are there. */
  lemma TagRead(file: seq<byte>, p: nat, tag: seq<byte>)
    requires |tag| == 4
    ensures Read(file, p, 4) == tag <==> p + 4 <= |file| && file[p..p + 4] == tag
  {
  }

  /** The last stage succeeds exactly on an index the data section
      describes, and any failure names what is wrong. */
  lemma {:induction false} DataSectionStage(file: seq<byte>, fato: nat, fatb: nat, fimb: nat, n: nat, ds: seq<Descriptor>, ix: Index)
    ensures FromDataSection(file, fato, fatb, fimb, n, ds) == Success(ix) <==>
              ix.fatoOffset == fato && ix.fatbOffset == fatb && ix.fimbOffset == fimb
              && ix.nRecords == n && ix.descriptors == ds && DataSectionAt(file, ix)
    ensures var r := FromDataSection(file, fato, fatb, fimb, n, ds);
            r.Failure? ==> ErrorFound(file, r.error)
  {
    TagRead(file, fimb, FimbTag);
    if Read(file, fimb, 4) == FimbTag && fimb + 6 <= |file| {
      assert Read(file, fimb + 4, 2) == file[fimb + 4..fimb + 6];
    }
  }

  /** The descriptor list read from `pos` is the one stored there. */
  lemma DescriptorsAre(file: seq<byte>, pos: nat, n: nat, ds: seq<Descriptor>)
    requires pos + 16 * n <= |file|
    ensures ds == Descriptors(file, pos, n) <==> |ds| == n && DescriptorsStored(file, pos, ds)
  {
    var all := Descriptors(file, pos, n);
    forall k | 0 <= k < n
      ensures all[k] == DescriptorAt(file, pos + 16 * k)
    {
      assert Read(file, pos + 16 * k, 16) == file[pos + 16 * k..pos + 16 * k + 16];
    }
  }

  /** The length table read from its two words: the count and the data
      section offset come from the bytes after the tag. */
  lemma LengthTableWords(file: seq<byte>, fato: nat, fatb: nat)
    requires Read(file, fatb, 4) == FatbTag && fatb + 12 <= |file|
    ensures var fimb, n := fatb + U32(file[fatb + 4..fatb + 8]), U32(file[fatb + 8..fatb + 12]);
            FromLengthTable(file, fato, fatb) ==
              if |file| < fatb + 12 + 16 * n then Failure(Truncated)
              else FromDataSection(file, fato, fatb, fimb, n, Descriptors(file, fatb + 12, n))
  {
    var words := Read(file, fatb + 4, 8);
    assert words == file[fatb + 4..fatb + 12];
    assert words[..4] == file[fatb + 4..fatb + 8];
    assert words[4..] == file[fatb + 8..fatb + 12];
  }

  /** Opening, from the values `set_offsets` has read up to the offset
      table: the rest is the length-table stage. */
  lemma OffsetTableRead(file: seq<byte>, fato: nat, rel: nat)
    requires Read(file, 0, 4) == Magic && UnpackU32(Read(file, 4, 4)) == Some(fato)
    requires Read(file, fato, 4) == FatoTag && UnpackU32(Read(file, fato + 4, 4)) == Some(rel)
    ensures ParseIndex(file) == FromLengthTable(file, fato, fato + rel)
  {
    assert ParseIndex(file) == FromOffsetTable(file, fato);
  }

  /** The length-table stage, from the values `set_offsets` reads there. */
  lemma LengthTableRead(file: seq<byte>, fato: nat, fatb: nat, words: seq<byte>)
    requires Read(file, fatb, 4) == FatbTag && words == Read(file, fatb + 4, 8) && |words| == 8
    requires fatb + 12 + 16 * U32(words[4..]) <= |file|
    ensures FromLengthTable(file, fato, fatb)
            == FromDataSection(file, fato, fatb, fatb + U32(words[..4]), U32(words[4..]), Descriptors(file, fatb + 12, U32(words[4..])))
  {
  }

  /** The length-table stage succeeds exactly on an index the length table
      and the data section describe. */
  lemma {:induction false} LengthTableStage(file: seq<byte>, fato: nat, fatb: nat, ix: Index)
    ensures FromLengthTable(file, fato, fatb) == Success(ix) <==>
              ix.fatoOffset == fato && ix.fatbOffset == fatb && LengthTableAt(file, ix) && DataSectionAt(file, ix)
  {
    TagRead(file, fatb, FatbTag);
    if Read(file, fatb, 4) != FatbTag || |file| < fatb + 12 {
      assert FromLengthTable(file, fato, fatb).Failure?;
      assert ix.fatbOffset == fatb ==> !LengthTableAt(file, ix);
    } else {
      LengthTableCounted(file, fato, fatb, ix);
    }
  }

  /** The length table stage once its tag and its two words are there. */
  lemma {:induction false} LengthTableCounted(file: seq<byte>, fato: nat, fatb: nat, ix: Index)
    requires Read(file, fatb, 4) == FatbTag && fatb + 12 <= |file|
    ensures FromLengthTable(file, fato, fatb) == Success(ix) <==>
              ix.fatoOffset == fato && ix.fatbOffset == fatb && LengthTableAt(file, ix) && DataSectionAt(file, ix)
  {
    TagRead(file, fatb, FatbTag);
    LengthTableWords(file, fato, fatb);
    var fimb, n := fatb + U32(file[fatb + 4..fatb + 8]), U32(file[fatb + 8..fatb + 12]);
    if |file| < fatb + 12 + 16 * n {
      assert ix.fatbOffset == fatb ==> !LengthTableAt(file, ix);
    } else {
      var ds := Descriptors(file, fatb + 12, n);
      DataSectionStage(file, fato, fatb, fimb, n, ds, ix);
      DescriptorsAre(file, fatb + 12, n, ix.descriptors);
      assert ix.fatbOffset == fatb ==>
               (LengthTableAt(file, ix) <==> ix.fimbOffset == fimb && ix.nRecords == n && ix.descriptors == ds);
    }
  }

  /** Every failure of the length-table stage names what is wrong. */
  lemma {:induction false} LengthTableErrors(file: seq<byte>, fato: nat, fatb: nat)
    ensures var r := FromLengthTable(file, fato, fatb);
            r.Failure? ==> ErrorFound(file, r.error)
  {
    if Read(file, fatb, 4) == FatbTag && fatb + 12 <= |file| {
      LengthTableWords(file, fato, fatb);
      var fimb, n := fatb + U32(file[fatb + 4..fatb + 8]), U32(file[fatb + 8..fatb + 12]);
      if fatb + 12 + 16 * n <= |file| {
        DataSectionStage(file, fato, fatb, fimb, n, Descriptors(file, fatb + 12, n), Index(0, 0, 0, 0, [], 0));
      }
    }
  }

  /** The offset-table stage succeeds exactly on an index the last three
      sections describe, and any failure names what is wrong. */
  lemma {:induction false} OffsetTableStage(file: seq<byte>, fato: nat, ix: Index)
    ensures FromOffsetTable(file, fato) == Success(ix) <==>
              ix.fatoOffset == fato && OffsetTableAt(file, ix) && LengthTableAt(file, ix) && DataSectionAt(file, ix)
    ensures var r := FromOffsetTable(file, fato);
            r.Failure? ==> ErrorFound(file, r.error)
  {
    TagRead(file, fato, FatoTag);
    if Read(file, fato, 4) == FatoTag && fato + 8 <= |file| {
      OffsetTableFound(file, fato, ix);
    }
  }

  /** The offset-table stage once its tag and its word are there. */
  lemma OffsetTableFound(file: seq<byte>, fato: nat, ix: Index)
    requires Read(file, fato, 4) == FatoTag && fato + 8 <= |file|
    ensures FromOffsetTable(file, fato) == Success(ix) <==>
              ix.fatoOffset == fato && OffsetTableAt(file, ix) && LengthTableAt(file, ix) && DataSectionAt(file, ix)
    ensures var r := FromOffsetTable(file, fato);
            r.Failure? ==> ErrorFound(file, r.error)
  {
    TagRead(file, fato, FatoTag);
    var words := Read(file, fato + 4, 4);
    assert words == file[fato + 4..fato + 8];
    var fatb := fato + U32(words);
    OffsetTableNext(file, fato, U32(words));
    LengthTableStage(file, fato, fatb, ix);
    LengthTableErrors(file, fato, fatb);
  }

  /** Past its tag and its word, the offset-table stage is the length-table
      stage at the offset the word gives. */
  lemma OffsetTableNext(file: seq<byte>, fato: nat, rel: nat)
    requires Read(file, fato, 4) == FatoTag && UnpackU32(Read(file, fato + 4, 4)) == Some(rel)
    ensures FromOffsetTable(file, fato) == FromLengthTable(file, fato, fato + rel)
  {
  }

  /** Opening succeeds with `ix` exactly when `ix` is the index the file
      describes; when it fails, the error says what it found. */
  lemma {:induction false} ParseIndexCharacterised(file: seq<byte>, ix: Index)
    ensures ParseIndex(file) == Success(ix) <==> IsIndexOf(file, ix)
    ensures ParseIndex(file).Failure? ==> ErrorFound(file, ParseIndex(file).error)
  {
    TagRead(file, 0, Magic);
    if Read(file, 0, 4) == Magic && 8 <= |file| {
      var fato := U32(file[4..8]);
      assert file[..4] == file[0..4];
      assert ParseIndex(file) == FromOffsetTable(file, fato);
      OffsetTableStage(file, fato, ix);
    }
  }

  /** Declarative reading of a truncated archive, one predicate per
      section: every tag on the chain of offsets matches, and the first read
      after the last of them runs past the end of the file. The data
      section's tag is followed by fewer than two bytes. */
  predicate ShortDataSection(file: seq<byte>, fimb: nat)
  {
    fimb + 4 <= |file| && file[fimb..fimb + 4] == FimbTag && |file| < fimb + 6
  }

  /** The length table's tag is followed by fewer than eight bytes, or by
      fewer descriptors than its count, or the data section is short. */
  predicate ShortLengthTable(file: seq<byte>, fatb: nat)
  {
    fatb + 4 <= |file| && file[fatb..fatb + 4] == FatbTag
    && (|file| < fatb + 12
        || |file| < fatb + 12 + 16 * U32(file[fatb + 8..fatb + 12])
        || ShortDataSection(file, fatb + U32(file[fatb + 4..fatb + 8])))
  }

  /** The offset table's tag is followed by fewer than four bytes, or the
      length table is short. */
  predicate ShortOffsetTable(file: seq<byte>, fato: nat)
  {
    fato + 4 <= |file| && file[fato..fato + 4] == FatoTag
    && (|file| < fato + 8 || ShortLengthTable(file, fato + U32(file[fato + 4..fato + 8])))
  }

  /** The magic is followed by fewer than four bytes, or the offset table is
      short. */
  predicate ShortContainer(file: seq<byte>)
  {
    4 <= |file| && file[..4] == Magic
    && (|file| < 8 || ShortOffsetTable(file, U32(file[4..8])))
  }

  /** The data-section stage reports a truncation exactly when that section
      is short. */
  lemma DataSectionTruncated(file: seq<byte>, fato: nat, fatb: nat, fimb: nat, n: nat, ds: seq<Descriptor>)
    ensures FromDataSection(file, fato, fatb, fimb, n, ds) == Failure(Truncated) <==> ShortDataSection(file, fimb)
  {
    TagRead(file, fimb, FimbTag);
  }

  /** The length-table stage reports a truncation exactly when that table
      or the data section after it is short. */
  lemma LengthTableTruncated(file: seq<byte>, fato: nat, fatb: nat)
    ensures FromLengthTable(file, fato, fatb) == Failure(Truncated) <==> ShortLengthTable(file, fatb)
  {
    TagRead(file, fatb, FatbTag);
    if Read(file, fatb, 4) == FatbTag && fatb + 12 <= |file| {
      LengthTableWords(file, fato, fatb);
      var fimb, n := fatb + U32(file[fatb + 4..fatb + 8]), U32(file[fatb + 8..fatb + 12]);
      if fatb + 12 + 16 * n <= |file| {
        DataSectionTruncated(file, fato, fatb, fimb, n, Descriptors(file, fatb + 12, n));
      }
    }
  }

  /** The offset-table stage reports a truncation exactly when that table or
      a later section is short. */
  lemma OffsetTableTruncated(file: seq<byte>, fato: nat)
    ensures FromOffsetTable(file, fato) == Failure(Truncated) <==> ShortOffsetTable(file, fato)
  {
    TagRead(file, fato, FatoTag);
    if Read(file, fato, 4) == FatoTag && fato + 8 <= |file| {
      var rel := U32(file[fato + 4..fato + 8]);
      assert Read(file, fato + 4, 4) == file[fato + 4..fato + 8];
      OffsetTableNext(file, fato, rel);
      LengthTableTruncated(file, fato, fato + rel);
    }
  }

  /** Opening reports a truncation exactly when the file is cut short along
      the chain of sections: every tag reached matches, and a read after the
      last one runs past the end of the file. */
  lemma ParseIndexTruncated(file: seq<byte>)
    ensures ParseIndex(file) == Failure(Truncated) <==> ShortContainer(file)
  {
    TagRead(file, 0, Magic);
    if Read(file, 0, 4) == Magic && 8 <= |file| {
      assert Read(file, 4, 4) == file[4..8];
      assert file[0..4] == file[..4];
      OffsetTableTruncated(file, U32(file[4..8]));
    } else if Read(file, 0, 4) == Magic {
      assert file[0..4] == file[..4];
    }
  }

  /** Where the tag of a section is in the file. */
  function TagOffset(ix: Index, s: Section): nat
  {
    match s
    case Container => 0
    case OffsetTable => ix.fatoOffset
    case LengthTable => ix.fatbOffset
    case DataSection => ix.fimbOffset
  }

  /** Each tag is checked on its own: in a well-formed file whose sections
      follow one another, changing the first byte of any one section's tag
      makes opening fail with that section's error and no other. */
  lemma ReachOffsetTable(file: seq<byte>, ix: Index)
    requires ContainerAt(file, ix)
    ensures ParseIndex(file) == FromOffsetTable(file, ix.fatoOffset)
  {
    assert Read(file, 0, 4) == file[..4];
  }

  /** Past a good offset table, opening goes on at the length table. */
  lemma ReachLengthTable(file: seq<byte>, ix: Index)
    requires OffsetTableAt(file, ix)
    ensures FromOffsetTable(file, ix.fatoOffset) == FromLengthTable(file, ix.fatoOffset, ix.fatbOffset)
  {
    assert Read(file, ix.fatoOffset, 4) == FatoTag;
  }

  /** Past a good length table, opening goes on at the data section. */
  lemma ReachDataSection(file: seq<byte>, ix: Index)
    requires LengthTableAt(file, ix)
    ensures var fatb, n := ix.fatbOffset, ix.nRecords;
            FromLengthTable(file, ix.fatoOffset, fatb)
              == FromDataSection(file, ix.fatoOffset, fatb, ix.fimbOffset, n, Descriptors(file, fatb + 12, n))
  {
    var fatb := ix.fatbOffset;
    assert Read(file, fatb, 4) == FatbTag;
    var words := Read(file, fatb + 4, 8);
    assert words == file[fatb + 4..fatb + 12];
    assert words[..4] == file[fatb + 4..fatb + 8];
    assert words[4..] == file[fatb + 8..fatb + 12];
  }

  /** The bytes of `[lo, hi)` are unchanged by a write at `at` outside them. */
  lemma SliceUntouched(file: seq<byte>, at: nat, b: byte, lo: nat, hi: nat)
    requires at < |file| && lo <= hi <= |file| && (at < lo || hi <= at)
    ensures file[at := b][lo..hi] == file[lo..hi]
  {
  }

  /** Changing a byte outside a section's header leaves the section as it
      was. */
  lemma ContainerKept(file: seq<byte>, ix: Index, at: nat, b: byte)
    requires ContainerAt(file, ix) && 8 <= at < |file|
    ensures ContainerAt(file[at := b], ix)
  {
    SliceUntouched(file, at, b, 0, 4);
    SliceUntouched(file, at, b, 4, 8);
  }

  lemma OffsetTableKept(file: seq<byte>, ix: Index, at: nat, b: byte)
    requires OffsetTableAt(file, ix) && at < |file|
    requires at < ix.fatoOffset || ix.fatoOffset + 8 <= at
    ensures OffsetTableAt(file[at := b], ix)
  {
    SliceUntouched(file, at, b, ix.fatoOffset, ix.fatoOffset + 4);
    SliceUntouched(file, at, b, ix.fatoOffset + 4, ix.fatoOffset + 8);
  }

  lemma LengthTableKept(file: seq<byte>, ix: Index, at: nat, b: byte)
    requires LengthTableAt(file, ix) && at < |file|
    requires at < ix.fatbOffset || ix.fatbOffset + 12 + 16 * ix.nRecords <= at
    ensures LengthTableAt(file[at := b], ix)
  {
    var fatb, bad := ix.fatbOffset, file[at := b];
    SliceUntouched(file, at, b, fatb, fatb + 4);
    SliceUntouched(file, at, b, fatb + 4, fatb + 8);
    SliceUntouched(file, at, b, fatb + 8, fatb + 12);
    forall k | 0 <= k < ix.nRecords
      ensures ix.descriptors[k] == DescriptorAt(bad, fatb + 12 + 16 * k)
    {
      SliceUntouched(file, at, b, fatb + 12 + 16 * k, fatb + 12 + 16 * k + 16);
    }
  }

  /** Changing the first byte of a tag breaks the tag. */
  lemma TagBroken(file: seq<byte>, at: nat, b: byte, tag: seq<byte>)
    requires at + 4 <= |file| && file[at..at + 4] == tag && b != file[at]
    ensures Read(file[at := b], at, 4) == file[at := b][at..at + 4] != tag
  {
    assert file[at := b][at..at + 4][0] == b;
    assert file[at..at + 4][0] == file[at];
  }

  /** Each tag is checked on its own: in a well-formed file whose sections
      follow one another, changing the first byte of any one section's tag
      makes opening fail with that section's error and no other. */
  lemma CorruptedTagRejected(file: seq<byte>, ix: Index, s: Section, b: byte)
    requires IsIndexOf(file, ix)
    requires 8 <= ix.fatoOffset && ix.fatoOffset + 8 <= ix.fatbOffset
    requires ix.fatbOffset + 12 + 16 * ix.nRecords <= ix.fimbOffset
    requires b != file[TagOffset(ix, s)]
    ensures var bad := file[TagOffset(ix, s) := b];
            ParseIndex(bad) == Failure(BadMagic(s, TagOffset(ix, s), bad[TagOffset(ix, s)..TagOffset(ix, s) + 4]))
  {
    var at := TagOffset(ix, s);
    var bad := file[at := b];
    TagBroken(file, at, b, Tag(s));
    if s != Container {
      ContainerKept(file, ix, at, b);
      ReachOffsetTable(bad, ix);
    }
    if s == LengthTable || s == DataSection {
      OffsetTableKept(file, ix, at, b);
      ReachLengthTable(bad, ix);
    }
    if s == DataSection {
      LengthTableKept(file, ix, at, b);
      ReachDataSection(bad, ix);
    }
  }

  /** Bytes of one record: `size` bytes at `start` past the data segment. */
  function RecordBytes(file: seq<byte>, dataSegment: nat, d: Descriptor): seq<byte>
  {
    Read(file, dataSegment + d.start, d.size)
  }

  /** The first halves of `count` consecutive 4-byte entries `(u16, u16)`
      from `pos`: the offsets of a mini-archive. */
  function MiniOffsets(file: seq<byte>, pos: nat, count: nat): (offsets: seq<nat>)
    requires count == 0 || pos + 4 * count <= |file|
    ensures |offsets| == count
  {
    seq(count, i requires 0 <= i < count => U16(file[pos + 4 * i..pos + 4 * i + 2]))
  }

  /** Chunks read one after the other from `pos`, chunk `r` being the next
      `offsets[r + 1] - offsets[r]` bytes. */
  function ReadSequential(file: seq<byte>, pos: nat, offsets: seq<nat>): (chunks: seq<seq<byte>>)
    ensures |chunks| == if |offsets| == 0 then 0 else |offsets| - 1
    decreases |offsets|
  {
    if |offsets| < 2 then []
    else
      var chunk := Read(file, pos, offsets[1] as int - offsets[0]);
      [chunk] + ReadSequential(file, pos + |chunk|, offsets[1..])
  }

  /** The chunks joined end to end. */
  function Concat(chunks: seq<seq<byte>>): seq<byte>
  {
    if chunks == [] then [] else chunks[0] + Concat(chunks[1..])
  }

  /** The mini-archive whose header starts at `base`: `u16 size, u16 length`,
      then `length + 1` entries `(u16 offset, u16 unused)`, then the payload,
      read contiguously right after that header. A short header read fails. */
  function MiniArchive(file: seq<byte>, base: nat): (r: Result<seq<seq<byte>>, GarcError>)
    ensures r.Failure? ==> r.error == Truncated
    ensures r.Success? <==> base + 4 <= |file| && base + 4 + 4 * (U16(file[base + 2..base + 4]) + 1) <= |file|
    ensures r.Success? ==> |r.value| == U16(file[base + 2..base + 4])
  {
    if |file| < base + 4 then Failure(Truncated)
    else
      var length := U16(file[base + 2..base + 4]);
      if |file| < base + 4 + 4 * (length + 1) then Failure(Truncated)
      else Success(ReadSequential(file, base + 4 + 4 * (length + 1), MiniOffsets(file, base + 4, length + 1)))
  }

  /** Offsets that never go down. */
  predicate NonDecreasing(offsets: seq<nat>)
  {
    forall i, j :: 0 <= i <= j < |offsets| ==> offsets[i] <= offsets[j]
  }

  /** With non-decreasing offsets and enough bytes in the file, chunk `r` is
      exactly the `offsets[r + 1] - offsets[r]` bytes at relative position
      `offsets[r] - offsets[0]`. */
  lemma SequentialChunks(file: seq<byte>, pos: nat, offsets: seq<nat>)
    requires |offsets| >= 1 && NonDecreasing(offsets)
    requires pos + offsets[|offsets| - 1] - offsets[0] <= |file|
    ensures var chunks := ReadSequential(file, pos, offsets);
            forall r :: 0 <= r < |chunks| ==>
              chunks[r] == file[pos + offsets[r] - offsets[0]..pos + offsets[r + 1] - offsets[0]]
  {
    forall r | 0 <= r < |offsets| - 1
      ensures ReadSequential(file, pos, offsets)[r] == file[pos + offsets[r] - offsets[0]..pos + offsets[r + 1] - offsets[0]]
    {
      SequentialChunk(file, pos, offsets, r);
    }
  }

  /** Chunk `r` alone, by induction on `r`. */
  lemma {:induction false} SequentialChunk(file: seq<byte>, pos: nat, offsets: seq<nat>, r: nat)
    requires r + 1 < |offsets| && NonDecreasing(offsets)
    requires pos + offsets[|offsets| - 1] - offsets[0] <= |file|
    ensures offsets[0] <= offsets[r] <= offsets[r + 1] <= offsets[|offsets| - 1]
    ensures ReadSequential(file, pos, offsets)[r] == file[pos + offsets[r] - offsets[0]..pos + offsets[r + 1] - offsets[0]]
    decreases r
  {
    var width := offsets[1] - offsets[0];
    var rest := offsets[1..];
    var chunk := Read(file, pos, offsets[1] as int - offsets[0]);
    assert offsets[1] <= offsets[|offsets| - 1];
    assert chunk == file[pos..pos + width];
    ReadSequentialStep(file, pos, offsets, chunk, rest);
    if r > 0 {
      assert NonDecreasing(rest);
      assert offsets[|offsets| - 1] == rest[|rest| - 1];
      assert rest[r - 1] == offsets[r] && rest[r] == offsets[r + 1] && rest[0] == offsets[1];
      SequentialChunk(file, pos + width, rest, r - 1);
    }
  }

  /** All chunks together are the `offsets[last] - offsets[0]` bytes from `pos`:
      nothing is skipped and nothing read twice. */
  lemma {:induction false} SequentialIsContiguous(file: seq<byte>, pos: nat, offsets: seq<nat>)
    requires |offsets| >= 1 && NonDecreasing(offsets)
    requires pos + offsets[|offsets| - 1] - offsets[0] <= |file|
    decreases |offsets|
    ensures Concat(ReadSequential(file, pos, offsets)) == file[pos..pos + offsets[|offsets| - 1] - offsets[0]]
  {
    if |offsets| >= 2 {
      var width := offsets[1] - offsets[0];
      var rest := offsets[1..];
      assert NonDecreasing(rest);
      assert offsets[|offsets| - 1] == rest[|rest| - 1];
      var end := pos + offsets[|offsets| - 1] - offsets[0];
      assert pos + width + rest[|rest| - 1] - rest[0] == end;
      SequentialIsContiguous(file, pos + width, rest);
      var chunk := file[pos..pos + width];
      assert Read(file, pos, offsets[1] as int - offsets[0]) == chunk;
      ReadSequentialStep(file, pos, offsets, chunk, rest);
      ConcatCons(chunk, ReadSequential(file, pos + width, rest));
      SliceSplit(file, pos, pos + width, end);
    }
  }

  /** A slice is the slice up to a midpoint followed by the slice from it. */
  lemma SliceSplit(s: seq<byte>, i: nat, j: nat, k: nat)
    requires i <= j <= k <= |s|
    ensures s[i..k] == s[i..j] + s[j..k]
  {
  }

  /** Joining chunks joins the first one to the join of the rest. */
  lemma ConcatCons(chunk: seq<byte>, chunks: seq<seq<byte>>)
    ensures Concat([chunk] + chunks) == chunk + Concat(chunks)
  {
    assert ([chunk] + chunks)[1..] == chunks;
  }

  /** Before the chunks loop nothing is read and everything is still to
      be read. */
  lemma ChunkLoopStart(file: seq<byte>, pos: nat, offsets: seq<nat>)
    ensures [] + ReadSequential(file, pos, offsets[0..]) == ReadSequential(file, pos, offsets)
  {
    assert offsets[0..] == offsets;
  }

  /** One turn of the chunks loop: the next chunk moves from the part still
      to be read to the chunks already read. */
  lemma ChunkLoopStep(file: seq<byte>, p: nat, offsets: seq<nat>, r: nat, chunks: seq<seq<byte>>, chunk: seq<byte>)
    requires r + 1 < |offsets| && chunk == Read(file, p, offsets[r + 1] as int - offsets[r])
    ensures chunks + ReadSequential(file, p, offsets[r..])
            == (chunks + [chunk]) + ReadSequential(file, p + |chunk|, offsets[r + 1..])
  {
    var rest := offsets[r..];
    assert rest[0] == offsets[r] && rest[1] == offsets[r + 1] && rest[1..] == offsets[r + 1..];
    ReadSequentialStep(file, p, rest, chunk, offsets[r + 1..]);
    AppendAssoc(chunks, [chunk], ReadSequential(file, p + |chunk|, offsets[r + 1..]));
  }

  /** The first chunk, then the chunks of the remaining offsets from where
      it ends. */
  lemma ReadSequentialStep(file: seq<byte>, pos: nat, offsets: seq<nat>, chunk: seq<byte>, rest: seq<nat>)
    requires |offsets| >= 2 && rest == offsets[1..]
    requires chunk == Read(file, pos, offsets[1] as int - offsets[0])
    ensures ReadSequential(file, pos, offsets) == [chunk] + ReadSequential(file, pos + |chunk|, rest)
  {
  }

  /** One entry of a text table: where its code units start, relative to the
      table's data region, and how many there are. */
  datatype Entry = Entry(offset: nat, length: nat)

  /** Entry fields `<I2H`: offset, length and an unused half-word. */
  function EntryOf(b: seq<byte>): Entry
    requires |b| == 8
  {
    Entry(U32(b[..4]), U16(b[4..6]))
  }

  /** The `count` entries stored one after the other from `pos`. */
  function TextEntries(file: seq<byte>, pos: nat, count: nat): (entries: seq<Entry>)
    requires count == 0 || pos + 8 * count <= |file|
    ensures |entries| == count
  {
    seq(count, i requires 0 <= i < count => EntryOf(file[pos + 8 * i..pos + 8 * i + 8]))
  }

  /** `length` little-endian 16-bit code units from `2 * length` bytes. */
  function Units(b: seq<byte>, length: nat): (units: seq<bv16>)
    requires |b| == 2 * length
    ensures |units| == length
  {
    seq(length, i requires 0 <= i < length => U16(b[2 * i..2 * i + 2]) as bv16)
  }

  /** One string: its code units read from the data region and decoded with
      a keystream seeded at `key`; `None` when the read comes back short. */
  function DecodeEntry(file: seq<byte>, dataBase: nat, e: Entry, key: u16): Option<TextCodec.Text>
  {
    var b := Read(file, dataBase + e.offset, 2 * e.length);
    if |b| < 2 * e.length then None
    else Some(TextCodec.Decode(Units(b, e.length), key as bv16))
  }

  /** The strings of `entries` in order; the key moves on by `TextAdvKey`
      (modulo 2^16) after each string. */
  function DecodeEntries(file: seq<byte>, dataBase: nat, entries: seq<Entry>, key: u16): Result<seq<TextCodec.Text>, GarcError>
    decreases |entries|
  {
    if entries == [] then Success([])
    else match DecodeEntry(file, dataBase, entries[0], key)
      case None => Failure(Truncated)
      case Some(text) =>
        match DecodeEntries(file, dataBase, entries[1..], (key + TextAdvKey) % 0x1_0000)
        case Failure(e) => Failure(e)
        case Success(texts) => Success([text] + texts)
  }

  /** The text table whose header starts at `base`; its data region starts
      0x10 bytes after `base`. */
  function TextTable(file: seq<byte>, base: nat): Result<seq<TextCodec.Text>, GarcError>
  {
    if |file| < base + 0x14 then Failure(Truncated)
    else
      var count := U16(file[base + 2..base + 4]);
      if |file| < base + 0x14 + 8 * count then Failure(Truncated)
      else DecodeEntries(file, base + 0x10, TextEntries(file, base + 0x14, count), TextBaseKey)
  }

  /** The seed of string `i` counted from a table whose first seed is `key`. */
  function SeedAfter(key: u16, i: nat): u16
  {
    (key + i * TextAdvKey) % 0x1_0000
  }

  /** The seed of string `i` of any text table. */
  function EntrySeed(i: nat): u16
  {
    SeedAfter(TextBaseKey, i)
  }

  /** Advancing the key once more is one more step of the seed. */
  lemma {:induction false} SeedStep(key: u16, i: nat)
    ensures SeedAfter((key + TextAdvKey) % 0x1_0000, i) == SeedAfter(key, i + 1)
  {
    var m := 0x1_0000;
    var x := key + TextAdvKey;
    assert x == m * (x / m) + x % m;
    assert x % m + i * TextAdvKey == (key + (i + 1) * TextAdvKey) - m * (x / m);
    ModShift(key + (i + 1) * TextAdvKey, x / m);
  }

  /** Removing whole multiples of 2^16 does not change the low 16 bits. */
  lemma {:induction false} ModShift(y: int, k: int)
    ensures (y - 0x1_0000 * k) % 0x1_0000 == y % 0x1_0000
  {
  }

  /** The seed of entry `i` of the remaining entries, after one string has
      been decoded, is the seed of entry `i + 1` of the whole list. */
  lemma NextSeeds(entries: seq<Entry>, key: u16)
    requires entries != []
    ensures SeedAfter(key, 0) == key
    ensures forall i :: 1 <= i < |entries| ==>
              SeedAfter((key + TextAdvKey) % 0x1_0000, i - 1) == SeedAfter(key, i) && entries[1..][i - 1] == entries[i]
  {
    forall i | 1 <= i < |entries|
      ensures SeedAfter((key + TextAdvKey) % 0x1_0000, i - 1) == SeedAfter(key, i)
    {
      SeedStep(key, i - 1);
    }
  }

  /** Decoding a list of entries succeeds exactly when every string can be
      read with its own seed `SeedAfter(key, i)`; otherwise it fails with
      `Truncated`. */
  lemma {:induction false} DecodeEntriesSucceeds(file: seq<byte>, dataBase: nat, entries: seq<Entry>, key: u16)
    ensures var r := DecodeEntries(file, dataBase, entries, key);
            r.Success? <==> forall i :: 0 <= i < |entries| ==> DecodeEntry(file, dataBase, entries[i], SeedAfter(key, i)).Some?
    ensures var r := DecodeEntries(file, dataBase, entries, key);
            r.Failure? ==> r.error == Truncated
    decreases |entries|
  {
    if entries != [] {
      DecodeEntriesSucceeds(file, dataBase, entries[1..], (key + TextAdvKey) % 0x1_0000);
      NextSeeds(entries, key);
    }
  }

  /** The first string, then the strings of the other entries with the
      key moved on. */
  lemma DecodeEntriesCons(file: seq<byte>, dataBase: nat, entries: seq<Entry>, key: u16, next: u16,
                          first: Option<TextCodec.Text>, rest: Result<seq<TextCodec.Text>, GarcError>)
    requires entries != [] && next == (key + TextAdvKey) % 0x1_0000
    requires first == DecodeEntry(file, dataBase, entries[0], key)
    requires rest == DecodeEntries(file, dataBase, entries[1..], next)
    ensures DecodeEntries(file, dataBase, entries, key).Success? <==> first.Some? && rest.Success?
    ensures DecodeEntries(file, dataBase, entries, key).Success? ==>
              DecodeEntries(file, dataBase, entries, key).value == [first.value] + rest.value
  {
  }

  /** On success string `i` is entry `i` decoded with a keystream restarted
      at `SeedAfter(key, i)`. */
  lemma {:induction false} DecodeEntriesSeeds(file: seq<byte>, dataBase: nat, entries: seq<Entry>, key: u16)
    ensures var r := DecodeEntries(file, dataBase, entries, key);
            r.Success? ==> (|r.value| == |entries| &&
              forall i :: 0 <= i < |entries| ==> Some(r.value[i]) == DecodeEntry(file, dataBase, entries[i], SeedAfter(key, i)))
    decreases |entries|
  {
    var r := DecodeEntries(file, dataBase, entries, key);
    if entries != [] && r.Success? {
      var next := (key + TextAdvKey) % 0x1_0000;
      var rest := DecodeEntries(file, dataBase, entries[1..], next);
      var first := DecodeEntry(file, dataBase, entries[0], key);
      DecodeEntriesCons(file, dataBase, entries, key, next, first, rest);
      DecodeEntriesSeeds(file, dataBase, entries[1..], next);
      NextSeeds(entries, key);
      forall i | 0 <= i < |entries|
        ensures Some(r.value[i]) == DecodeEntry(file, dataBase, entries[i], SeedAfter(key, i))
      {
        if i > 0 {
          assert r.value[i] == rest.value[i - 1];
        }
      }
    }
  }

  /** A text table decodes to one string per entry, string `i` read at its
      own offset and decoded with the seed `(0x7C89 + i * 0x2983) mod 2^16`;
      it fails, with `Truncated`, exactly when a header read or one of the
      strings comes back short. */
  lemma {:induction false} TextTableSpec(file: seq<byte>, base: nat)
    requires base + 0x14 <= |file|
    requires base + 0x14 + 8 * U16(file[base + 2..base + 4]) <= |file|
    ensures var entries := TextEntries(file, base + 0x14, U16(file[base + 2..base + 4]));
            var r := TextTable(file, base);
            (r.Success? <==> forall i :: 0 <= i < |entries| ==> DecodeEntry(file, base + 0x10, entries[i], EntrySeed(i)).Some?)
            && (r.Success? ==> (|r.value| == |entries| &&
                  forall i :: 0 <= i < |entries| ==> Some(r.value[i]) == DecodeEntry(file, base + 0x10, entries[i], EntrySeed(i))))
  {
    var entries := TextEntries(file, base + 0x14, U16(file[base + 2..base + 4]));
    DecodeEntriesSucceeds(file, base + 0x10, entries, TextBaseKey);
    DecodeEntriesSeeds(file, base + 0x10, entries, TextBaseKey);
  }

  /** Opens `file`: `GARCFile(filename)`, which builds the index or raises. */
  method Open(file: seq<byte>) returns (r: Result<GarcFile, GarcError>)
    ensures r.Success? <==> ParseIndex(file).Success?
    ensures r.Failure? ==> ParseIndex(file) == Failure(r.error)
    ensures r.Success? ==> fresh(r.value) && r.value.file == file && r.value.Valid()
  {
    var g := new GarcFile(file);
    var err := g.SetOffsets();
    if err.Some? {
      return Failure(err.value);
    }
    assert g.recordDescriptors == ParseIndex(file).value.descriptors;
    return Success(g);
  }

  class GarcFile {
    const file: seq<byte>
    var fatoOffset: nat
    var fatbOffset: nat
    var fimbOffset: nat
    var nRecords: nat
    var recordDescriptors: seq<Descriptor>
    var dataSegmentOffset: nat

    function CurrentIndex(): Index
      reads this
    {
      Index(fatoOffset, fatbOffset, fimbOffset, nRecords, recordDescriptors, dataSegmentOffset)
    }

    /** The fields hold the index the file describes. */
    ghost predicate Valid()
      reads this
    {
      ParseIndex(file) == Success(CurrentIndex())
    }

    constructor (file: seq<byte>)
      ensures this.file == file && recordDescriptors == []
    {
      this.file := file;
      recordDescriptors := [];
    }

    /** Reads the header sections in order, checking each tag, and appends
        one descriptor per record to `recordDescriptors`. On success the
        offsets are those of `ParseIndex`; on failure the error is its error. */
    method SetOffsets() returns (err: Option<GarcError>)
      modifies this
      ensures err.None? <==> ParseIndex(file).Success?
      ensures err.Some? ==> ParseIndex(file) == Failure(err.value)
      ensures err.None? ==>
                var ix := ParseIndex(file).value;
                fatoOffset == ix.fatoOffset && fatbOffset == ix.fatbOffset && fimbOffset == ix.fimbOffset
                && nRecords == ix.nRecords && dataSegmentOffset == ix.dataSegmentOffset
                && recordDescriptors == old(recordDescriptors) + ix.descriptors
    {
      var magic := Read(file, 0, 4);
      if magic != Magic {
        return Some(BadMagic(Container, 0, magic));
      }
      var word := UnpackU32(Read(file, 4, 4));
      if word.None? {
        assert ParseIndex(file) == Failure(Truncated);
        return Some(Truncated);
      }
      var fato := word.value;
      fatoOffset := fato;
      assert ParseIndex(file) == FromOffsetTable(file, fato);

      var hdr := Read(file, fato, 4);
      if hdr != FatoTag {
        assert FromOffsetTable(file, fato) == Failure(BadMagic(OffsetTable, fato, hdr));
        return Some(BadMagic(OffsetTable, fato, hdr));
      }
      word := UnpackU32(Read(file, fato + 4, 4));
      if word.None? {
        assert FromOffsetTable(file, fato) == Failure(Truncated);
        return Some(Truncated);
      }
      var fatb := fato + word.value;
      fatbOffset := fatb;
      OffsetTableRead(file, fato, word.value);
      err := SetLengthTable(fato, fatb);
      if err.None? {
        LengthTableStage(file, fato, fatb, FromLengthTable(file, fato, fatb).value);
      }
    }

    /** The second half of `set_offsets`: the length table at `fatb`, its
        descriptors, then the data section. */
    method SetLengthTable(fato: nat, fatb: nat) returns (err: Option<GarcError>)
      modifies this
      ensures fatoOffset == old(fatoOffset) && fatbOffset == old(fatbOffset)
      ensures err.None? <==> FromLengthTable(file, fato, fatb).Success?
      ensures err.Some? ==> FromLengthTable(file, fato, fatb) == Failure(err.value)
      ensures err.None? ==>
                var ix := FromLengthTable(file, fato, fatb).value;
                fimbOffset == ix.fimbOffset && nRecords == ix.nRecords && dataSegmentOffset == ix.dataSegmentOffset
                && recordDescriptors == old(recordDescriptors) + ix.descriptors
    {
      var hdr := Read(file, fatb, 4);
      if hdr != FatbTag {
        return Some(BadMagic(LengthTable, fatb, hdr));
      }
      var words := Read(file, fatb + 4, 8);
      if |words| != 8 {
        return Some(Truncated);
      }
      var fimb, n := fatb + U32(words[..4]), U32(words[4..]);
      fimbOffset, nRecords := fimb, n;

      var ok := ReadDescriptors(fatb + 12, n);
      if !ok {
        return Some(Truncated);
      }
      LengthTableRead(file, fato, fatb, words);

      hdr := Read(file, fimb, 4);
      if hdr != FimbTag {
        return Some(BadMagic(DataSection, fimb, hdr));
      }
      var half := UnpackU16(Read(file, fimb + 4, 2));
      if half.None? {
        return Some(Truncated);
      }
      dataSegmentOffset := fimb + half.value;
      return None;
    }

    /** The loop over the length table: one 16-byte descriptor after the
        other from `start`, appended to `recordDescriptors`; it stops with
        `false` at the first short read. */
    method ReadDescriptors(start: nat, n: nat) returns (ok: bool)
      modifies this`recordDescriptors
      ensures ok <==> n == 0 || start + 16 * n <= |file|
      ensures ok ==> recordDescriptors == old(recordDescriptors) + Descriptors(file, start, n)
    {
      var pos, k := start, 0;
      while k < n
        invariant 0 <= k <= n
        invariant pos == start + 16 * k && (k == 0 || pos <= |file|)
        invariant recordDescriptors == old(recordDescriptors) + Descriptors(file, start, k)
      {
        var entry := Read(file, pos, 16);
        if |entry| != 16 {
          return false;
        }
        recordDescriptors := recordDescriptors + [DescriptorOf(entry)];
        pos, k := pos + 16, k + 1;
      }
      return true;
    }

    /** `record_iterator`: one slice per descriptor, in descriptor order,
        each read at its own start whether or not records are contiguous. A
        record that lies inside the file comes back whole. */
    method Records() returns (records: seq<seq<byte>>)
      ensures |records| == |recordDescriptors|
      ensures forall k :: 0 <= k < |records| ==> records[k] == RecordBytes(file, dataSegmentOffset, recordDescriptors[k])
      ensures forall k :: 0 <= k < |records| ==>
                var d := recordDescriptors[k];
                dataSegmentOffset + d.start + d.size <= |file| ==>
                  records[k] == file[dataSegmentOffset + d.start..dataSegmentOffset + d.start + d.size]
    {
      records := [];
      var k := 0;
      while k < |recordDescriptors|
        invariant 0 <= k <= |recordDescriptors|
        invariant |records| == k
        invariant forall j :: 0 <= j < k ==> records[j] == RecordBytes(file, dataSegmentOffset, recordDescriptors[j])
      {
        var d := recordDescriptors[k];
        records := records + [Read(file, dataSegmentOffset + d.start, d.size)];
        k := k + 1;
      }
    }

    /** `mini_iterator(n)`: the sub-records of record `n` read as a
        mini-archive. */
    method MiniRecords(n: nat) returns (r: Result<seq<seq<byte>>, GarcError>)
      ensures n >= |recordDescriptors| ==> r == Failure(NoSuchRecord(n))
      ensures n < |recordDescriptors| ==> r == MiniArchive(file, dataSegmentOffset + recordDescriptors[n].start)
    {
      if n >= |recordDescriptors| {
        return Failure(NoSuchRecord(n));
      }
      var base := dataSegmentOffset + recordDescriptors[n].start;
      var header := Read(file, base, 4);
      if |header| != 4 {
        return Failure(Truncated);
      }
      var length := U16(header[2..]);
      assert header[2..] == file[base + 2..base + 4];
      var offsets := ReadOffsets(base + 4, length + 1);
      if offsets.None? {
        return Failure(Truncated);
      }
      var chunks := ReadChunks(base + 4 + 4 * (length + 1), offsets.value);
      return Success(chunks);
    }

    /** The offsets loop of `mini_iterator`: `count` entries of four bytes
        from `pos`, keeping the first half of each; `None` at the first
        short read. */
    method ReadOffsets(pos: nat, count: nat) returns (offsets: Option<seq<nat>>)
      ensures offsets.Some? <==> count == 0 || pos + 4 * count <= |file|
      ensures offsets.Some? ==> offsets.value == MiniOffsets(file, pos, count)
    {
      var column: seq<nat> := [];
      var p, i := pos, 0;
      while i < count
        invariant 0 <= i <= count
        invariant p == pos + 4 * i && (i == 0 || p <= |file|)
        invariant column == MiniOffsets(file, pos, i)
      {
        var entry := Read(file, p, 4);
        if |entry| != 4 {
          return None;
        }
        column := column + [U16(entry[..2])];
        p, i := p + 4, i + 1;
      }
      return Some(column);
    }

    /** The chunks loop of `mini_iterator`: each chunk is read right after
        the previous one, `offsets[r + 1] - offsets[r]` bytes long. */
    method ReadChunks(pos: nat, offsets: seq<nat>) returns (chunks: seq<seq<byte>>)
      ensures chunks == ReadSequential(file, pos, offsets)
    {
      chunks := [];
      if |offsets| < 2 {
        return;
      }
      var p: nat, r := pos, 0;
      ChunkLoopStart(file, pos, offsets);
      while r < |offsets| - 1
        invariant 0 <= r <= |offsets| - 1
        invariant chunks + ReadSequential(file, p, offsets[r..]) == ReadSequential(file, pos, offsets)
      {
        var chunk := Read(file, p, offsets[r + 1] as int - offsets[r]);
        ChunkLoopStep(file, p, offsets, r, chunks, chunk);
        chunks := chunks + [chunk];
        p, r := p + |chunk|, r + 1;
      }
    }

    /** `text_iterator(n)`: the decoded strings of record `n` read as a text
        table. */
    method Texts(n: nat) returns (r: Result<seq<TextCodec.Text>, GarcError>)
      ensures n >= |recordDescriptors| ==> r == Failure(NoSuchRecord(n))
      ensures n < |recordDescriptors| ==> r == TextTable(file, dataSegmentOffset + recordDescriptors[n].start)
    {
      if n >= |recordDescriptors| {
        return Failure(NoSuchRecord(n));
      }
      var start := recordDescriptors[n].start;
      var base := dataSegmentOffset + start;
      var header := Read(file, base, 0x10);
      if |header| != 0x10 {
        return Failure(Truncated);
      }
      var count := U16(header[2..4]);
      assert header[2..4] == file[base + 2..base + 4];
      var totalLength := UnpackU32(Read(file, base + 0x10, 4));
      if totalLength.None? {
        return Failure(Truncated);
      }
      var entries := ReadEntries(base + 0x14, count);
      if entries.None? {
        return Failure(Truncated);
      }
      r := DecodeAll(base + 0x10, entries.value);
    }

    /** The entries loop of `text_iterator`: `count` entries of eight bytes
        from `pos`; `None` at the first short read. */
    method ReadEntries(pos: nat, count: nat) returns (entries: Option<seq<Entry>>)
      ensures entries.Some? <==> count == 0 || pos + 8 * count <= |file|
      ensures entries.Some? ==> entries.value == TextEntries(file, pos, count)
    {
      var found: seq<Entry> := [];
      var p, i := pos, 0;
      while i < count
        invariant 0 <= i <= count
        invariant p == pos + 8 * i && (i == 0 || p <= |file|)
        invariant found == TextEntries(file, pos, i)
      {
        var entry := Read(file, p, 8);
        if |entry| != 8 {
          return None;
        }
        found := found + [EntryOf(entry)];
        p, i := p + 8, i + 1;
      }
      return Some(found);
    }

    /** The decoding loop of `text_iterator`: each string read at its own
        offset from `dataBase` and decoded, the key advancing by
        `TextAdvKey` modulo 2^16 after each. */
    method DecodeAll(dataBase: nat, entries: seq<Entry>) returns (r: Result<seq<TextCodec.Text>, GarcError>)
      ensures r == DecodeEntries(file, dataBase, entries, TextBaseKey)
    {
      var key: u16 := TextBaseKey;
      var texts: seq<TextCodec.Text> := [];
      var i := 0;
      DecodeLoopStart(file, dataBase, entries, key);
      while i < |entries|
        invariant 0 <= i <= |entries|
        invariant DecodeEntries(file, dataBase, entries, TextBaseKey)
                  == Prepend(texts, DecodeEntries(file, dataBase, entries[i..], key))
      {
        var decoded := DecodeEntry(file, dataBase, entries[i], key);
        DecodeLoopStep(file, dataBase, entries, i, key, texts);
        if decoded.None? {
          return Failure(Truncated);
        }
        texts := texts + [decoded.value];
        key := (key + TextAdvKey) % 0x1_0000;
        i := i + 1;
      }
      DecodeLoopEnd(file, dataBase, entries, key, texts);
      return Success(texts);
    }
  }

  /** The decoding loop starts with nothing decoded and every entry to go. */
  lemma DecodeLoopStart(file: seq<byte>, dataBase: nat, entries: seq<Entry>, key: u16)
    ensures DecodeEntries(file, dataBase, entries, key) == Prepend([], DecodeEntries(file, dataBase, entries[0..], key))
  {
    assert entries[0..] == entries;
    PrependNothing(DecodeEntries(file, dataBase, entries, key));
  }

  /** One turn of the decoding loop: a short read ends the whole table with
      `Truncated`; otherwise the string joins those already decoded and the
      key moves on. */
  lemma DecodeLoopStep(file: seq<byte>, dataBase: nat, entries: seq<Entry>, i: nat, key: u16, texts: seq<TextCodec.Text>)
    requires i < |entries|
    ensures var decoded := DecodeEntry(file, dataBase, entries[i], key);
            var now := Prepend(texts, DecodeEntries(file, dataBase, entries[i..], key));
            (decoded.None? ==> now == Failure(Truncated))
            && (decoded.Some? ==>
                  now == Prepend(texts + [decoded.value], DecodeEntries(file, dataBase, entries[i + 1..], (key + TextAdvKey) % 0x1_0000)))
  {
    DecodeEntriesStep(file, dataBase, entries[i..], key);
    assert entries[i..][1..] == entries[i + 1..];
    var decoded := DecodeEntry(file, dataBase, entries[i], key);
    if decoded.Some? {
      PrependTwice(texts, [decoded.value], DecodeEntries(file, dataBase, entries[i + 1..], (key + TextAdvKey) % 0x1_0000));
    }
  }

  /** When every entry is decoded the loop's result is the whole table. */
  lemma DecodeLoopEnd(file: seq<byte>, dataBase: nat, entries: seq<Entry>, key: u16, texts: seq<TextCodec.Text>)
    ensures Prepend(texts, DecodeEntries(file, dataBase, entries[|entries|..], key)) == Success(texts)
  {
    assert entries[|entries|..] == [];
    assert texts + [] == texts;
  }

  /** One step of `DecodeEntries`: the first string, then the rest. */
  lemma DecodeEntriesStep(file: seq<byte>, dataBase: nat, entries: seq<Entry>, key: u16)
    requires entries != []
    ensures DecodeEntries(file, dataBase, entries, key) ==
              match DecodeEntry(file, dataBase, entries[0], key)
              case None => Failure(Truncated)
              case Some(text) => Prepend([text], DecodeEntries(file, dataBase, entries[1..], (key + TextAdvKey) % 0x1_0000))
  {
  }

  /** Prepending nothing changes nothing. */
  lemma PrependNothing(r: Result<seq<TextCodec.Text>, GarcError>)
    ensures Prepend([], r) == r
  {
    if r.Success? {
      assert [] + r.value == r.value;
    }
  }

  /** Prepending twice is prepending the joined texts. */
  lemma PrependTwice(a: seq<TextCodec.Text>, b: seq<TextCodec.Text>, r: Result<seq<TextCodec.Text>, GarcError>)
    ensures Prepend(a, Prepend(b, r)) == Prepend(a + b, r)
  {
    if r.Success? {
      assert a + (b + r.value) == (a + b) + r.value;
    }
  }

  /** The texts in front of a successful result; a failure stays a
      failure. */
  function Prepend(texts: seq<TextCodec.Text>, r: Result<seq<TextCodec.Text>, GarcError>): Result<seq<TextCodec.Text>, GarcError>
  {
    match r
    case Failure(e) => Failure(e)
    case Success(rest) => Success(texts + rest)
  }
}
