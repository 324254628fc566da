# GARC archive decoder, modelled in Dafny

This project models the read-only decoder of the GARC packed-archive format.
The format is used by the Pokémon Sun/Moon game data (romfs `a/0/1/*`,
`a/0/3/*`). The model also covers the byte-level record decoders that build
the species, move, level-up, egg-move, evolution and learnset tables. An
archive is its contents, a sequence of bytes. Every `seek` followed by `read`
becomes a slice at an absolute offset: it is clamped at the end of the file as
Python's `read` is. Every `struct.unpack` becomes a little-endian reader that
fails on a short read.

Modules (one per file):

- `Binary` (`binary.dfy`): bytes, the clamped `Read`, `'<H'`/`'<I'` readers and
  their round trip, and arithmetic used by the bit-group proofs.
- `TextCodec` (`textcodec.dfy`): the text keystream (16-bit rotate-left by 3),
  XOR decryption, NUL stripping and the two gender-sign substitutions.
- `Garc` (`garc.dfy`):
  - opening an archive: the four tagged sections, the descriptors and the
    data-segment base. It is a functional specification `ParseIndex` plus the
    class `GarcFile`, whose `SetOffsets` fills its fields the way
    `_set_offsets` does.
  - `record_iterator`, `mini_iterator` and `text_iterator`, as methods of
    `GarcFile` proved against functions of the file.
- `Fields` (`fields.dfy`): the declarative record decoder: `fields_to_fmt`,
  `struct.unpack` of the resulting layout, `split_field`, `replace`,
  `fill_none` and `to_record`.
- `Schemas` (`schemas.dfy`): the `personal` (0x54 bytes) and `move`
  (0x28 bytes) record descriptors, and what decoding them gives.
- `Tables` (`tables.dfy`): `flag_field`, `check`, `checks`, the length filter
  on species records, the `type2` fix, and the level-up, egg-move, evolution
  and learnset loops of the table builder.

Details of the code that the model keeps:

- The text header is read as `'<2H3I'`, which is 16 bytes, and then one more
  4-byte word. The entry table therefore starts 0x14 bytes into the record; the
  string data is addressed from 0x10.
- `strip("\x00")` removes NULs at both ends of a decoded string.
- A record whose length differs from the schema's size makes `struct.unpack`
  fail. `to_record` therefore fails on it (`SizeMismatch`) even when every field
  lies inside the record.
- The keystream returns to its seed after 16 steps for every seed. Seeds 0x0000
  and 0xFFFF are fixed points of the rotation, so their keystream is constant.

## Model

| member | source | states |
|---|---|---|
| Binary.Read | util.py:59-62 | `seek(pos); read(n)` returns exactly `file[pos..pos+n]` when that is in the file, fewer bytes exactly when it runs past the end, and the rest of the file for a negative count |
| Binary.UnpackU16 | util.py:54 | `'<H'` succeeds exactly on two bytes |
| Binary.UnpackU32 | util.py:28 | `'<I'` succeeds exactly on four bytes and gives a value below 2^32 |
| Binary.U16RoundTrip | make_tables.py:118 | packing and unpacking a little-endian half-word are inverse to each other, in both directions |
| TextCodec.Rotate | util.py:15 | `((x<<3)&0xFFFF)\|(x>>13)` is the 16-bit rotate-left by 3 |
| TextCodec.KeyAtShift | util.py:12-15 | `i + j` steps of the keystream are `j` steps from the key reached after `i` |
| TextCodec.FullTurn | util.py:12-15 | sixteen rotations bring every key back to itself |
| TextCodec.KeyPeriod | util.py:12-15 | the keystream starts at its seed and repeats with period 16 |
| TextCodec.Crypt | util.py:94-96 | XOR with the keystream keeps the length |
| TextCodec.CryptInvolution | util.py:94-96 | XOR with the same keystream twice gives back the code units |
| TextCodec.LeadingNuls | util.py:96 | counts exactly the NULs at the start |
| TextCodec.WithoutTrailingNuls | util.py:96 | everything from the returned position on is NUL, and the unit before it is not |
| TextCodec.StripNuls | util.py:96 | `strip("\x00")` keeps one contiguous slice that starts and ends with a non-NUL, and everything removed is NUL |
| TextCodec.StripNulsKeeps | util.py:96 | a string with no NUL at either end is unchanged |
| TextCodec.FixSymbol | util.py:98-101 | every code unit other than 0xE08F and 0xE08E is left unchanged |
| TextCodec.FixSymbols | util.py:98-101 | `translate` keeps the length and maps each unit on its own |
| TextCodec.Decode | util.py:94-101 | decoding a string never lengthens it |
| TextCodec.DecodeRoundTrip | util.py:94-101 | a string with no NUL at its ends and no private-use sign codes, encrypted with any seed, decodes back to itself |
| Garc.ParseIndex | util.py:24-26 | a file whose first four bytes are not `CRAG` is refused with `BadMagic` at offset 0 |
| Garc.TagRead | util.py:31-32 | a 4-byte read equals a tag exactly when four bytes are there and are the tag |
| Garc.DataSectionStage | util.py:50-55 | the data-section stage succeeds exactly on an index whose `BMIF` tag and base half-word are in the file; a failure names what is wrong |
| Garc.DescriptorsAre | util.py:46-48 | the descriptors list is exactly one `(start, size)` per 16-byte entry, from bytes 4..8 and 12..14 of the entry |
| Garc.LengthTableWords | util.py:43-44 | past the `BTAF` tag, `fimb = fatb + u32` and `n_records` are the next two words |
| Garc.OffsetTableRead | util.py:24-36 | after `CRAG` and `OTAF`, opening continues at `fatb = fato + u32` |
| Garc.LengthTableRead | util.py:38-48 | the length-table stage reads `fimb`, `n_records` and then `n_records` descriptors |
| Garc.LengthTableStage | util.py:38-55 | the stage from `BTAF` on succeeds exactly on an index the length table and the data section describe |
| Garc.LengthTableCounted | util.py:43-55 | the same, once the tag and both words are present |
| Garc.LengthTableErrors | util.py:38-55 | every failure past the offset table is a tag mismatch found in the file or a truncation |
| Garc.OffsetTableStage | util.py:30-55 | the stage from `OTAF` on succeeds exactly on an index the last three sections describe; a failure names what is wrong |
| Garc.OffsetTableFound | util.py:35-36 | the same, once the tag and its word are present |
| Garc.OffsetTableNext | util.py:35-36 | `fatb_offset = fato_offset + u32` |
| Garc.ParseIndexCharacterised | util.py:22-55 | opening succeeds with an index exactly when all four tags match and the offsets, count, descriptors and data base are the ones the file holds; every failure is `Truncated` or a tag mismatch that carries the four bytes found where the tag should be |
| Garc.ParseIndexTruncated | util.py:22-55 | opening fails with `Truncated` exactly when the file is cut short along the chain: every tag reached matches, and a read after the last one (an offset word, the length-table words, the descriptors or the data base) runs past the end |
| Garc.OffsetTableTruncated | util.py:30-55 | the stage from `OTAF` on fails with `Truncated` exactly when its word or a later section is cut short |
| Garc.LengthTableTruncated | util.py:38-55 | the stage from `BTAF` on fails with `Truncated` exactly when its two words, its descriptors or the data section are cut short |
| Garc.DataSectionTruncated | util.py:50-55 | the `BMIF` stage fails with `Truncated` exactly when the tag is there and the base half-word is not |
| Garc.ReachOffsetTable | util.py:24-30 | a good container header leads to the offset table |
| Garc.ReachLengthTable | util.py:30-38 | a good offset table leads to the length table |
| Garc.ReachDataSection | util.py:38-50 | a good length table leads to the data section |
| Garc.ContainerKept | util.py:24-28 | a byte changed outside the container header leaves it intact |
| Garc.OffsetTableKept | util.py:30-36 | a byte changed outside the offset table leaves it intact |
| Garc.LengthTableKept | util.py:38-48 | a byte changed outside the length table leaves it intact |
| Garc.TagBroken | util.py:24-53 | changing a tag's first byte makes the tag read differ |
| Garc.CorruptedTagRejected | util.py:24-53 | in a well-formed archive whose sections do not overlap, corrupting any one of the four tags makes opening fail with `BadMagic` for that section, at that offset, with the bytes found |
| Garc.MiniOffsets | util.py:70-73 | one offset per 4-byte entry of the mini-archive header |
| Garc.ReadSequential | util.py:74-76 | one chunk per consecutive pair of offsets |
| Garc.MiniArchive | util.py:64-76 | `mini_iterator` fails only by truncation of its header, and exactly then; on success it yields `length` chunks |
| Garc.SequentialChunks | util.py:74-76 | with non-decreasing offsets inside the file, chunk `r` is the bytes from `offsets[r]` to `offsets[r+1]` relative to the end of the header |
| Garc.SequentialChunk | util.py:74-76 | the same for one chunk `r`, whose bounds lie between the first and last offsets |
| Garc.SequentialIsContiguous | util.py:74-76 | the chunks, joined, are exactly the `offsets[last] - offsets[0]` bytes after the header |
| Garc.ChunkLoopStep | util.py:74-76 | one turn of the chunks loop moves the next chunk from the part still to be read to the part read |
| Garc.TextEntries | util.py:85-88 | one `(offset, length)` entry per 8 bytes of the text header |
| Garc.Units | util.py:94 | `length` code units from `2·length` bytes |
| Garc.SeedStep | util.py:103 | adding `0x2983` modulo 2^16 once more is one more step of the entry seed |
| Garc.NextSeeds | util.py:91-103 | the seed of entry `i` seen from the next entry is the seed of entry `i+1` |
| Garc.DecodeEntriesSucceeds | util.py:92-103 | the text table decodes exactly when every entry's code units are in the file, and otherwise fails with `Truncated` |
| Garc.DecodeEntriesCons | util.py:92-103 | the strings are the first one followed by the others, decoded with the key moved on |
| Garc.DecodeEntriesSeeds | util.py:91-103 | string `i` is entry `i` decoded with the keystream restarted at `key + i·0x2983` modulo 2^16 |
| Garc.TextTableSpec | util.py:78-103 | when its header and entry table are in the file, a text table decodes to one string per entry, string `i` at its own offset with seed `(0x7C89 + i·0x2983) & 0xFFFF`; it fails exactly when a string comes back short |
| Garc.Open | util.py:17-20 | constructing `GARCFile` succeeds exactly when the file's index parses, and the object then holds that index |
| Garc.GarcFile.constructor | util.py:17-19 | a new object holds the file and no descriptors |
| Garc.GarcFile.SetOffsets | util.py:22-55 | `_set_offsets` succeeds exactly when the file parses; it then sets `fato_offset`, `fatb_offset`, `fimb_offset`, `n_records` and `data_segment_offset` to the index's values and appends its descriptors; on failure it reports the parser's error |
| Garc.GarcFile.SetLengthTable | util.py:38-55 | the second half of `_set_offsets`, with the same contract for the length table on |
| Garc.GarcFile.ReadDescriptors | util.py:46-48 | the descriptor loop appends exactly the descriptors stored after the length-table header, or fails when they run past the end |
| Garc.GarcFile.Records | util.py:57-62 | `record_iterator` yields one slice per descriptor, slice `k` being `data_segment_offset + start_k` for `size_k` bytes, whether or not the records are contiguous |
| Garc.GarcFile.MiniRecords | util.py:64-76 | `mini_iterator(n)` on record `n` is the mini-archive there; an index past the descriptors fails with `NoSuchRecord` |
| Garc.GarcFile.ReadOffsets | util.py:70-73 | the offsets loop reads `length + 1` offsets, or fails when they run past the end |
| Garc.GarcFile.ReadChunks | util.py:74-76 | the chunks loop reads the chunks `ReadSequential` describes |
| Garc.GarcFile.Texts | util.py:78-103 | `text_iterator(n)` on record `n` is the text table there; an index past the descriptors fails with `NoSuchRecord` |
| Garc.GarcFile.ReadEntries | util.py:85-88 | the entries loop reads `count` 8-byte entries, or fails when they run past the end |
| Garc.GarcFile.DecodeAll | util.py:91-103 | the decoding loop, with its running key, gives the strings `DecodeEntries` describes |
| Garc.DecodeLoopStep | util.py:91-103 | one turn of the decoding loop either fails on a short string or appends it and advances the key |
| Fields.LayoutFrom | util.py:132-139 | one padding and one value item per field |
| Fields.LayoutItems | util.py:132-139 | item `2k+1` is field `k`'s format, and the padding before it is its offset minus where the previous field ends |
| Fields.FieldsToFmt | util.py:132-139 | the `fields_to_fmt` loop builds exactly that layout |
| Fields.LayoutLoopStep | util.py:135-138 | one turn of that loop moves field `i` to the layout built so far |
| Fields.LayoutOfAscending | util.py:132-139 | for ascending, non-overlapping fields every padding is non-negative, the total size is where the last field ends, and there is one value per field |
| Fields.OverlapIsBadFormat | util.py:136-137 | a field that starts before the previous one ends produces a negative padding count |
| Fields.Unpack | util.py:143 | `struct.unpack` succeeds exactly on a valid layout and a record of its size; it gives one value per value item |
| Fields.ReadAtOffsets | util.py:142-143 | unpacking the layout reads each field at its own offset |
| Fields.UnpackSchema | util.py:142-143 | for an ascending schema, unpacking gives each field's value read at its offset when the record has the schema's size, and fails with `SizeMismatch` otherwise |
| Fields.Groups | util.py:120-130 | `count` groups, each below `2^width` |
| Fields.SplitField | util.py:120-130 | the `split_field` loop gives `8·calcsize(form) // width` groups of `width` bits, least significant first |
| Fields.RecombineGroups | util.py:120-130 | summing the groups shifted back gives `bs` modulo `2^(width·count)` |
| Fields.SplitRoundTrip | util.py:120-130 | when `width` divides the format's bit size and `bs` fits in it, recombining the groups gives back `bs` |
| Fields.ReplaceAndFillNone | util.py:112-118 | `replace` maps a key in the table to its value and leaves every other value unchanged; `fill_none` maps only 0 to `None` |
| Fields.SignSplitParts | util.py:237-238 | the drain/recoil split gives two non-negative values, at most one of them nonzero, whose difference is the signed byte |
| Fields.Iterate | util.py:150 | only a sequence value can be zipped with the packed field's names |
| Fields.NamedPairs | util.py:150-151 | `zip` stops at the shorter side, and every name it emits is a name of the field; its exact content and order are stated by `Fields.NamedPairsAt` |
| Fields.NamedPairsAt | util.py:150-151 | the entries are exactly one per present name among the first `min(len(names), len(items))`, in order: the entry for name `i` is `(names[i], items[i])`, at position "number of present names before `i`" |
| Fields.NamedPairsCons | util.py:150-151 | the first name's entry, if it is not `None`, comes before the entries of the rest |
| Fields.NamedPairsCount | util.py:150-151 | there is one entry per present name among the first `min(len(names), len(items))` |
| Fields.NamedPairAt | util.py:150-151 | a present name `i` that has an item has its entry `(names[i], items[i])` at position "number of present names before `i`" |
| Fields.NamedPairsAppend | util.py:150-151 | zipping two stretches of names with two stretches of items of equal length zips each in turn |
| Fields.NamedPairsWithout | util.py:150-151 | no entry carries a name that is not among the names |
| Fields.NamedPairsAround | util.py:150-151 | the entries split around name `i`: the entries before it, `(names[i], items[i])`, the entries after it; none after it has its name when no later name repeats it |
| Fields.Contribute | util.py:145-153 | a field without identifier contributes nothing; an unpacked named field without transform contributes its raw value; a packed field without a transform fails; the packed case with a transform is stated by `Fields.ContributePacked` |
| Fields.ContributePacked | util.py:149-151 | a packed field with a transform succeeds exactly when the transform does and its result can be iterated, and then contributes the names zipped with the result's items, `None` names left out |
| Fields.ContributionAround | util.py:145-153 | the entries of a run split around any field: those before it, its own contribution, those after it |
| Fields.ToRecord | util.py:141-154 | the `to_record` loop that fills the dictionary gives `Decode` |
| Fields.FillAppend | util.py:150-153 | updating the dictionary with two lists of entries in turn is updating it with both |
| Fields.FillKeys | util.py:150-153 | the keys afterwards are the old keys plus the new names; an untouched key keeps its value |
| Fields.FillUnique | util.py:150-153 | a name written once ends up with its value |
| Fields.CollectIsFill | util.py:144-154 | the dictionary loop fails on the first failing field and otherwise fills the dictionary with all entries in order |
| Fields.DecodeSchema | util.py:141-154 | for an ascending schema, a record of the wrong size is a `SizeMismatch`; otherwise the result is the dictionary filled with all fields' entries, and a name that occurs once maps to its entry's value |
| Fields.OverlapRefused | util.py:136-143 | decoding with overlapping fields fails with a bad format |
| Fields.AscendingJoin | util.py:157-251 | two ascending runs, the second starting where the first ends, form one ascending run |
| Fields.DecodableJoin | util.py:157-251 | two runs of decodable fields form one |
| Fields.ContributeSucceeds | util.py:145-153 | a decodable field given a value of its format contributes without failure |
| Fields.AllPairsSucceeds | util.py:145-153 | so does a whole run of decodable fields |
| Fields.FieldValuesFit | util.py:143 | every value read from a field's bytes is of that field's format |
| Fields.DecodeSucceeds | util.py:141-154 | a decodable ascending schema decodes a record exactly when the record has the schema's size |
| Fields.ContributeNames | util.py:145-153 | a field's entries carry only its own names |
| Fields.AllPairsNames | util.py:145-153 | every entry's name belongs to some field |
| Fields.AllPairsAppend | util.py:145-153 | the entries of two consecutive runs are those of the first followed by those of the second |
| Fields.PairsAround | util.py:145-153 | the entries split around a named unpacked field: before it, its own `(name, transform(value))`, after it |
| Fields.FillLast | util.py:153 | the last write of a name wins |
| Fields.DecodeIsFill | util.py:141-154 | a record of the right size for a decodable ascending schema decodes to the dictionary filled with all entries |
| Fields.NotNamedAfter | util.py:145-153 | when no field after field `k` uses `name`, no entry after field `k`'s contribution has it |
| Fields.DecodeField | util.py:141-154 | a named unpacked field whose name no later field uses maps to its transformed value, read at its offset |
| Fields.DecodePacked | util.py:141-154 | in a decodable ascending schema, name `i` of a packed field whose later names and later fields do not reuse it maps to item `i` of the transform applied to the field's value, read at its offset |
| Fields.DecodeFieldAt | util.py:141-154 | the same, for a schema written as the fields before, the field and the fields after |
| Fields.UnnamedJoin | util.py:145-153 | a name unused in two runs is unused in both together |
| Schemas.PersonalShape | util.py:158-219 | the personal schema ascends without overlap, ends at 0x54, and every field decodes whatever its bytes |
| Schemas.MoveShape | util.py:221-250 | the move schema ascends without overlap, ends at 0x28, and every field decodes whatever its bytes |
| Schemas.PersonalDecodes | util.py:257 | `to_record(personal, r)` succeeds exactly for 0x54-byte records, the length the records are filtered by; any other length is a `SizeMismatch(0x54, len)` |
| Schemas.MoveDecodes | util.py:221-250 | `to_record(move, r)` succeeds exactly for 0x28-byte records |
| Schemas.PersonalHeight | util.py:211 | a species' `height` is the half-word at 0x24 over 100 |
| Schemas.PersonalEffort | util.py:169-175 | effort value `i` (`ev_hp` … `ev_spd`) of a species is `(h >> 2i) & 3` for the little-endian half-word `h` at 0x0a, as `split_field("H", 2)` (util.py:120-130) cuts it |
| Schemas.EvsNotLater | util.py:176-219 | no field after the packed effort values reuses one of their names |
| Schemas.MoveCategory | util.py:224 | a move's `category` is the byte at 0x02 named by the category table, or the number itself when the table lacks it |
| Tables.SetBits | make_tables.py:179-185 | the 0-based indices below `n` whose bit is set, in strictly ascending order, and no others |
| Tables.Checks | make_tables.py:183-185 | `checks` yields exactly the set bits among the first `8·calcsize(fmt)`, in ascending order |
| Tables.FlagField | make_tables.py:63-71 | `flag_field(bts, n)` returns exactly the numbers `k+1` in [1, n] whose bit `k` is set, in strictly ascending order; this is `checks` counted from one |
| Tables.LevelUp | make_tables.py:105-109 | each level-up row carries the record's species index |
| Tables.PairShift | make_tables.py:106 | dropping the first four bytes shifts the pairs down by one |
| Tables.LevelUpStops | make_tables.py:105-109 | the level-up rows are the record's leading pairs, in order, none of them `(0xFFFF, 0xFFFF)`, and they end only at such a pair or at the end of the record; a pair with just one half 0xFFFF is kept |
| Tables.ParseLevelUp | make_tables.py:106-109 | the inner loop with its `break` gives exactly those rows |
| Tables.LevelUpStep | make_tables.py:106-109 | one turn of that loop either meets the terminator, and no rows remain, or emits the pair |
| Tables.AfterHeader | make_tables.py:118 | `data[4:]` is everything after the first four bytes, and empty for a shorter record |
| Tables.MoveList | make_tables.py:118-119 | each egg-move row carries the species index |
| Tables.EggMovesRoundTrip | make_tables.py:117-119 | a record of any 4-byte header followed by encoded moves parses to exactly those moves, in order |
| Tables.MoveListRoundTrip | make_tables.py:118-119 | the same without the header |
| Tables.ParseEggMoves | make_tables.py:118-119 | the inner egg-move loop gives exactly `EggMoves` |
| Tables.MoveListStep | make_tables.py:118-119 | one turn of that loop emits the next half-word |
| Tables.EncodeEvolution | make_tables.py:130 | the `'<3H2B'` packing is 8 bytes |
| Tables.EvolutionRoundTrip | make_tables.py:130 | `'<3H2B'` unpacking and packing are inverse to each other, in both directions |
| Tables.Evolutions | make_tables.py:127-139 | each evolution row carries the species index |
| Tables.EvolutionsRoundTrip | make_tables.py:127-139 | parsing the encoded entries keeps exactly those whose method is nonzero, unchanged and in order |
| Tables.ParseEvolutions | make_tables.py:128-139 | the inner evolution loop gives exactly `Evolutions` |
| Tables.EvolutionsStep | make_tables.py:128-139 | one turn of that loop moves the next entry, if kept, to the rows emitted |
| Tables.RecordRows | make_tables.py:105-139 | every row a record contributes carries that record's species index |
| Tables.TableRows | make_tables.py:105-139 | a row is in a table exactly when its species indexes a record and the row is one that record contributes |
| Tables.ParseRecord | make_tables.py:105-139 | the inner loop for one record, whichever the archive, gives `RecordRows` |
| Tables.BuildTable | make_tables.py:105-139 | `for idx, data in enumerate(records)` gives `Table`: the records' rows in record order |
| Tables.PersonalRecords | make_tables.py:77 | the filter keeps exactly the 0x54-byte records, and no more records than there were; order and multiplicity are stated by `Tables.PersonalRecordsAt` |
| Tables.PersonalRecordsAt | make_tables.py:77 | the filter keeps order and multiplicity: it keeps as many records as there are 0x54-byte ones, and the 0x54-byte record at position `i` is kept at position `KeptBefore(records, i)`, the number of 0x54-byte records before it |
| Tables.KeptCount | make_tables.py:77 | the filter keeps as many records as there are 0x54-byte ones |
| Tables.KeptAt | make_tables.py:77 | the 0x54-byte record at position `i` is kept, at position `KeptBefore(records, i)` |
| Tables.KeptBeforeGrows | make_tables.py:187-190 | a kept record is numbered before every later record, so species numbers follow record order |
| Tables.PersonalRows | make_tables.py:77-79 | decoding the kept records never fails: one row per record, each the record's decoded dictionary |
| Tables.FixTypes | make_tables.py:82 | the fix is applied to every row and keeps the number of rows |
| Tables.FixType2Effect | make_tables.py:82 | the fix changes only `type2`, sets it to `None` exactly when it equals `type1`, keeps the keys, and is idempotent |
| Tables.PersonalType2 | make_tables.py:82 | on a decoded species, `type1` is the byte at 0x06 and the fixed `type2` is the byte at 0x07, or `None` when the two bytes are equal |
| Tables.TypeField | util.py:165-166 | the type fields decode to their bytes |
| Tables.StatsSplit | util.py:158-168 | the personal schema split around one of its first ten fields |
| Tables.TypesNotLater | util.py:165-218 | no field after `type1` or `type2` reuses that name |
| Tables.Tag | make_tables.py:193-196 | the rows pair the species with each number, in order, and no others |
| Tables.SpeciesLearnset | make_tables.py:191-196 | a species learns exactly the machines 1..100 whose bit is set at 0x28 and the tutor moves 0..127 whose bit is set at 0x3c |
| Tables.Learnsets | make_tables.py:187-196 | a learnset row is present exactly when its species is a kept record and the corresponding bit is set, species being numbered by their position after the length filter (`PersonalRecordsAt`) |

## Left out

- Files, `open`, `seek` and `read` as I/O. An archive is its contents, and a lazy iterator becomes a whole list: a read error anywhere makes the whole result a failure instead of a prefix followed by an exception.
- Python's negative indices into `record_descriptors`. A record index is a natural number, and one past the end is `NoSuchRecord`.
- Schemas.PersonalHeight: `h / 100` and `w / 10` give floats in the source; the model keeps the exact quotient (`Ratio`), so float rounding is not captured.
- Dictionary and DataFrame ordering: a decoded record is a map, so column order is not modelled.
- pandas DataFrames, `make_text_table`, the SQLAlchemy engine and every `to_sql` call: these are presentation and persistence, and they call code that is not part of this model.
- The module-level script of util.py (lines 254-265), including `pad_itr`, and the hard-coded file paths, text references, `tms` and `tutor` lists: these are data, not logic.
- `struct.error` on a malformed level-up, egg-move or evolution record: ParseLevelUp, ParseEggMoves, ParseEvolutions and BuildTable require whole pairs, half-words and 8-byte entries instead of modelling the exception.
- Tables.FlagField: requires `n <= 8·len(bts)`, where the source raises `IndexError` instead.
- Tables.Checks: requires `calcsize(fmt) <= len(bts)`, where the source raises `IndexError` when iterated.
- Tables.Learnsets: the `(species, number)` rows are stated as a set of present rows, not as their exact order.
- Unicode: a decoded string is a sequence of 16-bit code units; surrogate pairs are not combined, as `chr` on single code units does not.
