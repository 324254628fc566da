/** The byte-level decoders of the table builder: the machine and tutor
    bitsets of a personal record, and the parsers that turn the level-up,
    egg-move and evolution archives into rows tagged with the species index
    (the position of the record in its archive). Each parser is a loop that
    appends rows, proved against a function over the bytes. */
module Tables {
  import opened Binary
  import opened Fields
  import opened Schemas

  /* ---------- Bitsets ---------- */

  /** `check(bts, n)`: bit `n mod 8` of byte `n div 8`. */
  function Check(bts: seq<byte>, n: nat): bool
    requires n / 8 < |bts|
  {
    (bts[n / 8] as bv8) & ((1 as bv8) << (n % 8)) != 0
  }

  /** A sequence of indices that only grows. */
  predicate Ascending(s: seq<nat>)
  {
    forall i, j :: 0 <= i < j < |s| ==> s[i] < s[j]
  }

  /** The 0-based indices below `n` whose bit is set, in ascending order. */
  function SetBits(bts: seq<byte>, n: nat): (r: seq<nat>)
    requires n <= 8 * |bts|
    ensures forall k: nat :: k in r <==> k < n && Check(bts, k)
    ensures Ascending(r)
    ensures forall i :: 0 <= i < |r| ==> r[i] < n
  {
    if n == 0 then [] else SetBits(bts, n - 1) + (if Check(bts, n - 1) then [n - 1] else [])
  }

  /** `checks(fmt, bts)` for a format of `size` bytes: the set bits among the
      first `8 * size`. */
  function Checks(size: nat, bts: seq<byte>): (r: seq<nat>)
    requires size <= |bts|
    ensures forall k: nat :: k in r <==> k < 8 * size && Check(bts, k)
    ensures Ascending(r)
  {
    SetBits(bts, 8 * size)
  }

  /** `flag_field(bts, n)`: the 1-based numbers of the set bits among the
      first `n`, in ascending order; the same bits `Checks` reports, each
      counted from one. */
  method FlagField(bts: seq<byte>, n: nat) returns (checks: seq<nat>)
    requires n <= 8 * |bts|
    ensures forall x: nat :: x in checks <==> 1 <= x <= n && Check(bts, x - 1)
    ensures Ascending(checks)
  {
    checks := [];
    for k := 0 to n
      invariant forall x: nat :: x in checks <==> 1 <= x <= k && Check(bts, x - 1)
      invariant Ascending(checks)
      invariant forall i :: 0 <= i < |checks| ==> checks[i] <= k
    {
      if Check(bts, k) {
        checks := checks + [k + 1];
      }
    }
  }

  /* ---------- Rows of the move and evolution tables ---------- */

  /** One evolution entry, struct format '<3H2B'. */
  datatype Evolution = Evolution(evoMethod: u16, auxiliary: u16, target: u16, targetForm: byte, minLevel: byte)

  /** A row of one of the three tables, tagged with the species index. */
  datatype Row =
    | LevelUpRow(species: nat, move: u16, level: u16)
    | EggMoveRow(species: nat, move: u16)
    | EvolutionRow(species: nat, evolution: Evolution)

  /** The archive a table is built from; each has its own record layout. */
  datatype Archive = LevelUpArchive | EggMoveArchive | EvolutionArchive

  /* ---------- Level-up moves ---------- */

  /** The `(move, level)` pair with index `j` of a level-up record. */
  function PairAt(data: seq<byte>, j: nat): (u16, u16)
    requires 4 * j + 4 <= |data|
  {
    (U16(data[4 * j..4 * j + 2]), U16(data[4 * j + 2..4 * j + 4]))
  }

  /** The pair that ends a level-up list: both halves 0xFFFF. */
  predicate IsTerminator(p: (u16, u16))
  {
    p.0 == 0xFFFF && p.1 == 0xFFFF
  }

  /** The level-up rows of one record: its pairs up to the first terminator. */
  function LevelUp(species: nat, data: seq<byte>): (r: seq<Row>)
    ensures forall i :: 0 <= i < |r| ==> r[i].LevelUpRow? && r[i].species == species
    decreases |data|
  {
    if |data| < 4 then []
    else
      var p := PairAt(data, 0);
      if IsTerminator(p) then [] else [LevelUpRow(species, p.0, p.1)] + LevelUp(species, data[4..])
  }

  /** Dropping the first four bytes shifts the pairs down by one. */
  lemma PairShift(data: seq<byte>, j: nat)
    requires 4 * j + 8 <= |data|
    ensures PairAt(data[4..], j) == PairAt(data, j + 1)
  {
    assert data[4..][4 * j..4 * j + 2] == data[4 * j + 4..4 * j + 6];
    assert data[4..][4 * j + 2..4 * j + 4] == data[4 * j + 6..4 * j + 8];
  }

  /** The rows of a level-up record are its leading pairs, in order, none of
      them a terminator, and they stop only at a terminator or at the end:
      a pair with just one half 0xFFFF is kept. */
  lemma {:induction false} LevelUpStops(species: nat, data: seq<byte>)
    ensures |LevelUp(species, data)| <= |data| / 4
    ensures forall j :: 0 <= j < |LevelUp(species, data)| ==>
              !IsTerminator(PairAt(data, j))
              && LevelUp(species, data)[j] == LevelUpRow(species, PairAt(data, j).0, PairAt(data, j).1)
    ensures |LevelUp(species, data)| < |data| / 4 ==> IsTerminator(PairAt(data, |LevelUp(species, data)|))
    decreases |data|
  {
    if |data| >= 4 && !IsTerminator(PairAt(data, 0)) {
      var r := LevelUp(species, data);
      var tail := LevelUp(species, data[4..]);
      LevelUpStops(species, data[4..]);
      assert r == [LevelUpRow(species, PairAt(data, 0).0, PairAt(data, 0).1)] + tail;
      forall j | 1 <= j < |r|
        ensures !IsTerminator(PairAt(data, j)) && r[j] == LevelUpRow(species, PairAt(data, j).0, PairAt(data, j).1)
      {
        PairShift(data, j - 1);
        assert r[j] == tail[j - 1];
      }
      if |tail| < |data[4..]| / 4 {
        PairShift(data, |tail|);
      }
    }
  }

  /** The inner loop of the level-up parse for one record. */
  method ParseLevelUp(species: nat, data: seq<byte>) returns (rows: seq<Row>)
    requires |data| % 4 == 0
    ensures rows == LevelUp(species, data)
  {
    rows := [];
    var k := 0;
    while k < |data|
      invariant 0 <= k <= |data| && k % 4 == 0
      invariant rows + LevelUp(species, data[k..]) == LevelUp(species, data)
    {
      FourMore(k, |data|);
      var move, level := U16(data[k..k + 2]), U16(data[k + 2..k + 4]);
      LevelUpStep(species, data, k, move, level);
      if move == 0xFFFF && level == 0xFFFF {
        break;
      }
      rows := rows + [LevelUpRow(species, move, level)];
      k := k + 4;
    }
  }

  /** Below a multiple of four, a multiple of four has four more to go. */
  lemma FourMore(k: nat, n: nat)
    requires k < n && k % 4 == 0 && n % 4 == 0
    ensures k + 4 <= n
  {
  }

  /** One step of `ParseLevelUp`: the pair at `k` either ends the list or is
      its next row. */
  lemma LevelUpStep(species: nat, data: seq<byte>, k: nat, move: u16, level: u16)
    requires k + 4 <= |data|
    requires move == U16(data[k..k + 2]) && level == U16(data[k + 2..k + 4])
    ensures move == 0xFFFF && level == 0xFFFF ==> LevelUp(species, data[k..]) == []
    ensures !(move == 0xFFFF && level == 0xFFFF) ==>
              LevelUp(species, data[k..]) == [LevelUpRow(species, move, level)] + LevelUp(species, data[k + 4..])
  {
    var rest := data[k..];
    assert rest[0..2] == data[k..k + 2];
    assert rest[2..4] == data[k + 2..k + 4];
    assert rest[4..] == data[k + 4..];
  }

  /* ---------- Egg moves ---------- */

  /** `data[4:]`: everything after the four-byte header, empty when the
      record is shorter. */
  function AfterHeader(data: seq<byte>): (r: seq<byte>)
    ensures |data| >= 4 ==> r == data[4..]
    ensures |data| < 4 ==> r == []
  {
    if |data| < 4 then [] else data[4..]
  }

  /** One egg-move row per little-endian half-word of `words`. */
  function MoveList(species: nat, words: seq<byte>): (r: seq<Row>)
    ensures forall i :: 0 <= i < |r| ==> r[i].EggMoveRow? && r[i].species == species
    decreases |words|
  {
    if |words| < 2 then [] else [EggMoveRow(species, U16(words[..2]))] + MoveList(species, words[2..])
  }

  /** The egg-move rows of one record. */
  function EggMoves(species: nat, data: seq<byte>): seq<Row>
  {
    MoveList(species, AfterHeader(data))
  }

  /** The half-words that encode `moves`, one after another. */
  function EncodeMoves(moves: seq<u16>): (b: seq<byte>)
    ensures |b| == 2 * |moves|
  {
    if moves == [] then [] else EncodeU16(moves[0]) + EncodeMoves(moves[1..])
  }

  /** The egg-move rows of a species, one per move. */
  function EggMoveRows(species: nat, moves: seq<u16>): (r: seq<Row>)
  {
    seq(|moves|, i requires 0 <= i < |moves| => EggMoveRow(species, moves[i]))
  }

  /** Parsing a record made of any four-byte header and the encoded moves
      gives back exactly those moves, in order. */
  lemma EggMovesRoundTrip(species: nat, header: seq<byte>, moves: seq<u16>)
    requires |header| == 4
    ensures EggMoves(species, header + EncodeMoves(moves)) == EggMoveRows(species, moves)
  {
    assert AfterHeader(header + EncodeMoves(moves)) == EncodeMoves(moves);
    MoveListRoundTrip(species, moves);
  }

  /** `EggMovesRoundTrip` without the header. */
  lemma {:induction false} MoveListRoundTrip(species: nat, moves: seq<u16>)
    ensures MoveList(species, EncodeMoves(moves)) == EggMoveRows(species, moves)
  {
    if moves != [] {
      var words := EncodeMoves(moves);
      U16RoundTrip(moves[0], EncodeU16(moves[0]));
      assert words[..2] == EncodeU16(moves[0]);
      assert words[2..] == EncodeMoves(moves[1..]);
      MoveListRoundTrip(species, moves[1..]);
    }
  }

  /** The inner loop of the egg-move parse for one record. */
  method ParseEggMoves(species: nat, data: seq<byte>) returns (rows: seq<Row>)
    requires |AfterHeader(data)| % 2 == 0
    ensures rows == EggMoves(species, data)
  {
    var words := AfterHeader(data);
    rows := [];
    for j := 0 to |words| / 2
      invariant rows + MoveList(species, words[2 * j..]) == MoveList(species, words)
    {
      var move := U16(words[2 * j..2 * j + 2]);
      MoveListStep(species, words, 2 * j, move);
      rows := rows + [EggMoveRow(species, move)];
    }
    assert words[2 * (|words| / 2)..] == [];
  }

  /** One step of `ParseEggMoves`. */
  lemma MoveListStep(species: nat, words: seq<byte>, k: nat, move: u16)
    requires k + 2 <= |words| && move == U16(words[k..k + 2])
    ensures MoveList(species, words[k..]) == [EggMoveRow(species, move)] + MoveList(species, words[k + 2..])
  {
    var rest := words[k..];
    assert rest[..2] == words[k..k + 2];
    assert rest[2..] == words[k + 2..];
  }

  /* ---------- Evolutions ---------- */

  /** `struct.unpack('<3H2B', evo)`. */
  function UnpackEvolution(evo: seq<byte>): Evolution
    requires |evo| == 8
  {
    Evolution(U16(evo[0..2]), U16(evo[2..4]), U16(evo[4..6]), evo[6], evo[7])
  }

  /** `struct.pack('<3H2B', ...)`. */
  function EncodeEvolution(e: Evolution): (b: seq<byte>)
    ensures |b| == 8
  {
    EncodeU16(e.evoMethod) + EncodeU16(e.auxiliary) + EncodeU16(e.target) + [e.targetForm, e.minLevel]
  }

  /** Packing and unpacking an evolution entry are inverse to each other. */
  lemma EvolutionRoundTrip(e: Evolution, evo: seq<byte>)
    requires |evo| == 8
    ensures UnpackEvolution(EncodeEvolution(e)) == e
    ensures EncodeEvolution(UnpackEvolution(evo)) == evo
  {
    var b := EncodeEvolution(e);
    U16RoundTrip(e.evoMethod, evo[0..2]);
    U16RoundTrip(e.auxiliary, evo[2..4]);
    U16RoundTrip(e.target, evo[4..6]);
    assert b[0..2] == EncodeU16(e.evoMethod);
    assert b[2..4] == EncodeU16(e.auxiliary);
    assert b[4..6] == EncodeU16(e.target);
    assert evo == evo[0..2] + evo[2..4] + evo[4..6] + [evo[6], evo[7]];
  }

  /** The evolution rows of one record: its 8-byte entries in order, except
      those whose method is 0. */
  function Evolutions(species: nat, bts: seq<byte>): (r: seq<Row>)
    ensures forall i :: 0 <= i < |r| ==> r[i].EvolutionRow? && r[i].species == species
    decreases |bts|
  {
    if |bts| < 8 then []
    else
      var e := UnpackEvolution(bts[..8]);
      (if e.evoMethod != 0 then [EvolutionRow(species, e)] else []) + Evolutions(species, bts[8..])
  }

  /** The entries, one after another. */
  function EncodeEvolutions(entries: seq<Evolution>): (b: seq<byte>)
    ensures |b| == 8 * |entries|
  {
    if entries == [] then [] else EncodeEvolution(entries[0]) + EncodeEvolutions(entries[1..])
  }

  /** The rows for the entries whose method is not 0, in order. */
  function KeptEvolutions(species: nat, entries: seq<Evolution>): seq<Row>
  {
    if entries == [] then []
    else (if entries[0].evoMethod != 0 then [EvolutionRow(species, entries[0])] else [])
         + KeptEvolutions(species, entries[1..])
  }

  /** Parsing the encoded entries keeps exactly the entries with a nonzero
      method, unchanged and in order. */
  lemma {:induction false} EvolutionsRoundTrip(species: nat, entries: seq<Evolution>)
    ensures Evolutions(species, EncodeEvolutions(entries)) == KeptEvolutions(species, entries)
  {
    if entries != [] {
      var bts := EncodeEvolutions(entries);
      EvolutionRoundTrip(entries[0], bts[..8]);
      assert bts[..8] == EncodeEvolution(entries[0]);
      assert bts[8..] == EncodeEvolutions(entries[1..]);
      EvolutionsRoundTrip(species, entries[1..]);
    }
  }

  /** The inner loop of the evolution parse for one record. */
  method ParseEvolutions(species: nat, bts: seq<byte>) returns (rows: seq<Row>)
    requires |bts| % 8 == 0
    ensures rows == Evolutions(species, bts)
  {
    rows := [];
    for j := 0 to |bts| / 8
      invariant rows + Evolutions(species, bts[8 * j..]) == Evolutions(species, bts)
    {
      var e := UnpackEvolution(bts[8 * j..8 * j + 8]);
      var kept := if e.evoMethod != 0 then [EvolutionRow(species, e)] else [];
      EvolutionsStep(species, bts, 8 * j, e, rows, kept);
      rows := rows + kept;
    }
    assert bts[8 * (|bts| / 8)..] == [];
  }

  /** One step of `ParseEvolutions`: the entry at `k` moves, when kept,
      from the rows still to be parsed to the rows parsed so far. */
  lemma EvolutionsStep(species: nat, bts: seq<byte>, k: nat, e: Evolution, rows: seq<Row>, kept: seq<Row>)
    requires k + 8 <= |bts| && e == UnpackEvolution(bts[k..k + 8])
    requires kept == if e.evoMethod != 0 then [EvolutionRow(species, e)] else []
    ensures rows + Evolutions(species, bts[k..]) == (rows + kept) + Evolutions(species, bts[k + 8..])
  {
    var rest := bts[k..];
    assert rest[..8] == bts[k..k + 8];
    assert rest[8..] == bts[k + 8..];
    assert Evolutions(species, rest) == kept + Evolutions(species, bts[k + 8..]);
    AppendAssoc(rows, kept, Evolutions(species, bts[k + 8..]));
  }

  /* ---------- Whole tables ---------- */

  /** What `struct` demands of a record of the archive: whole pairs, whole
      half-words after the header, whole 8-byte entries. */
  predicate Parsable(archive: Archive, data: seq<byte>)
  {
    match archive
    case LevelUpArchive => |data| % 4 == 0
    case EggMoveArchive => |AfterHeader(data)| % 2 == 0
    case EvolutionArchive => |data| % 8 == 0
  }

  /** The rows one record of the archive contributes. */
  function RecordRows(archive: Archive, species: nat, data: seq<byte>): (r: seq<Row>)
    ensures forall i :: 0 <= i < |r| ==> r[i].species == species
  {
    match archive
    case LevelUpArchive => LevelUp(species, data)
    case EggMoveArchive => EggMoves(species, data)
    case EvolutionArchive => Evolutions(species, data)
  }

  /** The table built from the records in archive order, record `i` being
      species `i`. */
  function Table(archive: Archive, records: seq<seq<byte>>): seq<Row>
  {
    if records == [] then []
    else Table(archive, records[..|records| - 1]) + RecordRows(archive, |records| - 1, records[|records| - 1])
  }

  /** A row is in the table exactly when it is one of the rows the record of
      its species contributes. */
  lemma {:induction false} TableRows(archive: Archive, records: seq<seq<byte>>, row: Row)
    ensures row in Table(archive, records) <==>
              row.species < |records| && row in RecordRows(archive, row.species, records[row.species])
  {
    if records != [] {
      var n := |records| - 1;
      var front := records[..n];
      TableRows(archive, front, row);
      var last := RecordRows(archive, n, records[n]);
      assert Table(archive, records) == Table(archive, front) + last;
      if row in last {
        var i :| 0 <= i < |last| && last[i] == row;
      }
      if row.species < n {
        assert front[row.species] == records[row.species];
      }
    }
  }

  /** The inner loop for one record, whichever the archive. */
  method ParseRecord(archive: Archive, species: nat, data: seq<byte>) returns (rows: seq<Row>)
    requires Parsable(archive, data)
    ensures rows == RecordRows(archive, species, data)
  {
    match archive
    case LevelUpArchive => rows := ParseLevelUp(species, data);
    case EggMoveArchive => rows := ParseEggMoves(species, data);
    case EvolutionArchive => rows := ParseEvolutions(species, data);
  }

  /** `for idx, data in enumerate(archive.record_iterator())`: the rows of
      every record, species by species. */
  method BuildTable(archive: Archive, records: seq<seq<byte>>) returns (rows: seq<Row>)
    requires forall i :: 0 <= i < |records| ==> Parsable(archive, records[i])
    ensures rows == Table(archive, records)
  {
    rows := [];
    for idx := 0 to |records|
      invariant rows == Table(archive, records[..idx])
    {
      var more := ParseRecord(archive, idx, records[idx]);
      assert records[..idx + 1][..idx] == records[..idx];
      rows := rows + more;
    }
    assert records[..|records|] == records;
  }

  /* ---------- Species ---------- */

  /** `filter(lambda r: len(r) == 0x54, personal.record_iterator())`: the
      personal records, without the odd-sized one the archive ends with. */
  function PersonalRecords(records: seq<seq<byte>>): (r: seq<seq<byte>>)
    ensures |r| <= |records|
    ensures forall i :: 0 <= i < |r| ==> |r[i]| == 0x54
    ensures forall x {:trigger x in r} :: x in r <==> x in records && |x| == 0x54
  {
    if records == [] then []
    else (if |records[0]| == 0x54 then [records[0]] else []) + PersonalRecords(records[1..])
  }

  /** How many of the first `i` records are 0x54 bytes long: the species
      number the filter gives record `i` when it is kept. */
  function KeptBefore(records: seq<seq<byte>>, i: nat): nat
    requires i <= |records|
  {
    if i == 0 then 0 else (if |records[0]| == 0x54 then 1 else 0) + KeptBefore(records[1..], i - 1)
  }

  /** The filter keeps order and multiplicity: it keeps `KeptBefore(records,
      |records|)` records, and a 0x54-byte record at position `i` is kept
      at position `KeptBefore(records, i)`, a number that grows by one with
      each record kept. */
  lemma {:induction false} PersonalRecordsAt(records: seq<seq<byte>>)
    ensures |PersonalRecords(records)| == KeptBefore(records, |records|)
    ensures forall i :: 0 <= i < |records| && |records[i]| == 0x54 ==>
              KeptBefore(records, i) < |PersonalRecords(records)|
              && PersonalRecords(records)[KeptBefore(records, i)] == records[i]
  {
    KeptCount(records);
    forall i | 0 <= i < |records| && |records[i]| == 0x54
      ensures KeptBefore(records, i) < |PersonalRecords(records)|
              && PersonalRecords(records)[KeptBefore(records, i)] == records[i]
    {
      KeptAt(records, i);
    }
  }

  /** The filter keeps as many records as `KeptBefore` counts. */
  lemma {:induction false} KeptCount(records: seq<seq<byte>>)
    ensures |PersonalRecords(records)| == KeptBefore(records, |records|)
    decreases |records|
  {
    if records != [] {
      KeptCount(records[1..]);
      KeptCountStep(records);
    }
  }

  /** Both counts move along by one when the first record is kept. */
  lemma KeptCountStep(records: seq<seq<byte>>)
    requires records != []
    ensures var head := if |records[0]| == 0x54 then 1 else 0;
            |PersonalRecords(records)| == head + |PersonalRecords(records[1..])|
            && KeptBefore(records, |records|) == head + KeptBefore(records[1..], |records| - 1)
  {
  }

  /** A kept record `i` sits at position `KeptBefore(records, i)`. */
  lemma {:induction false} KeptAt(records: seq<seq<byte>>, i: nat)
    requires i < |records| && |records[i]| == 0x54
    ensures KeptBefore(records, i) < |PersonalRecords(records)|
            && PersonalRecords(records)[KeptBefore(records, i)] == records[i]
    decreases i
  {
    var head := if |records[0]| == 0x54 then [records[0]] else [];
    var rest := PersonalRecords(records[1..]);
    assert PersonalRecords(records) == head + rest;
    if i > 0 {
      assert records[1..][i - 1] == records[i];
      KeptAt(records[1..], i - 1);
      assert KeptBefore(records, i) == |head| + KeptBefore(records[1..], i - 1);
    }
  }

  /** Records before a kept record are numbered before it. */
  lemma {:induction false} KeptBeforeGrows(records: seq<seq<byte>>, i: nat, j: nat)
    requires i < j <= |records| && |records[i]| == 0x54
    ensures KeptBefore(records, i) < KeptBefore(records, j)
    decreases i
  {
    if i == 0 {
      KeptBeforeBase(records, j);
    } else {
      assert records[1..][i - 1] == records[i];
      KeptBeforeGrows(records[1..], i - 1, j - 1);
    }
  }

  /** Counting over a first record that is kept counts it. */
  lemma KeptBeforeBase(records: seq<seq<byte>>, j: nat)
    requires 0 < j <= |records| && |records[0]| == 0x54
    ensures KeptBefore(records, j) >= 1
  {
  }

  /** `to_record` with the personal schema over records of the schema's
      size, which never fails on them. */
  function PersonalRows(records: seq<seq<byte>>): (rows: seq<map<string, Value>>)
    requires forall i :: 0 <= i < |records| ==> |records[i]| == 0x54
    ensures |rows| == |records|
    ensures forall i :: 0 <= i < |rows| ==> Decode(Personal, records[i]) == Success(rows[i])
  {
    if records == [] then []
    else
      PersonalDecodes(records[0]);
      [Decode(Personal, records[0]).value] + PersonalRows(records[1..])
  }

  /** `df.loc[df['type2'] == df['type1'], 'type2'] = None` on one row: a
      second type equal to the first is no second type. */
  function FixType2(row: map<string, Value>): (r: map<string, Value>)
  {
    if "type1" in row && "type2" in row && row["type2"] == row["type1"] then row["type2" := Null] else row
  }

  /** The type fix applied to every row. */
  function FixTypes(rows: seq<map<string, Value>>): (r: seq<map<string, Value>>)
    ensures |r| == |rows|
    ensures forall i :: 0 <= i < |r| ==> r[i] == FixType2(rows[i])
  {
    seq(|rows|, i requires 0 <= i < |rows| => FixType2(rows[i]))
  }

  /** The fix touches only the second type, only when it repeats the first,
      and applying it again changes nothing. */
  lemma FixType2Effect(row: map<string, Value>)
    ensures FixType2(row).Keys == row.Keys
    ensures forall k :: k in row && k != "type2" ==> FixType2(row)[k] == row[k]
    ensures "type1" in row && "type2" in row ==>
              FixType2(row)["type2"] == if row["type2"] == row["type1"] then Null else row["type2"]
    ensures FixType2(FixType2(row)) == FixType2(row)
  {
  }

  /** On a decoded species, the fixed second type is the byte at 0x07 unless
      it repeats the byte at 0x06, and then it is null. */
  lemma PersonalType2(record: seq<byte>)
    requires |record| == 0x54
    ensures Decode(Personal, record).Success?
    ensures var row := FixType2(Decode(Personal, record).value);
            "type1" in row && "type2" in row
            && row["type1"] == Int(record[0x06] as int)
            && row["type2"] == if record[0x06] == record[0x07] then Null else Int(record[0x07] as int)
  {
    TypeField(record, 6, "type1");
    TypeField(record, 7, "type2");
  }

  /** The personal fields after the base stats. */
  const PersonalRest: seq<Field> := PersonalEvsItems + PersonalBreeding + PersonalForm + PersonalTail

  /** The type fields decode to their bytes. */
  lemma TypeField(record: seq<byte>, k: nat, name: string)
    requires |record| == 0x54
    requires (k == 6 && name == "type1") || (k == 7 && name == "type2")
    ensures Decode(Personal, record).Success?
    ensures name in Decode(Personal, record).value
    ensures Decode(Personal, record).value[name] == Int(record[k] as int)
  {
    var pre, post := PersonalStats[..k], PersonalStats[k + 1..] + PersonalRest;
    StatsSplit(k);
    TypesNotLater();
    PersonalShape();
    DecodeFieldAt(Personal, pre, PersonalStats[k], post, record);
  }

  /** The personal schema around its `k`-th field. */
  lemma StatsSplit(k: nat)
    requires k < |PersonalStats|
    ensures Personal == PersonalStats[..k] + [PersonalStats[k]] + (PersonalStats[k + 1..] + PersonalRest)
  {
    var front, back := PersonalStats[..k] + [PersonalStats[k]], PersonalStats[k + 1..];
    assert Personal == PersonalStats + PersonalRest;
    assert PersonalStats == front + back;
    AppendAssoc(front, back, PersonalRest);
  }

  /** No field after the first type is named "type1", and none after the
      second is named "type2". */
  lemma TypesNotLater()
    ensures Unnamed(PersonalStats[7..] + PersonalRest, "type1")
    ensures Unnamed(PersonalStats[8..] + PersonalRest, "type2")
  {
    RestUnnamed("type1");
    RestUnnamed("type2");
    UnnamedJoin(PersonalStats[7..], PersonalRest, "type1");
    UnnamedJoin(PersonalStats[8..], PersonalRest, "type2");
  }

  /** Neither type name is used after the base stats. */
  lemma RestUnnamed(name: string)
    requires name == "type1" || name == "type2"
    ensures Unnamed(PersonalRest, name)
  {
    assert Unnamed(PersonalEvsItems, name);
    assert Unnamed(PersonalBreeding, name);
    assert Unnamed(PersonalForm, name);
    assert Unnamed(PersonalTail, name);
    UnnamedJoin(PersonalEvsItems, PersonalBreeding, name);
    UnnamedJoin(PersonalEvsItems + PersonalBreeding, PersonalForm, name);
    UnnamedJoin(PersonalEvsItems + PersonalBreeding + PersonalForm, PersonalTail, name);
  }

  /* ---------- Machine and tutor learnsets ---------- */

  /** A species and a machine or tutor number it can learn. */
  datatype Learnable = Learnable(species: nat, index: nat)

  /** Machine `c` (counted from one, at most 100) is set in the 16-byte
      bitset at 0x28 of a species record. */
  predicate TmLearned(data: seq<byte>, c: nat)
    requires |data| == 0x54
  {
    1 <= c <= 100 && Check(data[0x28..0x38], c - 1)
  }

  /** Tutor move `c` (counted from zero) is set in the 16-byte bitset at
      0x3c of a species record. */
  predicate TutorLearned(data: seq<byte>, c: nat)
    requires |data| == 0x54
  {
    c < 128 && Check(data[0x3c..0x4c], c)
  }

  /** The rows pairing `species` with each of `cs`, in order. */
  method Tag(species: nat, cs: seq<nat>) returns (rows: seq<Learnable>)
    ensures |rows| == |cs|
    ensures forall i :: 0 <= i < |cs| ==> rows[i] == Learnable(species, cs[i])
    ensures forall x :: x in rows <==> x.species == species && x.index in cs
  {
    rows := [];
    for i := 0 to |cs|
      invariant |rows| == i
      invariant forall j :: 0 <= j < i ==> rows[j] == Learnable(species, cs[j])
    {
      rows := rows + [Learnable(species, cs[i])];
    }
    forall x: Learnable | x.species == species && x.index in cs
      ensures x in rows
    {
      var i :| 0 <= i < |cs| && cs[i] == x.index;
      assert rows[i] == x;
    }
  }

  /** The machine and tutor learnsets of the species records: a species
      learns exactly the machines and tutor moves whose bits are set in its
      record, species being numbered after the length filter. */
  method Learnsets(records: seq<seq<byte>>) returns (tms: seq<Learnable>, tutors: seq<Learnable>)
    ensures forall x :: x in tms <==>
              x.species < |PersonalRecords(records)| && TmLearned(PersonalRecords(records)[x.species], x.index)
    ensures forall x :: x in tutors <==>
              x.species < |PersonalRecords(records)| && TutorLearned(PersonalRecords(records)[x.species], x.index)
  {
    var kept := PersonalRecords(records);
    tms, tutors := [], [];
    for idx := 0 to |kept|
      invariant forall x :: x in tms <==> x.species < idx && TmLearned(kept[x.species], x.index)
      invariant forall x :: x in tutors <==> x.species < idx && TutorLearned(kept[x.species], x.index)
    {
      var moreTms, moreTutors := SpeciesLearnset(idx, kept[idx]);
      tms := tms + moreTms;
      tutors := tutors + moreTutors;
    }
  }

  /** The loop body of `Learnsets` for one species record. */
  method SpeciesLearnset(species: nat, data: seq<byte>) returns (tms: seq<Learnable>, tutors: seq<Learnable>)
    requires |data| == 0x54
    ensures forall x :: x in tms <==> x.species == species && TmLearned(data, x.index)
    ensures forall x :: x in tutors <==> x.species == species && TutorLearned(data, x.index)
  {
    var flags := FlagField(data[0x28..0x38], 100);
    tms := Tag(species, flags);
    var bits := Checks(16, data[0x3c..0x4c]);
    tutors := Tag(species, bits);
  }
}
