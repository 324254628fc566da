/** The two record schemas the archive's tables are read with: the 0x54-byte
    `personal` record of a species and the 0x28-byte `move` record. Each
    schema is written as a few consecutive runs of fields, so that the facts
    about it (fields ascending, where it ends, every field decodable) are
    proved a run at a time and joined. */
module Schemas {
  import opened Binary
  import opened Fields

  /** A field with one name and no transform. */
  function Plain(name: string, offset: nat, format: Format): Field
  {
    Field(Name(name), offset, format, None, false)
  }

  /** A field with one name and a transform. */
  function Mapped(name: string, offset: nat, format: Format, t: Transform): Field
  {
    Field(Name(name), offset, format, Some(t), false)
  }

  /** A field whose bytes are skipped. */
  function Skipped(offset: nat, format: Format): Field
  {
    Field(Absent, offset, format, None, false)
  }

  /** The experience groups by number. */
  const ExpGroups: map<int, Value> :=
    map[0 := Label("Medium Fast"), 1 := Label("Erratic"), 2 := Label("Fluctuating"),
        3 := Label("Medium Slow"), 4 := Label("Fast"), 5 := Label("Slow")]

  /** The body colours by number. */
  const Colors: map<int, Value> :=
    map[0 := Label("Red"), 1 := Label("Blue"), 2 := Label("Yellow"), 3 := Label("Green"),
        4 := Label("Black"), 5 := Label("Brown"), 6 := Label("Purple"), 7 := Label("Gray"),
        8 := Label("White"), 9 := Label("Pink")]

  /** Base stats, types, capture rate and evolution stage: one byte each. */
  const PersonalStats: seq<Field> := [
    Plain("hp", 0x00, UByte),
    Plain("atk", 0x01, UByte),
    Plain("def", 0x02, UByte),
    Plain("spe", 0x03, UByte),
    Plain("spa", 0x04, UByte),
    Plain("spd", 0x05, UByte),
    Plain("type1", 0x06, UByte),
    Plain("type2", 0x07, UByte),
    Plain("capture_rate", 0x08, UByte),
    Plain("stage", 0x09, UByte)
  ]

  /** The six effort values packed two bits each in one half-word (the last
      two groups are unnamed), and the three held items, 0 meaning none. */
  const PersonalEvsItems: seq<Field> := [
    Field(Names([Some("ev_hp"), Some("ev_atk"), Some("ev_def"), Some("ev_spe"), Some("ev_spa"), Some("ev_spd"), None, None]),
          0x0a, UShort, Some(Split(UShort, 2)), true),
    Mapped("item1", 0x0c, UShort, FillNone),
    Mapped("item2", 0x0e, UShort, FillNone),
    Mapped("item3", 0x10, UShort, FillNone)
  ]

  /** Breeding, abilities and escape rate: one byte each. */
  const PersonalBreeding: seq<Field> := [
    Plain("gender_rate", 0x12, UByte),
    Plain("hatch_cycles", 0x13, UByte),
    Plain("base_happiness", 0x14, UByte),
    Mapped("exp_group", 0x15, UByte, Replace(ExpGroups)),
    Plain("egg_group1", 0x16, UByte),
    Plain("egg_group2", 0x17, UByte),
    Plain("ability1", 0x18, UByte),
    Plain("ability2", 0x19, UByte),
    Plain("ability_hidden", 0x1a, UByte),
    Plain("escape_rate", 0x1b, UByte)
  ]

  /** Height in hundredths and weight in tenths become exact quotients. */
  const PersonalForm: seq<Field> := [
    Mapped("alt_id", 0x1c, UInt, FillNone),
    Plain("multiplicity", 0x20, UByte),
    Mapped("color", 0x21, UByte, Replace(Colors)),
    Plain("base_exp", 0x22, UShort),
    Mapped("height", 0x24, UShort, Scale(100)),
    Mapped("weight", 0x26, UShort, Scale(10))
  ]

  /** The machine and tutor bitsets, skipped, and the regional-variant
      flag. */
  const PersonalTail: seq<Field> := [
    Skipped(0x28, Chars(16)),
    Skipped(0x38, Chars(4)),
    Skipped(0x3c, Chars(16)),
    Skipped(0x4c, Chars(6)),
    Mapped("local_variant", 0x52, UByte, EqualsOne),
    Skipped(0x53, Chars(1))
  ]

  /** `record_descriptors['personal']`. */
  const Personal: seq<Field> := PersonalStats + PersonalEvsItems + PersonalBreeding + PersonalForm + PersonalTail

  /** The move categories by number. */
  const Categories: map<int, Value> := map[0 := Label("Status"), 1 := Label("Physical"), 2 := Label("Special")]

  /** Type, category, power, accuracy, priority and the effect. */
  const MoveHead: seq<Field> := [
    Plain("type", 0x00, UByte),
    Mapped("category", 0x02, UByte, Replace(Categories)),
    Mapped("power", 0x03, UByte, Replace(map[0 := Null])),
    Mapped("accuracy", 0x04, UByte, Replace(map[101 := Null])),
    Plain("pp", 0x05, UByte),
    Plain("priority", 0x06, SByte),
    Plain("effect", 0x08, UShort),
    Plain("effect_chance", 0x0a, UByte),
    Plain("effect_min_turns", 0x0b, UByte),
    Plain("effect_max_turns", 0x0c, UByte)
  ]

  /** Drain/recoil and heal/damage: one signed byte each, split by sign into
      two named values. */
  const MoveEffects: seq<Field> := [
    Skipped(0x0d, UByte),
    Plain("crit_chance", 0x0e, UByte),
    Plain("flinch_chance", 0x0f, UByte),
    Field(Names([Some("drain"), Some("recoil")]), 0x12, SByte, Some(SignSplit), true),
    Field(Names([Some("heal"), Some("damage")]), 0x13, SByte, Some(SignSplit), true),
    Plain("stat1", 0x15, UByte),
    Plain("stat2", 0x16, UByte),
    Plain("stat3", 0x17, UByte)
  ]

  /** The stat changes, their chances, and the dance flag. */
  const MoveStats: seq<Field> := [
    Plain("stat1_num", 0x18, UByte),
    Plain("stat2_num", 0x19, UByte),
    Plain("stat3_num", 0x1a, UByte),
    Plain("stat1_chance", 0x1b, UByte),
    Plain("stat2_chance", 0x1c, UByte),
    Plain("stat3_chance", 0x1d, UByte),
    Mapped("dance", 0x26, UByte, EqualsOne),
    Skipped(0x27, UByte)
  ]

  /** `record_descriptors['move']`. */
  const Move: seq<Field> := MoveHead + MoveEffects + MoveStats

  /* Each run of fields ascends from where the previous run ends, ends
     where the next one starts, and decodes whatever its bytes. */

  lemma PersonalStatsRun()
    ensures AscendingFrom(PersonalStats, 0) && End(PersonalStats, 0) == 0x0a
  {
  }

  lemma PersonalStatsDecodable()
    ensures AllDecodable(PersonalStats)
  {
  }

  lemma PersonalEvsItemsRun()
    ensures AscendingFrom(PersonalEvsItems, 0x0a) && End(PersonalEvsItems, 0x0a) == 0x12
  {
  }

  lemma PersonalEvsItemsDecodable()
    ensures AllDecodable(PersonalEvsItems)
  {
  }

  lemma PersonalBreedingRun()
    ensures AscendingFrom(PersonalBreeding, 0x12) && End(PersonalBreeding, 0x12) == 0x1c
  {
  }

  lemma PersonalBreedingDecodable()
    ensures AllDecodable(PersonalBreeding)
  {
  }

  lemma PersonalFormRun()
    ensures AscendingFrom(PersonalForm, 0x1c) && End(PersonalForm, 0x1c) == 0x28
  {
  }

  lemma PersonalFormDecodable()
    ensures AllDecodable(PersonalForm)
  {
  }

  lemma PersonalTailRun()
    ensures AscendingFrom(PersonalTail, 0x28) && End(PersonalTail, 0x28) == 0x54
  {
  }

  lemma PersonalTailDecodable()
    ensures AllDecodable(PersonalTail)
  {
  }

  lemma MoveHeadRun()
    ensures AscendingFrom(MoveHead, 0) && End(MoveHead, 0) == 0x0d
  {
  }

  lemma MoveHeadDecodable()
    ensures AllDecodable(MoveHead)
  {
  }

  lemma MoveEffectsRun()
    ensures AscendingFrom(MoveEffects, 0x0d) && End(MoveEffects, 0x0d) == 0x18
  {
  }

  lemma MoveEffectsDecodable()
    ensures AllDecodable(MoveEffects)
  {
  }

  lemma MoveStatsRun()
    ensures AscendingFrom(MoveStats, 0x18) && End(MoveStats, 0x18) == 0x28
  {
  }

  lemma MoveStatsDecodable()
    ensures AllDecodable(MoveStats)
  {
  }

  /** The personal schema ascends and ends at byte 0x54, and every field of it
      decodes whatever its bytes. */
  lemma PersonalShape()
    ensures AscendingFrom(Personal, 0) && End(Personal, 0) == 0x54 && AllDecodable(Personal)
  {
    PersonalStatsRun();
    PersonalEvsItemsRun();
    PersonalBreedingRun();
    PersonalFormRun();
    PersonalTailRun();
    PersonalStatsDecodable();
    PersonalEvsItemsDecodable();
    PersonalBreedingDecodable();
    PersonalFormDecodable();
    PersonalTailDecodable();
    var a := PersonalStats + PersonalEvsItems;
    AscendingJoin(PersonalStats, PersonalEvsItems, 0);
    DecodableJoin(PersonalStats, PersonalEvsItems);
    var b := a + PersonalBreeding;
    AscendingJoin(a, PersonalBreeding, 0);
    DecodableJoin(a, PersonalBreeding);
    var c := b + PersonalForm;
    AscendingJoin(b, PersonalForm, 0);
    DecodableJoin(b, PersonalForm);
    AscendingJoin(c, PersonalTail, 0);
    DecodableJoin(c, PersonalTail);
  }

  /** The move schema ascends and ends at byte 0x28, and every field of it
      decodes whatever its bytes. */
  lemma MoveShape()
    ensures AscendingFrom(Move, 0) && End(Move, 0) == 0x28 && AllDecodable(Move)
  {
    MoveHeadRun();
    MoveEffectsRun();
    MoveStatsRun();
    MoveHeadDecodable();
    MoveEffectsDecodable();
    MoveStatsDecodable();
    AscendingJoin(MoveHead, MoveEffects, 0);
    DecodableJoin(MoveHead, MoveEffects);
    AscendingJoin(MoveHead + MoveEffects, MoveStats, 0);
    DecodableJoin(MoveHead + MoveEffects, MoveStats);
  }

  /** `to_record(record_descriptors['personal'], record)` succeeds exactly
      for the 0x54-byte records, the length the table's records are filtered
      by; any other length is a size error. */
  lemma PersonalDecodes(record: seq<byte>)
    ensures Decode(Personal, record).Success? <==> |record| == 0x54
    ensures |record| != 0x54 ==> Decode(Personal, record) == Failure(SizeMismatch(0x54, |record|))
  {
    PersonalShape();
    DecodeSucceeds(Personal, record);
    DecodeSchema(Personal, record);
  }

  /** `to_record(record_descriptors['move'], record)` succeeds exactly for
      the 0x28-byte records. */
  lemma MoveDecodes(record: seq<byte>)
    ensures Decode(Move, record).Success? <==> |record| == 0x28
    ensures |record| != 0x28 ==> Decode(Move, record) == Failure(SizeMismatch(0x28, |record|))
  {
    MoveShape();
    DecodeSucceeds(Move, record);
    DecodeSchema(Move, record);
  }

  /** The height of a 0x54-byte personal record is the half-word at 0x24
      divided by 100: a species' height in metres. */
  lemma PersonalHeight(record: seq<byte>)
    requires |record| == 0x54
    ensures Decode(Personal, record).Success?
    ensures "height" in Decode(Personal, record).value
    ensures Decode(Personal, record).value["height"] == Ratio(U16(record[0x24..0x26]), 100)
  {
    var pre := PersonalStats + PersonalEvsItems + PersonalBreeding + PersonalForm[..4];
    var f := PersonalForm[4];
    var post := PersonalForm[5..] + PersonalTail;
    assert PersonalForm == PersonalForm[..4] + [f] + PersonalForm[5..];
    assert Personal == pre + [f] + post;
    PersonalShape();
    DecodeFieldAt(Personal, pre, f, post, record);
  }

  /** The names of the six effort values, in the order they are packed. */
  const EvNames: seq<string> := ["ev_hp", "ev_atk", "ev_def", "ev_spe", "ev_spa", "ev_spd"]

  /** Effort value `i` of a 0x54-byte personal record is the `i`-th two-bit
      group of the half-word at 0x0a, counted from the least significant
      bits: `(h >> 2i) & 3`. */
  lemma PersonalEffort(record: seq<byte>, i: nat)
    requires |record| == 0x54 && i < 6
    ensures Decode(Personal, record).Success?
    ensures EvNames[i] in Decode(Personal, record).value
    ensures Decode(Personal, record).value[EvNames[i]] == Int(U16(record[0x0a..0x0c]) / Pow2(2 * i) % 4)
  {
    var f := Personal[10];
    assert f == PersonalEvsItems[0];
    var h := U16(record[0x0a..0x0c]);
    EvsNotLater(EvNames[i]);
    forall j | 10 < j < |Personal|
      ensures EvNames[i] !in NamesOf(Personal[j])
    {
      assert Personal[j] == Personal[11..][j - 11];
    }
    PersonalShape();
    DecodePacked(Personal, record, 10, i);
    assert ReadValue(f.format, record[f.offset..EndOf(f)]) == Int(h);
    assert Pow2(2) == 4;
    var groups := Groups(h, 2, 8);
    assert groups[i] == h / Pow2(2 * i) % 4;
  }

  /** No field after the packed effort values uses one of their names. */
  lemma EvsNotLater(name: string)
    requires name in EvNames
    ensures Unnamed(Personal[11..], name)
  {
    assert Personal[11..] == PersonalEvsItems[1..] + PersonalBreeding + PersonalForm + PersonalTail;
    assert Unnamed(PersonalEvsItems[1..], name);
    assert Unnamed(PersonalBreeding, name);
    assert Unnamed(PersonalForm, name);
    assert Unnamed(PersonalTail, name);
    UnnamedJoin(PersonalEvsItems[1..], PersonalBreeding, name);
    UnnamedJoin(PersonalEvsItems[1..] + PersonalBreeding, PersonalForm, name);
    UnnamedJoin(PersonalEvsItems[1..] + PersonalBreeding + PersonalForm, PersonalTail, name);
  }

  /** The category of a 0x28-byte move record is the byte at 0x02 named by
      the category table, or the number itself when the table lacks it. */
  lemma MoveCategory(record: seq<byte>)
    requires |record| == 0x28
    ensures Decode(Move, record).Success?
    ensures "category" in Decode(Move, record).value
    ensures var c := record[0x02] as int;
            Decode(Move, record).value["category"] == if c in Categories then Categories[c] else Int(c)
  {
    var pre := MoveHead[..1];
    var f := MoveHead[1];
    var post := MoveHead[2..] + MoveEffects + MoveStats;
    assert MoveHead == pre + [f] + MoveHead[2..];
    assert Move == pre + [f] + post;
    CategoryNotLater();
    MoveShape();
    DecodeFieldAt(Move, pre, f, post, record);
  }

  /** No field after the category field is named "category". */
  lemma CategoryNotLater()
    ensures Unnamed(MoveHead[2..] + MoveEffects + MoveStats, "category")
  {
  }
}
