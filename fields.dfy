/** The declarative record decoder: a schema is a list of fields, each with a
    name (or a list of names for a packed field, or none), a byte offset, a
    struct format and an optional value transform. The schema is turned into
    a little-endian struct layout with explicit padding, the record is
    unpacked with it, and the values become a name-to-value dictionary. */
module Fields {
  import opened Binary

  /** The struct formats the schemas use: 'B', 'b', 'H', 'I' and '{n}s'. */
  datatype Format = UByte | SByte | UShort | UInt | Chars(n: nat)

  /** `struct.calcsize` of one format under '<' (standard sizes, no alignment). */
  function Size(f: Format): nat
  {
    match f
    case UByte => 1
    case SByte => 1
    case UShort => 2
    case UInt => 4
    case Chars(n) => n
  }

  /** A decoded value: an integer, a byte string, a label put in by a
      replacement table, a boolean, `None`, an exact quotient (the source's
      float division) or a tuple of values. */
  datatype Value =
    | Int(n: int)
    | Bytes(bytes: seq<byte>)
    | Label(text: string)
    | Flag(flag: bool)
    | Null
    | Ratio(num: int, den: nat)
    | Tuple(items: seq<Value>)

  /** The transforms a field can carry: `replace(table)`, `fill_none`,
      division by a constant, the `is 1` test, `split_field(form, width)` and
      the sign split of a signed byte into a (positive, negated) pair. */
  datatype Transform =
    | Replace(table: map<int, Value>)
    | FillNone
    | Scale(divisor: nat)
    | EqualsOne
    | Split(form: Format, width: nat)
    | SignSplit

  /** A field's identifier: `None`, one name, or a list of names, `None`
      entries included, for a packed field. */
  datatype Ident = Absent | Name(name: string) | Names(names: seq<Option<string>>)

  /** One entry of a record descriptor: identifier, offset, format,
      transform and whether the value is packed. */
  datatype Field = Field(identifier: Ident, offset: nat, format: Format, transform: Option<Transform>, packed: bool)

  /** One element of a struct layout: `{count}x` padding or one value. */
  datatype Item = Pad(count: int) | Prim(format: Format)

  /** `struct.error` for a layout it cannot parse or a record of the wrong
      size, the `TypeError`s of a transform applied to the wrong kind of value,
      of a packed field without a transform or whose transform gives something
      that cannot be zipped, and of a list used as a dictionary key, and the
      `ZeroDivisionError` of a zero divisor or width. */
  datatype FieldError =
    | BadFormat
    | SizeMismatch(expected: nat, actual: nat)
    | BadOperand
    | DivisionByZero
    | NotCallable
    | NotIterable
    | Unhashable

  /** The first byte after field `f`. */
  function EndOf(f: Field): nat
  {
    f.offset + Size(f.format)
  }

  /** The layout `fields_to_fmt` builds with the cursor at `cursor`: each
      field is preceded by the padding from the end of the previous field
      (or from the cursor) to its own offset. */
  function LayoutFrom(fields: seq<Field>, cursor: int): (layout: seq<Item>)
    ensures |layout| == 2 * |fields|
  {
    if fields == [] then []
    else [Pad(fields[0].offset - cursor), Prim(fields[0].format)] + LayoutFrom(fields[1..], EndOf(fields[0]))
  }

  /** Item `2k + 1` of the layout is field `k`'s value and item `2k` the
      padding in front of it: from the cursor for the first field, from the
      end of the previous field for the others. */
  lemma {:induction false} LayoutItems(fields: seq<Field>, cursor: int)
    ensures forall k :: 0 <= k < |fields| ==> LayoutFrom(fields, cursor)[2 * k + 1] == Prim(fields[k].format)
    ensures |fields| > 0 ==> LayoutFrom(fields, cursor)[0] == Pad(fields[0].offset - cursor)
    ensures forall k :: 0 < k < |fields| ==>
              LayoutFrom(fields, cursor)[2 * k] == Pad(fields[k].offset - EndOf(fields[k - 1]))
    decreases |fields|
  {
    if fields != [] {
      var layout, rest := LayoutFrom(fields, cursor), LayoutFrom(fields[1..], EndOf(fields[0]));
      LayoutItems(fields[1..], EndOf(fields[0]));
      forall k | 0 < k < |fields|
        ensures layout[2 * k + 1] == Prim(fields[k].format)
        ensures layout[2 * k] == Pad(fields[k].offset - EndOf(fields[k - 1]))
      {
        assert layout[2 * k + 1] == rest[2 * (k - 1) + 1];
        assert layout[2 * k] == rest[2 * (k - 1)];
        assert fields[1..][k - 1] == fields[k];
        if k > 1 {
          assert fields[1..][k - 2] == fields[k - 1];
        }
      }
    }
  }

  /** `fields_to_fmt`: the layout string built field by field, the cursor
      moving to the end of each field. */
  method FieldsToFmt(fields: seq<Field>) returns (layout: seq<Item>)
    ensures layout == LayoutFrom(fields, 0)
  {
    layout := [];
    var offset := 0;
    var i := 0;
    assert fields[0..] == fields;
    while i < |fields|
      invariant 0 <= i <= |fields|
      invariant layout + LayoutFrom(fields[i..], offset) == LayoutFrom(fields, 0)
    {
      var field := fields[i];
      var disp := field.offset - offset;
      LayoutLoopStep(fields, i, offset, layout);
      layout := layout + [Pad(disp), Prim(field.format)];
      offset := field.offset + Size(field.format);
      i := i + 1;
    }
    assert fields[i..] == [];
  }

  /** One turn of the `fields_to_fmt` loop: field `i` moves from the part
      still to be laid out to the layout built so far. */
  lemma LayoutLoopStep(fields: seq<Field>, i: nat, offset: int, layout: seq<Item>)
    requires i < |fields|
    ensures layout + LayoutFrom(fields[i..], offset)
            == (layout + [Pad(fields[i].offset - offset), Prim(fields[i].format)]) + LayoutFrom(fields[i + 1..], EndOf(fields[i]))
  {
    var rest := fields[i..];
    assert rest[0] == fields[i] && rest[1..] == fields[i + 1..];
    LayoutStep(rest, offset);
  }

  /** One field of the layout: its padding, its value, then the rest from
      the field's end. */
  lemma LayoutStep(fields: seq<Field>, cursor: int)
    requires fields != []
    ensures LayoutFrom(fields, cursor)
            == [Pad(fields[0].offset - cursor), Prim(fields[0].format)] + LayoutFrom(fields[1..], EndOf(fields[0]))
    ensures LayoutFrom(fields, cursor)[1..][1..] == LayoutFrom(fields[1..], EndOf(fields[0]))
  {
  }

  /** No negative padding count: `struct` refuses a format such as "-2x". */
  predicate PadsValid(layout: seq<Item>)
  {
    forall i :: 0 <= i < |layout| && layout[i].Pad? ==> layout[i].count >= 0
  }

  /** The padding of a layout's tail is valid when the whole layout's is. */
  lemma PadsValidTail(layout: seq<Item>)
    requires layout != [] && PadsValid(layout)
    ensures PadsValid(layout[1..])
  {
    forall i | 0 <= i < |layout[1..]| && layout[1..][i].Pad?
      ensures layout[1..][i].count >= 0
    {
      assert layout[1..][i] == layout[i + 1];
    }
  }

  /** `struct.calcsize` of a layout. */
  function LayoutSize(layout: seq<Item>): int
  {
    if layout == [] then 0
    else (match layout[0] case Pad(c) => c case Prim(f) => Size(f)) + LayoutSize(layout[1..])
  }

  /** A layout with valid padding has a size of at least zero. */
  lemma {:induction false} LayoutSizeNonNegative(layout: seq<Item>)
    requires PadsValid(layout)
    ensures LayoutSize(layout) >= 0
  {
    if layout != [] {
      PadsValidTail(layout);
      LayoutSizeNonNegative(layout[1..]);
    }
  }

  /** Number of values a layout unpacks to. */
  function Prims(layout: seq<Item>): nat
  {
    if layout == [] then 0 else (if layout[0].Prim? then 1 else 0) + Prims(layout[1..])
  }

  /** One value of format `f` from its bytes; 'b' is two's complement. */
  function ReadValue(f: Format, b: seq<byte>): Value
    requires |b| == Size(f)
  {
    match f
    case UByte => Int(b[0] as int)
    case SByte => Int(if b[0] < 0x80 then b[0] as int else b[0] as int - 0x100)
    case UShort => Int(U16(b))
    case UInt => Int(U32(b))
    case Chars(_) => Bytes(b)
  }

  /** The values of `layout` read from `record` starting at `pos`. */
  function ReadItems(layout: seq<Item>, record: seq<byte>, pos: nat): (values: seq<Value>)
    requires PadsValid(layout) && pos + LayoutSize(layout) <= |record|
    ensures |values| == Prims(layout)
  {
    if layout == [] then []
    else
      PadsValidTail(layout);
      LayoutSizeNonNegative(layout[1..]);
      match layout[0]
      case Pad(c) => ReadItems(layout[1..], record, pos + c)
      case Prim(f) => [ReadValue(f, record[pos..pos + Size(f)])] + ReadItems(layout[1..], record, pos + Size(f))
  }

  /** `struct.unpack(layout, record)`: the layout must parse and the record
      must have exactly its size. */
  function Unpack(layout: seq<Item>, record: seq<byte>): (r: Result<seq<Value>, FieldError>)
    ensures r.Success? <==> PadsValid(layout) && |record| == LayoutSize(layout)
    ensures !PadsValid(layout) ==> r == Failure(BadFormat)
    ensures PadsValid(layout) && |record| != LayoutSize(layout) ==> r.Failure? && r.error.SizeMismatch?
    ensures r.Success? ==> |r.value| == Prims(layout)
  {
    if !PadsValid(layout) then Failure(BadFormat)
    else if |record| != LayoutSize(layout) then Failure(SizeMismatch(if LayoutSize(layout) < 0 then 0 else LayoutSize(layout), |record|))
    else Success(ReadItems(layout, record, 0))
  }

  /** Fields in increasing order, none overlapping the next, the first one
      not before `cursor`. */
  predicate AscendingFrom(fields: seq<Field>, cursor: int)
  {
    (|fields| > 0 ==> cursor <= fields[0].offset)
    && forall k :: 0 < k < |fields| ==> EndOf(fields[k - 1]) <= fields[k].offset
  }

  /** Where the layout ends: the end of the last field, or the cursor. */
  function End(fields: seq<Field>, cursor: int): int
  {
    if fields == [] then cursor else EndOf(fields[|fields| - 1])
  }

  /** The value of each field read at its own offset. */
  function FieldValues(fields: seq<Field>, record: seq<byte>): (values: seq<Value>)
    requires forall k :: 0 <= k < |fields| ==> EndOf(fields[k]) <= |record|
    ensures |values| == |fields|
  {
    seq(|fields|, k requires 0 <= k < |fields| =>
      var f := fields[k];
      assert EndOf(f) <= |record|;
      ReadValue(f.format, record[f.offset..f.offset + Size(f.format)]))
  }

  /** The fields after the first ascend from where the first one ends. */
  lemma AscendingRest(fields: seq<Field>, cursor: int)
    requires fields != [] && AscendingFrom(fields, cursor)
    ensures AscendingFrom(fields[1..], EndOf(fields[0]))
    ensures End(fields[1..], EndOf(fields[0])) == End(fields, cursor)
  {
  }

  /** The layout of fields in increasing order has no negative padding, its
      size runs from the cursor to the end of the last field, and it yields
      one value per field. */
  lemma {:induction false} LayoutOfAscending(fields: seq<Field>, cursor: int)
    requires AscendingFrom(fields, cursor)
    ensures PadsValid(LayoutFrom(fields, cursor))
    ensures LayoutSize(LayoutFrom(fields, cursor)) == End(fields, cursor) - cursor
    ensures Prims(LayoutFrom(fields, cursor)) == |fields|
    decreases |fields|
  {
    if fields != [] {
      var rest := LayoutFrom(fields[1..], EndOf(fields[0]));
      AscendingRest(fields, cursor);
      LayoutOfAscending(fields[1..], EndOf(fields[0]));
      var layout := LayoutFrom(fields, cursor);
      assert layout == [Pad(fields[0].offset - cursor), Prim(fields[0].format)] + rest;
      assert layout[1..] == [Prim(fields[0].format)] + rest;
      assert layout[1..][1..] == rest;
    }
  }

  /** Conversely, a field that starts before the end of the previous one
      gives a negative padding count. */
  lemma OverlapIsBadFormat(fields: seq<Field>, cursor: int)
    requires !AscendingFrom(fields, cursor)
    ensures !PadsValid(LayoutFrom(fields, cursor))
  {
    var layout := LayoutFrom(fields, cursor);
    LayoutItems(fields, cursor);
    if |fields| > 0 && fields[0].offset < cursor {
      assert layout[0].count < 0;
    } else {
      var k :| 0 < k < |fields| && fields[k].offset < EndOf(fields[k - 1]);
      assert layout[2 * k].count < 0;
    }
  }

  /** Unpacking one field: skip to its offset, read its bytes, carry on
      from its end. */
  lemma ReadStep(fields: seq<Field>, cursor: nat, record: seq<byte>)
    requires fields != [] && cursor <= fields[0].offset
    requires PadsValid(LayoutFrom(fields[1..], EndOf(fields[0])))
    requires LayoutSize(LayoutFrom(fields[1..], EndOf(fields[0]))) >= 0
    requires EndOf(fields[0]) + LayoutSize(LayoutFrom(fields[1..], EndOf(fields[0]))) <= |record|
    ensures PadsValid(LayoutFrom(fields, cursor))
    ensures cursor + LayoutSize(LayoutFrom(fields, cursor)) <= |record|
    ensures ReadItems(LayoutFrom(fields, cursor), record, cursor)
            == [ReadValue(fields[0].format, record[fields[0].offset..EndOf(fields[0])])]
               + ReadItems(LayoutFrom(fields[1..], EndOf(fields[0])), record, EndOf(fields[0]))
  {
    var f := fields[0];
    LayoutStep(fields, cursor);
    ReadPadThenValue(cursor, f.offset, EndOf(f), f.format, LayoutFrom(fields[1..], EndOf(f)), LayoutFrom(fields, cursor), record);
  }

  /** Reading the padding from `pos` to `at` followed by a value skips the
      padding and reads the value's bytes from `at` to `stop`. */
  lemma ReadPadThenValue(pos: nat, at: nat, stop: nat, f: Format, rest: seq<Item>, layout: seq<Item>, record: seq<byte>)
    requires pos <= at && stop == at + Size(f) && layout == [Pad(at - pos), Prim(f)] + rest
    requires PadsValid(rest) && LayoutSize(rest) >= 0 && stop + LayoutSize(rest) <= |record|
    ensures PadsValid(layout)
    ensures LayoutSize(layout) == stop - pos + LayoutSize(rest)
    ensures ReadItems(layout, record, pos) == [ReadValue(f, record[at..stop])] + ReadItems(rest, record, stop)
  {
    assert layout[1..] == [Prim(f)] + rest;
    assert layout[1..][1..] == rest;
    assert PadsValid(layout) by {
      forall i | 0 <= i < |layout| && layout[i].Pad?
        ensures layout[i].count >= 0
      {
        if i >= 2 {
          assert layout[i] == rest[i - 2];
        }
      }
    }
    PadsValidTail(layout);
  }

  /** The values of a schema are the first field's value followed by the
      rest's. */
  lemma FieldValuesStep(fields: seq<Field>, record: seq<byte>)
    requires fields != [] && forall k :: 0 <= k < |fields| ==> EndOf(fields[k]) <= |record|
    ensures FieldValues(fields, record)
            == [ReadValue(fields[0].format, record[fields[0].offset..EndOf(fields[0])])] + FieldValues(fields[1..], record)
  {
    var all, rest := FieldValues(fields, record), FieldValues(fields[1..], record);
    forall k | 1 <= k < |fields|
      ensures all[k] == rest[k - 1]
    {
      assert fields[1..][k - 1] == fields[k];
    }
  }

  /** Unpacking a record with the layout of ascending fields reads every
      field at its own offset. */
  lemma {:induction false} ReadAtOffsets(fields: seq<Field>, cursor: nat, record: seq<byte>)
    requires AscendingFrom(fields, cursor) && End(fields, cursor) <= |record|
    ensures PadsValid(LayoutFrom(fields, cursor))
    ensures LayoutSize(LayoutFrom(fields, cursor)) == End(fields, cursor) - cursor
    ensures forall k :: 0 <= k < |fields| ==> EndOf(fields[k]) <= |record|
    ensures ReadItems(LayoutFrom(fields, cursor), record, cursor) == FieldValues(fields, record)
    decreases |fields|
  {
    LayoutOfAscending(fields, cursor);
    EndsBelowLast(fields, cursor);
    if fields != [] {
      var f := fields[0];
      AscendingRest(fields, cursor);
      LayoutOfAscending(fields[1..], EndOf(f));
      ReadAtOffsets(fields[1..], EndOf(f), record);
      ReadStep(fields, cursor, record);
      FieldValuesStep(fields, record);
    }
  }

  /** Every field of an ascending schema ends no later than the schema. */
  lemma {:induction false} EndsBelowLast(fields: seq<Field>, cursor: int)
    requires AscendingFrom(fields, cursor)
    ensures forall k :: 0 <= k < |fields| ==> EndOf(fields[k]) <= End(fields, cursor)
    decreases |fields|
  {
    if |fields| > 1 {
      var init := fields[..|fields| - 1];
      assert AscendingFrom(init, cursor);
      EndsBelowLast(init, cursor);
      assert End(init, cursor) == EndOf(fields[|fields| - 2]);
    }
  }

  /** What `struct.unpack(fields_to_fmt(fields), record)` gives for a
      schema in ascending order: every field read at its own offset when the
      record is exactly as long as the schema, a size error otherwise. */
  lemma UnpackSchema(fields: seq<Field>, record: seq<byte>)
    requires AscendingFrom(fields, 0)
    ensures forall k :: 0 <= k < |fields| ==> EndOf(fields[k]) <= End(fields, 0)
    ensures |record| == End(fields, 0) ==> Unpack(LayoutFrom(fields, 0), record) == Success(FieldValues(fields, record))
    ensures |record| != End(fields, 0) ==> Unpack(LayoutFrom(fields, 0), record) == Failure(SizeMismatch(End(fields, 0), |record|))
  {
    LayoutOfAscending(fields, 0);
    EndsBelowLast(fields, 0);
    if |record| == End(fields, 0) {
      ReadAtOffsets(fields, 0, record);
    }
  }

  /** The sixteen-bit words of `bs` taken `width` bits at a time, least
      significant group first: group `i` is bits `width * i` up to
      `width * (i + 1)`. */
  function Groups(bs: int, width: nat, count: nat): (values: seq<int>)
    requires width > 0
    ensures |values| == count
    ensures forall i :: 0 <= i < count ==> 0 <= values[i] < Pow2(width)
  {
    seq(count, i requires 0 <= i < count => (bs / Pow2(width * i)) % Pow2(width))
  }

  /** `split_field(form, width)` applied to `bs`: one group per `width` bits
      of the format, `(bs & (mask << shift)) >> shift` being the group of
      bits at `shift`. */
  method SplitField(form: Format, width: nat, bs: int) returns (result: seq<int>)
    requires width > 0
    ensures result == Groups(bs, width, 8 * Size(form) / width)
  {
    var size := Size(form);
    result := [];
    var mask := Pow2(width) - 1;
    var idx := 0;
    while idx < 8 * size / width
      invariant 0 <= idx <= 8 * size / width
      invariant result == Groups(bs, width, idx)
    {
      var shift := width * idx;
      var value := (bs / Pow2(shift)) % (mask + 1);
      result := result + [value];
      idx := idx + 1;
    }
  }

  /** The number with `values` as its `width`-bit groups, least significant
      first. */
  function Recombine(values: seq<int>, width: nat): int
  {
    if values == [] then 0 else values[0] + Pow2(width) * Recombine(values[1..], width)
  }

  /** Dropping the lowest group of `bs` is taking the groups of `bs` shifted
      down by one group. */
  lemma GroupsShift(bs: nat, width: nat, count: nat)
    requires width > 0 && count > 0
    ensures Groups(bs, width, count) == [bs % Pow2(width)] + Groups(bs / Pow2(width), width, count - 1)
  {
    var g, h := Groups(bs, width, count), Groups(bs / Pow2(width), width, count - 1);
    forall i | 1 <= i < count
      ensures g[i] == h[i - 1]
    {
      Pow2Add(width, width * (i - 1));
      assert width + width * (i - 1) == width * i;
      DivDiv(bs, Pow2(width), Pow2(width * (i - 1)));
    }
    assert g[0] == bs % Pow2(width);
  }

  /** The groups put back together give the low `width * count` bits of
      `bs`. */
  lemma {:induction false} RecombineGroups(bs: nat, width: nat, count: nat)
    requires width > 0
    ensures Recombine(Groups(bs, width, count), width) == bs % Pow2(width * count)
    decreases count
  {
    if count == 0 {
      assert Groups(bs, width, 0) == [];
      assert Pow2(width * count) == 1;
    } else {
      var p, low := Pow2(width), width * (count - 1);
      var q := Pow2(low);
      DivisionParts(bs, p);
      var hi: nat := bs / p;
      var rest := Groups(hi, width, count - 1);
      GroupsShift(bs, width, count);
      assert Recombine(Groups(bs, width, count), width) == bs % p + p * Recombine(rest, width) by {
        var g := Groups(bs, width, count);
        assert g[0] == bs % p && g[1..] == rest;
      }
      RecombineGroups(hi, width, count - 1);
      DivDiv(bs, p, q);
      Pow2Add(width, low);
      MulStep(width, count);
      calc {
        bs % Pow2(width * count);
        bs % Pow2(width + low);
        bs % (p * q);
        bs % p + p * (bs / p % q);
        bs % p + p * Recombine(rest, width);
      }
    }
  }

  /** Multiplying by `b` adds `a` once more than multiplying by `b - 1`. */
  lemma MulStep(a: nat, b: nat)
    requires b > 0
    ensures a * b == a + a * (b - 1)
  {
  }

  /** A value that fits in the format, split into groups of a width that
      divides the format's bit size, is recombined exactly. */
  lemma SplitRoundTrip(form: Format, width: nat, bs: nat)
    requires width > 0 && (8 * Size(form)) % width == 0
    requires bs < Pow2(8 * Size(form))
    ensures Recombine(Groups(bs, width, 8 * Size(form) / width), width) == bs
  {
    var bits := 8 * Size(form);
    var count := bits / width;
    DivisionParts(bits, width);
    assert width * count == bits;
    RecombineGroups(bs, width, count);
    DivUnique(bs, Pow2(bits), 0, bs);
  }

  /** The items `zip` walks over in a transform's result: a tuple's
      elements, a string's characters, a byte string's integers; nothing
      else can be iterated. */
  function Iterate(v: Value): (r: Option<seq<Value>>)
    ensures v.Tuple? ==> r == Some(v.items)
    ensures v.Int? || v.Flag? || v.Null? || v.Ratio? ==> r.None?
  {
    match v
    case Tuple(items) => Some(items)
    case Label(text) => Some(seq(|text|, i requires 0 <= i < |text| => Label([text[i]])))
    case Bytes(b) => Some(seq(|b|, i requires 0 <= i < |b| => Int(b[i] as int)))
    case _ => None
  }

  /** One transform applied to one value. */
  function Apply(t: Transform, v: Value): (r: Result<Value, FieldError>)
  {
    match t
    case Replace(table) => Success(if v.Int? && v.n in table then table[v.n] else v)
    case FillNone => Success(if v == Int(0) then Null else v)
    case Scale(d) =>
      if !v.Int? then Failure(BadOperand)
      else if d == 0 then Failure(DivisionByZero)
      else Success(Ratio(v.n, d))
    case EqualsOne => Success(Flag(v == Int(1)))
    case Split(form, width) =>
      if !v.Int? then Failure(BadOperand)
      else if width == 0 then Failure(DivisionByZero)
      else
        var groups := Groups(v.n, width, 8 * Size(form) / width);
        Success(Tuple(seq(|groups|, i requires 0 <= i < |groups| => Int(groups[i]))))
    case SignSplit =>
      if !v.Int? then Failure(BadOperand)
      else if v.n > 0 then Success(Tuple([Int(v.n), Int(0)]))
      else Success(Tuple([Int(0), Int(-v.n)]))
  }

  /** `replace(table)` looks the value up and falls back to the value itself;
      `fill_none` turns 0, and only 0, into `None`. */
  lemma ReplaceAndFillNone(table: map<int, Value>, v: Value)
    ensures v.Int? && v.n in table ==> Apply(Replace(table), v) == Success(table[v.n])
    ensures !(v.Int? && v.n in table) ==> Apply(Replace(table), v) == Success(v)
    ensures Apply(FillNone, v).Success?
    ensures v != Int(0) ==> Apply(FillNone, v) == Success(v)
    ensures Apply(FillNone, Int(0)) == Success(Null)
  {
  }

  /** The sign split of a signed value: the first item is its positive part,
      the second its negated negative part; both are non-negative and at
      most one is non-zero. */
  lemma SignSplitParts(n: int)
    ensures var r := Apply(SignSplit, Int(n));
            r.Success? && r.value.Tuple? && |r.value.items| == 2
            && r.value.items[0].Int? && r.value.items[1].Int?
            && r.value.items[0].n >= 0 && r.value.items[1].n >= 0
            && r.value.items[0].n - r.value.items[1].n == n
            && (r.value.items[0].n == 0 || r.value.items[1].n == 0)
  {
  }

  /** `zip(names, items)` with the pairs whose name is `None` left out. */
  function NamedPairs(names: seq<Option<string>>, items: seq<Value>): (pairs: seq<(string, Value)>)
    ensures |pairs| <= |items| && |pairs| <= |names|
    ensures forall p :: p in pairs ==> Some(p.0) in names[..if |names| < |items| then |names| else |items|]
  {
    if names == [] || items == [] then []
    else
      var rest := NamedPairs(names[1..], items[1..]);
      assert forall p :: p in rest ==> Some(p.0) in names[..if |names| < |items| then |names| else |items|] by {
        var m := if |names| < |items| then |names| else |items|;
        assert names[1..][..m - 1] == names[1..m];
      }
      match names[0]
      case None => rest
      case Some(name) => [(name, items[0])] + rest
  }

  /** How many of the first `i` names are present. */
  function NamedCount(names: seq<Option<string>>, i: nat): nat
    requires i <= |names|
  {
    if i == 0 then 0 else (if names[0].Some? then 1 else 0) + NamedCount(names[1..], i - 1)
  }

  /** The exact content of `NamedPairs`: one entry per present name among
      the first `min(|names|, |items|)`, in order, entry number
      `NamedCount(names, i)` pairing name `i` with item `i`. */
  lemma {:induction false} NamedPairsAt(names: seq<Option<string>>, items: seq<Value>)
    ensures var m := if |names| < |items| then |names| else |items|;
            |NamedPairs(names, items)| == NamedCount(names, m)
    ensures forall i :: 0 <= i < |names| && i < |items| && names[i].Some? ==>
              NamedCount(names, i) < |NamedPairs(names, items)|
              && NamedPairs(names, items)[NamedCount(names, i)] == (names[i].value, items[i])
  {
    NamedPairsCount(names, items);
    forall i | 0 <= i < |names| && i < |items| && names[i].Some?
      ensures NamedCount(names, i) < |NamedPairs(names, items)|
              && NamedPairs(names, items)[NamedCount(names, i)] == (names[i].value, items[i])
    {
      NamedPairAt(names, items, i);
    }
  }

  /** There is one entry per present name among the first
      `min(|names|, |items|)`. */
  lemma {:induction false} NamedPairsCount(names: seq<Option<string>>, items: seq<Value>)
    ensures var m := if |names| < |items| then |names| else |items|;
            |NamedPairs(names, items)| == NamedCount(names, m)
    decreases |names|
  {
    if names != [] && items != [] {
      var head := if names[0].Some? then [(names[0].value, items[0])] else [];
      NamedPairsCons(names, items, head, NamedPairs(names[1..], items[1..]));
      NamedPairsCount(names[1..], items[1..]);
    }
  }

  /** A present name `i` with an item has its entry at `NamedCount(names, i)`. */
  lemma {:induction false} NamedPairAt(names: seq<Option<string>>, items: seq<Value>, i: nat)
    requires i < |names| && i < |items| && names[i].Some?
    ensures NamedCount(names, i) < |NamedPairs(names, items)|
            && NamedPairs(names, items)[NamedCount(names, i)] == (names[i].value, items[i])
    decreases i
  {
    var head := if names[0].Some? then [(names[0].value, items[0])] else [];
    var rest := NamedPairs(names[1..], items[1..]);
    NamedPairsCons(names, items, head, rest);
    if i > 0 {
      assert names[1..][i - 1] == names[i] && items[1..][i - 1] == items[i];
      NamedPairAt(names[1..], items[1..], i - 1);
      assert NamedCount(names, i) == |head| + NamedCount(names[1..], i - 1);
    }
  }

  /** The first name's entry, if any, then the entries of the others. */
  lemma NamedPairsCons(names: seq<Option<string>>, items: seq<Value>, head: seq<(string, Value)>, rest: seq<(string, Value)>)
    requires names != [] && items != []
    requires head == (if names[0].Some? then [(names[0].value, items[0])] else [])
    requires rest == NamedPairs(names[1..], items[1..])
    ensures NamedPairs(names, items) == head + rest
    ensures var m := if |names| < |items| then |names| else |items|;
            NamedCount(names, m) == |head| + NamedCount(names[1..], m - 1)
  {
  }

  /** No entry carries a name that none of the names is. */
  lemma {:induction false} NamedPairsWithout(names: seq<Option<string>>, items: seq<Value>, name: string)
    requires forall j :: 0 <= j < |names| ==> names[j] != Some(name)
    ensures forall p :: p in NamedPairs(names, items) ==> p.0 != name
    decreases |names|
  {
    if names != [] && items != [] {
      var head := if names[0].Some? then [(names[0].value, items[0])] else [];
      NamedPairsCons(names, items, head, NamedPairs(names[1..], items[1..]));
      assert forall j :: 0 <= j < |names[1..]| ==> names[1..][j] == names[j + 1];
      NamedPairsWithout(names[1..], items[1..], name);
    }
  }

  /** Zipping two stretches of names with two stretches of items of the same
      lengths zips each in turn. */
  lemma {:induction false} NamedPairsAppend(a: seq<Option<string>>, b: seq<Option<string>>, x: seq<Value>, y: seq<Value>)
    requires |a| == |x|
    ensures NamedPairs(a + b, x + y) == NamedPairs(a, x) + NamedPairs(b, y)
    decreases |a|
  {
    if a != [] {
      var head := if a[0].Some? then [(a[0].value, x[0])] else [];
      assert (a + b)[0] == a[0] && (x + y)[0] == x[0];
      assert (a + b)[1..] == a[1..] + b && (x + y)[1..] == x[1..] + y;
      NamedPairsCons(a + b, x + y, head, NamedPairs(a[1..] + b, x[1..] + y));
      NamedPairsCons(a, x, head, NamedPairs(a[1..], x[1..]));
      NamedPairsAppend(a[1..], b, x[1..], y);
      AppendAssoc(head, NamedPairs(a[1..], x[1..]), NamedPairs(b, y));
    } else {
      assert a + b == b && x + y == y;
    }
  }

  /** The names of a packed field: its list, or the characters of a single
      string, which is what `zip` makes of one. */
  function PackedNames(id: Ident): seq<Option<string>>
  {
    match id
    case Absent => []
    case Name(s) => seq(|s|, i requires 0 <= i < |s| => Some([s[i]]))
    case Names(ns) => ns
  }

  /** The dictionary entries one field contributes for its unpacked value:
      none without an identifier; for a packed field the names zipped with
      the transform's result; otherwise the name with the transformed (or
      raw) value. */
  function Contribute(f: Field, v: Value): (r: Result<seq<(string, Value)>, FieldError>)
    ensures f.identifier.Absent? ==> r == Success([])
    ensures f.packed && f.transform.None? && !f.identifier.Absent? ==> r == Failure(NotCallable)
    ensures !f.packed && f.identifier.Name? && f.transform.None? ==> r == Success([(f.identifier.name, v)])
    ensures !f.packed && f.identifier.Names? ==> r.Failure?
    ensures r.Success? && !f.packed ==> |r.value| <= 1
  {
    if f.identifier.Absent? then Success([])
    else if f.packed then
      match f.transform
      case None => Failure(NotCallable)
      case Some(t) =>
        match Apply(t, v)
        case Failure(e) => Failure(e)
        case Success(out) =>
          match Iterate(out)
          case None => Failure(NotIterable)
          case Some(items) => Success(NamedPairs(PackedNames(f.identifier), items))
    else
      var out := if f.transform.Some? then Apply(f.transform.value, v) else Success(v);
      match out
      case Failure(e) => Failure(e)
      case Success(x) => if f.identifier.Names? then Failure(Unhashable) else Success([(f.identifier.name, x)])
  }

  /** `d.update(pairs)` / `d[k] = v` in order: later entries win. */
  function Fill(d: map<string, Value>, pairs: seq<(string, Value)>): map<string, Value>
    decreases |pairs|
  {
    if pairs == [] then d else Fill(d[pairs[0].0 := pairs[0].1], pairs[1..])
  }

  /** The entries of every field, in order, `zip` stopping at the shorter
      list. */
  function AllPairs(fields: seq<Field>, data: seq<Value>): Result<seq<(string, Value)>, FieldError>
  {
    if fields == [] || data == [] then Success([])
    else
      match Contribute(fields[0], data[0])
      case Failure(e) => Failure(e)
      case Success(pairs) =>
        match AllPairs(fields[1..], data[1..])
        case Failure(e) => Failure(e)
        case Success(rest) => Success(pairs + rest)
  }

  /** The dictionary loop of `to_record` from dictionary `d` on. */
  function Collect(fields: seq<Field>, data: seq<Value>, d: map<string, Value>): Result<map<string, Value>, FieldError>
  {
    if fields == [] || data == [] then Success(d)
    else
      match Contribute(fields[0], data[0])
      case Failure(e) => Failure(e)
      case Success(pairs) => Collect(fields[1..], data[1..], Fill(d, pairs))
  }

  /** `to_record(fields, record)`. */
  function Decode(fields: seq<Field>, record: seq<byte>): Result<map<string, Value>, FieldError>
  {
    match Unpack(LayoutFrom(fields, 0), record)
    case Failure(e) => Failure(e)
    case Success(data) => Collect(fields, data, map[])
  }

  /** `to_record`: unpack, then fill the dictionary field by field. */
  method ToRecord(fields: seq<Field>, record: seq<byte>) returns (r: Result<map<string, Value>, FieldError>)
    ensures r == Decode(fields, record)
  {
    var layout := FieldsToFmt(fields);
    var unpacked := Unpack(layout, record);
    if unpacked.Failure? {
      return Failure(unpacked.error);
    }
    var data := unpacked.value;
    var d: map<string, Value> := map[];
    var i := 0;
    while i < |fields| && i < |data|
      invariant 0 <= i <= |fields| && i <= |data|
      invariant Collect(fields[i..], data[i..], d) == Decode(fields, record)
    {
      assert fields[i..][1..] == fields[i + 1..] && data[i..][1..] == data[i + 1..];
      var field := fields[i];
      var entries := Contribute(field, data[i]);
      if entries.Failure? {
        return Failure(entries.error);
      }
      d := Fill(d, entries.value);
      i := i + 1;
    }
    return Success(d);
  }

  /** Filling with two lists of entries is filling with the first and then
      the second. */
  lemma {:induction false} FillAppend(d: map<string, Value>, a: seq<(string, Value)>, b: seq<(string, Value)>)
    ensures Fill(Fill(d, a), b) == Fill(d, a + b)
    decreases |a|
  {
    if a == [] {
      assert a + b == b;
    } else {
      FillAppend(d[a[0].0 := a[0].1], a[1..], b);
      assert (a + b)[0] == a[0];
      assert (a + b)[1..] == a[1..] + b;
    }
  }

  /** Filling adds exactly the names of the pairs; a name that no pair
      carries keeps its value. */
  lemma {:induction false} FillKeys(d: map<string, Value>, pairs: seq<(string, Value)>)
    ensures Fill(d, pairs).Keys == d.Keys + set p | p in pairs :: p.0
    ensures forall k :: k in d && (forall p :: p in pairs ==> p.0 != k) ==> Fill(d, pairs)[k] == d[k]
    decreases |pairs|
  {
    if pairs != [] {
      FillKeys(d[pairs[0].0 := pairs[0].1], pairs[1..]);
      assert forall p :: p in pairs <==> p == pairs[0] || p in pairs[1..];
    }
  }

  /** A name carried by one pair only gets that pair's value. */
  lemma {:induction false} FillUnique(d: map<string, Value>, pairs: seq<(string, Value)>, j: nat)
    requires j < |pairs|
    requires forall i :: 0 <= i < |pairs| && i != j ==> pairs[i].0 != pairs[j].0
    ensures pairs[j].0 in Fill(d, pairs) && Fill(d, pairs)[pairs[j].0] == pairs[j].1
    decreases |pairs|
  {
    if j == 0 {
      var d' := d[pairs[0].0 := pairs[0].1];
      FillKeys(d', pairs[1..]);
      assert forall p :: p in pairs[1..] ==> p.0 != pairs[0].0;
    } else {
      FillUnique(d[pairs[0].0 := pairs[0].1], pairs[1..], j - 1);
    }
  }

  /** Filling field by field is filling once with all the entries. */
  lemma {:induction false} CollectIsFill(fields: seq<Field>, data: seq<Value>, d: map<string, Value>)
    ensures Collect(fields, data, d) ==
              match AllPairs(fields, data)
              case Failure(e) => Failure(e)
              case Success(ps) => Success(Fill(d, ps))
    decreases |fields|
  {
    if fields != [] && data != [] {
      match Contribute(fields[0], data[0])
      case Failure(e) =>
      case Success(pairs) =>
        CollectIsFill(fields[1..], data[1..], Fill(d, pairs));
        match AllPairs(fields[1..], data[1..])
        case Failure(e) =>
        case Success(rest) =>
          FillAppend(d, pairs, rest);
    }
  }

  /** For an ascending schema and a record of exactly its size, decoding
      fills the dictionary with the entries of every field read at its own
      offset; when no name is given twice, every entry is found under its
      name. A record of any other size fails with a size error. */
  lemma {:induction false} DecodeSchema(fields: seq<Field>, record: seq<byte>)
    requires AscendingFrom(fields, 0)
    ensures |record| != End(fields, 0) ==> Decode(fields, record) == Failure(SizeMismatch(End(fields, 0), |record|))
    ensures forall k :: 0 <= k < |fields| ==> EndOf(fields[k]) <= End(fields, 0)
    ensures |record| == End(fields, 0) ==>
              var all := AllPairs(fields, FieldValues(fields, record));
              (all.Failure? ==> Decode(fields, record) == Failure(all.error))
              && (all.Success? ==> Decode(fields, record) == Success(Fill(map[], all.value)))
              && (all.Success? ==>
                    forall j :: 0 <= j < |all.value| && (forall i :: 0 <= i < |all.value| && i != j ==> all.value[i].0 != all.value[j].0) ==>
                      all.value[j].0 in Decode(fields, record).value && Decode(fields, record).value[all.value[j].0] == all.value[j].1)
  {
    UnpackSchema(fields, record);
    if |record| == End(fields, 0) {
      var data := FieldValues(fields, record);
      CollectIsFill(fields, data, map[]);
      var all := AllPairs(fields, data);
      if all.Success? {
        forall j | 0 <= j < |all.value| && (forall i :: 0 <= i < |all.value| && i != j ==> all.value[i].0 != all.value[j].0)
          ensures all.value[j].0 in Fill(map[], all.value) && Fill(map[], all.value)[all.value[j].0] == all.value[j].1
        {
          FillUnique(map[], all.value, j);
        }
      }
    }
  }

  /** A schema whose fields overlap is refused before the record is looked
      at. */
  lemma OverlapRefused(fields: seq<Field>, record: seq<byte>)
    requires !AscendingFrom(fields, 0)
    ensures Decode(fields, record) == Failure(BadFormat)
  {
    OverlapIsBadFormat(fields, 0);
  }

  /** Two runs of ascending fields, the second starting after the first,
      make one run that ends where the second does. */
  lemma AscendingJoin(a: seq<Field>, b: seq<Field>, cursor: int)
    requires AscendingFrom(a, cursor) && AscendingFrom(b, End(a, cursor))
    ensures AscendingFrom(a + b, cursor) && End(a + b, cursor) == End(b, End(a, cursor))
  {
    if a == [] {
      assert a + b == b;
    } else if b == [] {
      assert a + b == a;
    } else {
      forall k | 0 < k < |a + b|
        ensures EndOf((a + b)[k - 1]) <= (a + b)[k].offset
      {
        if k < |a| {
          assert (a + b)[k - 1] == a[k - 1] && (a + b)[k] == a[k];
        } else if k == |a| {
          assert (a + b)[k - 1] == a[|a| - 1] && (a + b)[k] == b[0];
        } else {
          assert (a + b)[k - 1] == b[k - 1 - |a|] && (a + b)[k] == b[k - |a|];
        }
      }
      assert (a + b)[|a + b| - 1] == b[|b| - 1];
    }
  }

  /** A value of the kind format `f` unpacks to. */
  predicate Fits(f: Format, v: Value)
  {
    if f.Chars? then v.Bytes? else v.Int?
  }

  /** Transform `t` accepts every value of format `f`. */
  predicate Accepts(t: Transform, f: Format)
  {
    match t
    case Replace(_) => true
    case FillNone => true
    case EqualsOne => true
    case Scale(d) => !f.Chars? && d > 0
    case Split(_, width) => !f.Chars? && width > 0
    case SignSplit => !f.Chars?
  }

  /** A field that contributes to the dictionary whatever its bytes: no
      identifier, or one name with a transform that accepts the field's
      values, or a list of names with a transform that yields a tuple. */
  predicate Decodable(f: Field)
  {
    f.identifier.Absent?
    || (if f.packed
        then f.transform.Some? && (f.transform.value.Split? || f.transform.value.SignSplit?)
             && Accepts(f.transform.value, f.format)
        else f.identifier.Name? && (f.transform.None? || Accepts(f.transform.value, f.format)))
  }

  /** Every field of the schema is decodable. */
  predicate AllDecodable(fields: seq<Field>)
  {
    forall k :: 0 <= k < |fields| ==> Decodable(fields[k])
  }

  /** Two decodable schemas joined are decodable. */
  lemma DecodableJoin(a: seq<Field>, b: seq<Field>)
    requires AllDecodable(a) && AllDecodable(b)
    ensures AllDecodable(a + b)
  {
    forall k | 0 <= k < |a + b|
      ensures Decodable((a + b)[k])
    {
      if k < |a| {
        assert (a + b)[k] == a[k];
      } else {
        assert (a + b)[k] == b[k - |a|];
      }
    }
  }

  /** A decodable field contributes its entries for every value of its
      format. */
  lemma {:induction false} ContributeSucceeds(f: Field, v: Value)
    requires Decodable(f) && Fits(f.format, v)
    ensures Contribute(f, v).Success?
  {
  }

  /** The entries of every field are found when every field is decodable
      and its value fits its format. */
  lemma {:induction false} AllPairsSucceeds(fields: seq<Field>, data: seq<Value>)
    requires AllDecodable(fields) && |data| == |fields|
    requires forall k :: 0 <= k < |fields| ==> Fits(fields[k].format, data[k])
    ensures AllPairs(fields, data).Success?
    decreases |fields|
  {
    if fields != [] {
      ContributeSucceeds(fields[0], data[0]);
      assert AllDecodable(fields[1..]) by {
        forall k | 0 <= k < |fields[1..]|
          ensures Decodable(fields[1..][k])
        {
          assert fields[1..][k] == fields[k + 1];
        }
      }
      forall k | 0 <= k < |fields[1..]|
        ensures Fits(fields[1..][k].format, data[1..][k])
      {
        assert fields[1..][k] == fields[k + 1] && data[1..][k] == data[k + 1];
      }
      AllPairsSucceeds(fields[1..], data[1..]);
    }
  }

  /** The value unpacked for each field has the kind of its format. */
  lemma {:induction false} FieldValuesFit(fields: seq<Field>, record: seq<byte>)
    requires forall k :: 0 <= k < |fields| ==> EndOf(fields[k]) <= |record|
    ensures forall k :: 0 <= k < |fields| ==> Fits(fields[k].format, FieldValues(fields, record)[k])
  {
  }

  /** For an ascending schema of decodable fields, decoding succeeds exactly
      for the records as long as the schema. */
  lemma {:induction false} DecodeSucceeds(fields: seq<Field>, record: seq<byte>)
    requires AscendingFrom(fields, 0) && AllDecodable(fields)
    ensures Decode(fields, record).Success? <==> |record| == End(fields, 0)
  {
    DecodeSchema(fields, record);
    if |record| == End(fields, 0) {
      FieldValuesFit(fields, record);
      AllPairsSucceeds(fields, FieldValues(fields, record));
    }
  }

  /** The names field `f` can put in the dictionary. */
  function NamesOf(f: Field): set<string>
  {
    if f.identifier.Absent? then {}
    else if f.packed then
      var names := PackedNames(f.identifier);
      set i | 0 <= i < |names| && names[i].Some? :: names[i].value
    else if f.identifier.Name? then {f.identifier.name}
    else {}
  }

  /** The entries of one field carry only names from `NamesOf`. */
  lemma {:induction false} ContributeNames(f: Field, v: Value)
    requires Contribute(f, v).Success?
    ensures forall p :: p in Contribute(f, v).value ==> p.0 in NamesOf(f)
  {
  }

  /** Every entry of a successful run comes from one of the fields. */
  lemma {:induction false} AllPairsNames(fields: seq<Field>, data: seq<Value>)
    requires AllPairs(fields, data).Success?
    ensures forall p :: p in AllPairs(fields, data).value ==> exists j :: 0 <= j < |fields| && p.0 in NamesOf(fields[j])
    decreases |fields|
  {
    if fields != [] && data != [] {
      var pairs := Contribute(fields[0], data[0]).value;
      ContributeNames(fields[0], data[0]);
      AllPairsNames(fields[1..], data[1..]);
      forall p | p in AllPairs(fields, data).value
        ensures exists j :: 0 <= j < |fields| && p.0 in NamesOf(fields[j])
      {
        if p in pairs {
          assert p.0 in NamesOf(fields[0]);
        } else {
          var j :| 0 <= j < |fields[1..]| && p.0 in NamesOf(fields[1..][j]);
          assert fields[1..][j] == fields[j + 1];
        }
      }
    }
  }

  /** Running over two consecutive stretches of fields runs over each in
      turn. */
  lemma {:induction false} AllPairsAppend(a: seq<Field>, b: seq<Field>, da: seq<Value>, db: seq<Value>)
    requires |a| == |da|
    requires AllPairs(a + b, da + db).Success?
    ensures AllPairs(a, da).Success? && AllPairs(b, db).Success?
    ensures AllPairs(a + b, da + db).value == AllPairs(a, da).value + AllPairs(b, db).value
    decreases |a|
  {
    if a == [] {
      assert a + b == b && da + db == db;
    } else {
      var fs, ds := a + b, da + db;
      assert fs[0] == a[0] && ds[0] == da[0];
      assert fs[1..] == a[1..] + b && ds[1..] == da[1..] + db;
      AllPairsAppend(a[1..], b, da[1..], db);
      AppendAssoc(Contribute(a[0], da[0]).value, AllPairs(a[1..], da[1..]).value, AllPairs(b, db).value);
    }
  }

  /** The value a field with a single name gets: its transform's result, or
      the unpacked value itself. */
  function Transformed(f: Field, v: Value): Result<Value, FieldError>
  {
    if f.transform.Some? then Apply(f.transform.value, v) else Success(v)
  }

  /** The entries of a run split around field `k`, a field with a single
      name: those before it, its own, those after it. */
  lemma {:induction false} PairsAround(fields: seq<Field>, data: seq<Value>, k: nat)
    requires |data| == |fields| && k < |fields| && AllPairs(fields, data).Success?
    requires fields[k].identifier.Name? && !fields[k].packed
    ensures Transformed(fields[k], data[k]).Success?
    ensures AllPairs(fields[..k], data[..k]).Success? && AllPairs(fields[k + 1..], data[k + 1..]).Success?
    ensures AllPairs(fields, data).value
            == AllPairs(fields[..k], data[..k]).value
               + ([(fields[k].identifier.name, Transformed(fields[k], data[k]).value)]
                  + AllPairs(fields[k + 1..], data[k + 1..]).value)
  {
    var f, v := fields[k], data[k];
    var post, rest := fields[k + 1..], data[k + 1..];
    assert fields == fields[..k] + ([f] + post);
    assert data == data[..k] + ([v] + rest);
    AllPairsAppend(fields[..k], [f] + post, data[..k], [v] + rest);
    assert ([f] + post)[1..] == post && ([v] + rest)[1..] == rest;
  }

  /** Filling with an entry that no later entry overrides leaves that
      entry's value. */
  lemma {:induction false} FillLast(first: seq<(string, Value)>, name: string, x: Value, tail: seq<(string, Value)>)
    requires forall p :: p in tail ==> p.0 != name
    ensures name in Fill(map[], first + ([(name, x)] + tail))
    ensures Fill(map[], first + ([(name, x)] + tail))[name] == x
  {
    FillAppend(map[], first, [(name, x)] + tail);
    FillAppend(Fill(map[], first), [(name, x)], tail);
    var before := Fill(Fill(map[], first), [(name, x)]);
    assert before == Fill(map[], first)[name := x];
    FillKeys(before, tail);
  }

  /** A record of the right size for a decodable ascending schema decodes
      to the dictionary filled with the entries of all its fields. */
  lemma {:induction false} DecodeIsFill(fields: seq<Field>, record: seq<byte>)
    requires AscendingFrom(fields, 0) && AllDecodable(fields) && |record| == End(fields, 0)
    ensures forall k :: 0 <= k < |fields| ==> EndOf(fields[k]) <= |record|
    ensures AllPairs(fields, FieldValues(fields, record)).Success?
    ensures Decode(fields, record) == Success(Fill(map[], AllPairs(fields, FieldValues(fields, record)).value))
  {
    DecodeSucceeds(fields, record);
    DecodeSchema(fields, record);
  }

  /** When no field after field `k` uses `name`, no entry of theirs has
      that name. */
  lemma {:induction false} NotNamedAfter(fields: seq<Field>, data: seq<Value>, k: nat, name: string)
    requires k < |fields| && k < |data|
    requires AllPairs(fields[k + 1..], data[k + 1..]).Success?
    requires forall j :: k < j < |fields| ==> name !in NamesOf(fields[j])
    ensures forall p :: p in AllPairs(fields[k + 1..], data[k + 1..]).value ==> p.0 != name
  {
    var post := fields[k + 1..];
    AllPairsNames(post, data[k + 1..]);
    forall p | p in AllPairs(post, data[k + 1..]).value
      ensures p.0 != name
    {
      var j :| 0 <= j < |post| && p.0 in NamesOf(post[j]);
      assert post[j] == fields[k + 1 + j];
    }
  }

  /** In a decodable ascending schema, a field with its own name that no
      later field uses ends up in the dictionary with its transformed value,
      read at its offset: later entries overwrite earlier ones, so fields
      before it may use the name too. */
  lemma {:induction false} DecodeField(fields: seq<Field>, record: seq<byte>, k: nat)
    requires AscendingFrom(fields, 0) && AllDecodable(fields) && |record| == End(fields, 0)
    requires k < |fields| && fields[k].identifier.Name? && !fields[k].packed
    requires forall j :: k < j < |fields| ==> fields[k].identifier.name !in NamesOf(fields[j])
    ensures EndOf(fields[k]) <= |record|
    ensures Decode(fields, record).Success?
    ensures var f := fields[k];
            var v := ReadValue(f.format, record[f.offset..EndOf(f)]);
            Transformed(f, v).Success?
            && f.identifier.name in Decode(fields, record).value
            && Decode(fields, record).value[f.identifier.name] == Transformed(f, v).value
  {
    var name := fields[k].identifier.name;
    DecodeIsFill(fields, record);
    var data := FieldValues(fields, record);
    assert data[k] == ReadValue(fields[k].format, record[fields[k].offset..EndOf(fields[k])]);
    PairsAround(fields, data, k);
    var tail := AllPairs(fields[k + 1..], data[k + 1..]).value;
    NotNamedAfter(fields, data, k, name);
    FillLast(AllPairs(fields[..k], data[..k]).value, name, Transformed(fields[k], data[k]).value, tail);
  }

  /** The entries of a run split around any field `k`: those before it,
      its own contribution, those after it. */
  lemma {:induction false} ContributionAround(fields: seq<Field>, data: seq<Value>, k: nat)
    requires |data| == |fields| && k < |fields| && AllPairs(fields, data).Success?
    ensures Contribute(fields[k], data[k]).Success?
    ensures AllPairs(fields[..k], data[..k]).Success? && AllPairs(fields[k + 1..], data[k + 1..]).Success?
    ensures AllPairs(fields, data).value
            == AllPairs(fields[..k], data[..k]).value
               + (Contribute(fields[k], data[k]).value + AllPairs(fields[k + 1..], data[k + 1..]).value)
  {
    var f, v := fields[k], data[k];
    var post, rest := fields[k + 1..], data[k + 1..];
    assert fields == fields[..k] + ([f] + post);
    assert data == data[..k] + ([v] + rest);
    AllPairsAppend(fields[..k], [f] + post, data[..k], [v] + rest);
    assert ([f] + post)[1..] == post && ([v] + rest)[1..] == rest;
  }

  /** What a packed field with names and a transform contributes: the
      names zipped with the items of the transform's result, `None` names
      left out. */
  lemma ContributePacked(f: Field, v: Value)
    requires f.packed && f.identifier.Names? && f.transform.Some?
    ensures var out := Apply(f.transform.value, v);
            Contribute(f, v).Success? <==> out.Success? && Iterate(out.value).Some?
    ensures var out := Apply(f.transform.value, v);
            Contribute(f, v).Success? ==>
              Contribute(f, v).value == NamedPairs(f.identifier.names, Iterate(out.value).value)
  {
  }

  /** The packed entries split around name `i`: the entries of the names
      before it, its own pair with item `i`, and the entries of the names
      after it, none of which has its name when no later name repeats it. */
  lemma NamedPairsAround(names: seq<Option<string>>, items: seq<Value>, i: nat)
    requires i < |names| && i < |items| && names[i].Some?
    ensures NamedPairs(names, items)
            == NamedPairs(names[..i], items[..i]) + ([(names[i].value, items[i])] + NamedPairs(names[i + 1..], items[i + 1..]))
    ensures (forall j :: i < j < |names| ==> names[j] != names[i]) ==>
              forall p :: p in NamedPairs(names[i + 1..], items[i + 1..]) ==> p.0 != names[i].value
  {
    assert names == names[..i] + ([names[i]] + names[i + 1..]);
    assert items == items[..i] + ([items[i]] + items[i + 1..]);
    NamedPairsAppend(names[..i], [names[i]] + names[i + 1..], items[..i], [items[i]] + items[i + 1..]);
    assert ([names[i]] + names[i + 1..])[1..] == names[i + 1..];
    assert ([items[i]] + items[i + 1..])[1..] == items[i + 1..];
    if forall j :: i < j < |names| ==> names[j] != names[i] {
      var rest := names[i + 1..];
      assert forall j :: 0 <= j < |rest| ==> rest[j] == names[i + 1 + j];
      NamedPairsWithout(rest, items[i + 1..], names[i].value);
    }
  }

  /** In a decodable ascending schema, name `i` of a packed field gets item
      `i` of the transform's result, provided that no later name of the
      field and no later field uses it (and the result has an item `i`). */
  lemma {:induction false} DecodePacked(fields: seq<Field>, record: seq<byte>, k: nat, i: nat)
    requires AscendingFrom(fields, 0) && AllDecodable(fields) && |record| == End(fields, 0)
    requires k < |fields| && fields[k].packed && fields[k].identifier.Names? && fields[k].transform.Some?
    requires i < |fields[k].identifier.names| && fields[k].identifier.names[i].Some?
    requires forall j :: i < j < |fields[k].identifier.names| ==> fields[k].identifier.names[j] != fields[k].identifier.names[i]
    requires forall j :: k < j < |fields| ==> fields[k].identifier.names[i].value !in NamesOf(fields[j])
    ensures EndOf(fields[k]) <= |record|
    ensures Decode(fields, record).Success?
    ensures var f := fields[k];
            var out := Apply(f.transform.value, ReadValue(f.format, record[f.offset..EndOf(f)]));
            out.Success? && Iterate(out.value).Some?
            && (i < |Iterate(out.value).value| ==>
                  f.identifier.names[i].value in Decode(fields, record).value
                  && Decode(fields, record).value[f.identifier.names[i].value] == Iterate(out.value).value[i])
  {
    var f := fields[k];
    var names, name := f.identifier.names, f.identifier.names[i].value;
    DecodeIsFill(fields, record);
    var data := FieldValues(fields, record);
    assert data[k] == ReadValue(f.format, record[f.offset..EndOf(f)]);
    ContributionAround(fields, data, k);
    ContributePacked(f, data[k]);
    var items := Iterate(Apply(f.transform.value, data[k]).value).value;
    if i < |items| {
      var before, after := AllPairs(fields[..k], data[..k]).value, AllPairs(fields[k + 1..], data[k + 1..]).value;
      NamedPairsAround(names, items, i);
      var left, right := NamedPairs(names[..i], items[..i]), NamedPairs(names[i + 1..], items[i + 1..]);
      NotNamedAfter(fields, data, k, name);
      PackedOrder(before, left, (name, items[i]), right, after);
      FillLast(before + left, name, items[i], right + after);
    }
  }

  /** Regrouping the entries around a packed entry. */
  lemma PackedOrder<T>(before: seq<T>, left: seq<T>, x: T, right: seq<T>, after: seq<T>)
    ensures before + ((left + ([x] + right)) + after) == (before + left) + ([x] + (right + after))
  {
  }

  /** No field of `run` can put `name` in the dictionary. */
  predicate Unnamed(run: seq<Field>, name: string)
  {
    forall j :: 0 <= j < |run| ==> name !in NamesOf(run[j])
  }

  /** `DecodeField` for a schema written as the fields before the field, the
      field, and the fields after it. */
  lemma DecodeFieldAt(fields: seq<Field>, pre: seq<Field>, f: Field, post: seq<Field>, record: seq<byte>)
    requires fields == pre + [f] + post
    requires AscendingFrom(fields, 0) && AllDecodable(fields) && |record| == End(fields, 0)
    requires f.identifier.Name? && !f.packed && Unnamed(post, f.identifier.name)
    ensures EndOf(f) <= |record|
    ensures Decode(fields, record).Success?
    ensures var v := ReadValue(f.format, record[f.offset..EndOf(f)]);
            Transformed(f, v).Success?
            && f.identifier.name in Decode(fields, record).value
            && Decode(fields, record).value[f.identifier.name] == Transformed(f, v).value
  {
    var k := |pre|;
    assert fields[k] == f;
    forall j | k < j < |fields|
      ensures f.identifier.name !in NamesOf(fields[j])
    {
      assert fields[j] == post[j - k - 1];
    }
    DecodeField(fields, record, k);
  }

  /** A name no field of either part uses is used by no field of the whole. */
  lemma UnnamedJoin(a: seq<Field>, b: seq<Field>, name: string)
    requires Unnamed(a, name) && Unnamed(b, name)
    ensures Unnamed(a + b, name)
  {
    forall j | 0 <= j < |a + b|
      ensures name !in NamesOf((a + b)[j])
    {
      if j < |a| {
        assert (a + b)[j] == a[j];
      } else {
        assert (a + b)[j] == b[j - |a|];
      }
    }
  }
}
