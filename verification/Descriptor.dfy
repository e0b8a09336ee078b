/** Field descriptors, the message structures they describe, and the structures' initial contents. */
module Descriptor {
  import opened Words
  import opened Numbers

  datatype AllocType = Static | Pointer | Callback
  datatype RuleType = Required | Optional | Repeated | Oneof
  datatype DataType = Number(ty: NumType) | Bytes | String | Submessage | Extension | FixedLengthBytes

  /** One row of a descriptor array. `sub` and `default` are the two uses of the C row's `ptr`. */
  datatype Field = Field(
    tag: nat,
    atype: AllocType,
    htype: RuleType,
    ltype: DataType,
    dataOffset: nat,
    sizeOffset: int,
    dataSize: nat,
    arraySize: nat,
    sub: seq<Field>,
    default: Option<Value>)

  /** A member's stored value. Buffers keep their full length, whatever part of them is in use. */
  datatype Value =
    | Num(n: int)
    | Blob(size: nat, buf: seq<byte>)
    | Text(buf: seq<byte>)
    | Raw(buf: seq<byte>)
    | Sub(m: Msg)
    | Chain

  /** A field's place in the structure: its has-flag, count or which-tag, and its array entries.
      Members of a union have a slot each, holding what the shared bytes read as. */
  datatype Slot = Slot(size: nat, items: seq<Value>)

  datatype Msg = Msg(slots: seq<Slot>)
  {
    function At(i: nat): Slot {
      if i < |slots| then slots[i] else Slot(0, [])
    }

    function Size(i: nat): nat {
      At(i).size
    }

    function Item(i: nat, k: nat): Value {
      if k < |At(i).items| then At(i).items[k] else Num(0)
    }

    function WithSize(i: nat, n: nat): (r: Msg)
      ensures |r.slots| == |slots|
    {
      if i < |slots| then Msg(slots[i := slots[i].(size := n)]) else this
    }

    function WithItem(i: nat, k: nat, v: Value): (r: Msg)
      ensures |r.slots| == |slots|
    {
      if i < |slots| && k < |slots[i].items|
      then Msg(slots[i := slots[i].(items := slots[i].items[k := v])])
      else this
    }
  }

  /** The largest pb_size_t with 32-bit fields; as a data offset it marks a union continuation. */
  const SIZE_MAX: nat := U32 - 1

  /** Offset of the bytes in a bytes array, behind its 32-bit size. */
  const BYTES_OFFSET: nat := 4

  const MAX_REQUIRED_FIELDS: nat := 64

  /** The all-zero row that ends every descriptor array. */
  const LAST_FIELD: Field := Field(0, Static, Required, Number(Signed), 0, 0, 0, 0, [], None)

  function FieldAt(fields: seq<Field>, i: nat): Field {
    if i < |fields| then fields[i] else LAST_FIELD
  }

  predicate HasFlag(f: Field) {
    f.sizeOffset != 0
  }

  predicate Packable(f: Field) {
    f.ltype.Number?
  }

  /** Row `i` continues the union of row `i - 1`. */
  predicate Continues(fields: seq<Field>, i: nat)
    requires i < |fields|
  {
    i > 0 && fields[i - 1].htype.Oneof? && fields[i].htype.Oneof? && fields[i].dataOffset == SIZE_MAX
  }

  /** The row whose slot holds the which-tag shared by a union; any other row is its own leader. */
  function Leader(fields: seq<Field>, i: nat): (l: nat)
    requires i < |fields|
    ensures l <= i
    ensures fields[l].htype == fields[i].htype && !Continues(fields, l)
    ensures !fields[i].htype.Oneof? ==> l == i
  {
    if Continues(fields, i) then Leader(fields, i - 1) else i
  }

  function RequiredBefore(fields: seq<Field>, i: nat): (n: nat)
    requires i <= |fields|
    ensures n <= i
  {
    if i == 0 then 0
    else RequiredBefore(fields, i - 1) + if fields[i - 1].htype.Required? then 1 else 0
  }

  function RequiredCount(fields: seq<Field>): nat {
    RequiredBefore(fields, |fields|)
  }

  predicate DistinctTags(fields: seq<Field>) {
    forall i, j :: 0 <= i < j < |fields| ==> fields[i].tag != fields[j].tag
  }

  predicate GoodSizes(f: Field) {
    match f.ltype
    case Number(Fixed32) => f.dataSize == 4
    case Number(Fixed64) => f.dataSize == 8
    case Number(_) => Top(f.dataSize) > 0
    case Bytes => f.dataSize >= BYTES_OFFSET
    case String => f.dataSize >= 1
    case _ => true
  }

  /** A row as the descriptor macros write it for static allocation, or an extension slot. */
  predicate GoodField(f: Field) {
    && 0 < f.tag < 0x2000_0000
    && f.dataSize < U32 && f.arraySize < U32
    && GoodSizes(f)
    && (if f.ltype.Extension? then f.atype.Callback? && f.htype.Optional? && f.sizeOffset == 0
        else f.atype.Static?)
    && (f.htype.Required? ==> f.sizeOffset == 0)
    && (f.htype.Repeated? || f.htype.Oneof? ==> f.sizeOffset != 0)
    && (f.htype.Repeated? ==> f.arraySize > 0)
    && (f.default.Some? ==>
          && (f.htype.Required? || f.htype.Optional?)
          && !f.ltype.Submessage? && !f.ltype.Extension?
          && ShapeValue(f, f.default.value)
          && (f.ltype.Bytes? ==> f.default.value.size <= |f.default.value.buf|))
    && (f.ltype.Submessage? ==> GoodFields(f.sub))
  }

  /** A well-formed descriptor array (without its terminator), all the way down. */
  predicate GoodFields(fields: seq<Field>) {
    && DistinctTags(fields)
    && forall i :: 0 <= i < |fields| ==> GoodField(fields[i])
  }

  /** The decoder's presence check is defined: it shifts by 32 minus the required count modulo 32,
      and has 64 bits. */
  predicate Trackable(fields: seq<Field>) {
    && (RequiredCount(fields) == 0
        || (RequiredCount(fields) < MAX_REQUIRED_FIELDS && RequiredCount(fields) % 32 != 0))
    && forall i :: 0 <= i < |fields| ==> TrackableField(fields[i])
  }

  predicate TrackableField(f: Field) {
    f.ltype.Submessage? ==> Trackable(f.sub)
  }

  lemma {:induction false} TagsNonzero(fields: seq<Field>)
    requires GoodFields(fields)
    ensures forall i :: 0 <= i < |fields| ==> fields[i].tag != 0
  {
    forall i | 0 <= i < |fields|
      ensures fields[i].tag != 0
    {
      assert GoodField(fields[i]);
    }
  }

  /** The value fits the member: right kind, right buffer length, number in range. */
  predicate ShapeValue(f: Field, v: Value)
    decreases v
  {
    match f.ltype
    case Number(ty) => v.Num? && InRange(ty, f.dataSize, v.n)
    case Bytes => v.Blob? && |v.buf| == f.dataSize - BYTES_OFFSET
    case String => v.Text? && |v.buf| == f.dataSize
    case FixedLengthBytes => v.Raw? && |v.buf| == f.dataSize
    case Submessage => v.Sub? && Shape(f.sub, v.m)
    case Extension => v.Chain?
  }

  predicate ShapeSlot(f: Field, s: Slot)
    decreases s
  {
    && |s.items| == (if f.htype.Repeated? then f.arraySize else 1)
    && forall k :: 0 <= k < |s.items| ==> ShapeValue(f, s.items[k])
  }

  /** The structure matches the descriptor. */
  predicate Shape(fields: seq<Field>, m: Msg)
    decreases m
  {
    && |m.slots| == |fields|
    && forall i :: 0 <= i < |fields| ==> ShapeSlot(fields[i], m.slots[i])
  }

  lemma {:induction false} ShapesAt(fields: seq<Field>, i: nat, m: Msg)
    requires GoodFields(fields) && Shape(fields, m) && i < |fields|
    ensures |m.slots| == |fields| && DistinctTags(fields) && GoodField(fields[i]) && ShapeSlot(fields[i], m.slots[i])
    ensures |m.slots[i].items| == (if fields[i].htype.Repeated? then fields[i].arraySize else 1)
  {}

  function Zeros(n: nat): (bs: seq<byte>)
    ensures |bs| == n
  {
    seq(n, i => 0)
  }

  /** All-zero memory read as a member, and as a whole structure. */
  function ZeroOf(f: Field): Value
    decreases f, 0
  {
    match f.ltype
    case Number(_) => Num(0)
    case Bytes => Blob(0, Zeros(if f.dataSize >= BYTES_OFFSET then f.dataSize - BYTES_OFFSET else 0))
    case String => Text(Zeros(f.dataSize))
    case FixedLengthBytes => Raw(Zeros(f.dataSize))
    case Submessage => Sub(ZeroMsg(f.sub))
    case Extension => Chain
  }

  function ZeroSlot(f: Field): Slot
    decreases f, 1
  {
    Slot(0, seq(if f.htype.Repeated? then f.arraySize else 1, k => ZeroOf(f)))
  }

  function ZeroMsg(fields: seq<Field>): Msg
    decreases fields
  {
    Msg(seq(|fields|, i requires 0 <= i < |fields| => ZeroSlot(fields[i])))
  }

  /** What initialisation leaves in one item whose previous content was `v`. */
  function DefaultValue(f: Field, v: Value): Value
    decreases f, 0
  {
    match f.ltype
    case Submessage => Sub(Defaults(f.sub, if v.Sub? then v.m else ZeroMsg(f.sub)))
    case Extension => v
    case _ => if f.default.Some? then f.default.value else ZeroOf(f)
  }

  /** Counts, has-flags and which-tags are cleared; arrays and unions keep their old bytes. */
  function DefaultSlot(f: Field, continues: bool, s: Slot): Slot
    decreases f, 1
  {
    match f.htype
    case Repeated => s.(size := 0)
    case Oneof => if continues then s else s.(size := 0)
    case _ =>
      Slot(if f.htype.Optional? && HasFlag(f) then 0 else s.size,
           if |s.items| == 1 then [DefaultValue(f, s.items[0])] else s.items)
  }

  function Defaults(fields: seq<Field>, m: Msg): Msg
    decreases fields
  {
    Msg(seq(|fields|, i requires 0 <= i < |fields| => DefaultSlot(fields[i], Continues(fields, i), m.At(i))))
  }

  /** The state every fresh message starts from: zeroed memory, then initialised. */
  function InitMsg(fields: seq<Field>): Msg {
    Defaults(fields, ZeroMsg(fields))
  }

  function InitValue(f: Field): Value {
    DefaultValue(f, ZeroOf(f))
  }

  lemma {:induction false} ZeroShape(f: Field)
    requires GoodField(f)
    ensures ShapeValue(f, ZeroOf(f))
    decreases f, 0
  {
    if f.ltype.Submessage? {
      ZeroMsgShape(f.sub);
    }
    if f.ltype.Number? {
      assert Top(f.dataSize) > 0;
    }
  }

  lemma {:induction false} ZeroMsgShape(fields: seq<Field>)
    requires GoodFields(fields)
    ensures Shape(fields, ZeroMsg(fields))
    decreases fields
  {
    forall i | 0 <= i < |fields|
      ensures ShapeSlot(fields[i], ZeroMsg(fields).slots[i])
    {
      ZeroShape(fields[i]);
    }
  }

  lemma {:induction false} DefaultsShape(fields: seq<Field>, m: Msg)
    requires GoodFields(fields) && Shape(fields, m)
    ensures Shape(fields, Defaults(fields, m))
    decreases fields
  {
    forall i | 0 <= i < |fields|
      ensures ShapeSlot(fields[i], Defaults(fields, m).slots[i])
    {
      DefaultSlotShape(fields[i], Continues(fields, i), m.slots[i]);
    }
  }

  lemma {:induction false} DefaultSlotShape(f: Field, continues: bool, s: Slot)
    requires GoodField(f) && ShapeSlot(f, s)
    ensures ShapeSlot(f, DefaultSlot(f, continues, s))
    decreases f, 1
  {
    if f.htype.Required? || f.htype.Optional? {
      DefaultValueShape(f, s.items[0]);
    }
  }

  lemma {:induction false} DefaultValueShape(f: Field, v: Value)
    requires GoodField(f) && ShapeValue(f, v)
    ensures ShapeValue(f, DefaultValue(f, v))
    decreases f, 0
  {
    if f.ltype.Submessage? {
      DefaultsShape(f.sub, v.m);
    } else {
      ZeroShape(f);
    }
  }

  lemma {:induction false} InitShape(fields: seq<Field>)
    requires GoodFields(fields)
    ensures Shape(fields, InitMsg(fields))
  {
    ZeroMsgShape(fields);
    DefaultsShape(fields, ZeroMsg(fields));
  }
}
