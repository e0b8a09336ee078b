/** What was decoded can be encoded: the encoder accepts every message the decoder produces. */
module Acceptance {
  import opened Words
  import opened Varint
  import opened Numbers
  import opened Descriptor
  import opened FieldIterator
  import opened Encoding
  import opened Decoding

  predicate ReadyValue(f: Field, v: Value)
    decreases f, 0
  {
    match f.ltype
    case Bytes => v.Blob? && v.size + BYTES_OFFSET <= f.dataSize
    case Submessage => Ready(f.sub, MsgOf(v))
    case _ => true
  }

  /** Acceptable to the encoder whether or not an optional field is marked as present. */
  predicate ReadyField(fields: seq<Field>, m: Msg, i: nat)
    requires i < |fields|
    decreases fields, 0
  {
    var f, s := fields[i], m.At(i);
    if f.htype.Repeated? then
      s.size <= f.arraySize && forall k :: 0 <= k < s.size && k < |s.items| ==> ReadyValue(f, s.items[k])
    else
      (f.htype.Oneof? ==> Active(fields, m, i)) ==> ReadyValue(f, m.Item(i, 0))
  }

  predicate Ready(fields: seq<Field>, m: Msg)
    decreases fields, 1
  {
    forall i :: 0 <= i < |fields| ==> ReadyField(fields, m, i)
  }

  lemma {:induction false} ReadyValueIsOk(f: Field, v: Value)
    requires GoodField(f) && ShapeValue(f, v) && ReadyValue(f, v)
    ensures OkValue(false, f, v)
    decreases f, 0
  {
    if f.ltype.Submessage? {
      ReadyIsOk(f.sub, v.m);
    }
  }

  lemma {:induction false} ReadyIsOk(fields: seq<Field>, m: Msg)
    requires GoodFields(fields) && Shape(fields, m) && Ready(fields, m)
    ensures OkMsg(false, fields, m)
    decreases fields
  {
    forall i | 0 <= i < |fields|
      ensures OkField(false, fields, m, i)
    {
      var f, s := fields[i], m.slots[i];
      ShapesAt(fields, i, m);
      assert ReadyField(fields, m, i);
      forall k | 0 <= k < SentCount(fields, m, i) && k < |s.items|
        ensures OkValue(false, f, s.items[k])
      {
        assert ShapeValue(f, s.items[k]);
        ReadyValueIsOk(f, s.items[k]);
      }
    }
  }

  lemma {:induction false} DefaultIsReady(f: Field, v: Value)
    requires GoodField(f) && ShapeValue(f, v)
    ensures ReadyValue(f, DefaultValue(f, v))
    decreases f, 0
  {
    if f.ltype.Submessage? {
      DefaultsAreReady(f.sub, v.m);
    }
  }

  lemma {:induction false} DefaultsAreReady(fields: seq<Field>, m: Msg)
    requires GoodFields(fields) && Shape(fields, m)
    ensures Ready(fields, Defaults(fields, m))
    decreases fields
  {
    var d := Defaults(fields, m);
    forall i | 0 <= i < |fields|
      ensures ReadyField(fields, d, i)
    {
      var f := fields[i];
      ShapesAt(fields, i, m);
      assert d.slots[i] == DefaultSlot(f, Continues(fields, i), m.slots[i]);
      if f.htype.Oneof? {
        var l := Leader(fields, i);
        assert d.slots[l] == DefaultSlot(fields[l], false, m.slots[l]);
        TagsNonzero(fields);
      } else if !f.htype.Repeated? {
        DefaultIsReady(f, m.slots[i].items[0]);
        assert d.Item(i, 0) == DefaultValue(f, m.slots[i].items[0]);
      }
    }
  }

  lemma {:induction false} InitIsReady(fields: seq<Field>)
    requires GoodFields(fields)
    ensures Ready(fields, InitMsg(fields))
  {
    ZeroMsgShape(fields);
    DefaultsAreReady(fields, ZeroMsg(fields));
  }

  lemma {:induction false} PackedStaysInside(f: Field, bs: seq<byte>, s: Slot)
    requires f.ltype.Number? && s.size <= f.arraySize && DecPacked(f, bs, s).Some?
    ensures DecPacked(f, bs, s).value.size <= f.arraySize
    decreases |bs|
  {
    hide ReadNum;
    if bs != [] {
      var Got(n, rest) := ReadNum(f.ltype.ty, f.dataSize, bs);
      PackedStaysInside(f, rest, Slot(s.size + 1, s.items[s.size := Num(n)]));
    }
  }

  lemma {:induction false} ValueStaysReady(f: Field, bs: seq<byte>, v: Value)
    requires GoodField(f) && ShapeValue(f, v) && DecValue(f, bs, v).Got?
    requires f.ltype.Submessage? && !f.htype.Repeated? ==> Ready(f.sub, MsgOf(v))
    ensures ReadyValue(f, DecValue(f, bs, v).value)
    decreases |bs|, 0
  {
    if f.ltype.Submessage? {
      var m := if f.htype.Repeated? then Defaults(f.sub, v.m) else v.m;
      if f.htype.Repeated? {
        DefaultsAreReady(f.sub, v.m);
        DefaultsShape(f.sub, v.m);
      }
      MsgStaysReady(f.sub, ReadFrame(bs).value, m);
    }
  }

  /** Storing an acceptable item keeps the structure acceptable. */
  lemma {:induction false} StoredStaysReady(fields: seq<Field>, i: nat, m: Msg, v: Value)
    requires GoodFields(fields) && Shape(fields, m) && Ready(fields, m) && i < |fields|
    requires Target(fields, i, m).Some? && ReadyValue(fields[i], v)
    ensures var t := Target(fields, i, m).value; Ready(fields, t.m.WithItem(i, t.k, v))
  {
    hide ReadyValue, InitValue;
    ShapesAt(fields, i, m);
    hide GoodField, ShapeSlot;
    var t := Target(fields, i, m).value;
    var m' := t.m.WithItem(i, t.k, v);
    var l := LeaderAt(fields, i);
    forall j | 0 <= j < |fields|
      ensures ReadyField(fields, m', j)
    {
      assert ReadyField(fields, m, j);
      if j != i {
        assert fields[i].tag != fields[j].tag;
        assert m'.At(j).items == m.At(j).items;
        assert !fields[j].htype.Oneof? ==> m'.Size(j) == m.Size(j);
        assert fields[j].htype.Oneof? && Leader(fields, j) != l ==>
                 m'.Size(Leader(fields, j)) == m.Size(Leader(fields, j));
        assert fields[j].htype.Oneof? && Leader(fields, j) == l ==> fields[i].htype.Oneof?;
      }
    }
  }

  lemma {:induction false} FieldStaysReady(fields: seq<Field>, i: nat, wireType: nat, bs: seq<byte>, m: Msg)
    requires GoodFields(fields) && Shape(fields, m) && Ready(fields, m) && i < |fields|
    requires DecField(fields, i, wireType, bs, m).Got?
    ensures Ready(fields, DecField(fields, i, wireType, bs, m).value)
    decreases |bs|, 1
  {
    hide ReadyValue, DecValue, DecPacked, Target, InitValue;
    var f := fields[i];
    ShapesAt(fields, i, m);
    assert ReadyField(fields, m, i);
    if IsPacked(f, wireType) {
      PackedStaysInside(f, ReadFrame(bs).value, m.slots[i]);
      PutStaysReady(fields, i, m, DecPacked(f, ReadFrame(bs).value, m.slots[i]).value);
    } else {
      TargetShape(fields, i, m);
      if f.ltype.Submessage? && !f.htype.Repeated? {
        TargetIsReady(fields, i, m);
      }
      var t := Target(fields, i, m).value;
      ValueStaysReady(f, bs, t.v);
      StoredStaysReady(fields, i, m, DecValue(f, bs, t.v).value);
    }
  }

  lemma {:induction false} TargetIsReady(fields: seq<Field>, i: nat, m: Msg)
    requires GoodFields(fields) && Shape(fields, m) && Ready(fields, m) && i < |fields| && Target(fields, i, m).Some?
    requires fields[i].ltype.Submessage? && !fields[i].htype.Repeated?
    ensures Ready(fields[i].sub, MsgOf(Target(fields, i, m).value.v))
  {
    var f := fields[i];
    assert ReadyField(fields, m, i) && GoodField(f);
    if f.htype.Oneof? {
      InitIsReady(f.sub);
    }
  }

  lemma {:induction false} PutStaysReady(fields: seq<Field>, i: nat, m: Msg, s: Slot)
    requires Ready(fields, m) && i < |fields| == |m.slots| && fields[i].htype.Repeated? && fields[i].ltype.Number?
    requires s.size <= fields[i].arraySize
    ensures Ready(fields, PutSlot(m, i, s))
  {
    var m' := PutSlot(m, i, s);
    forall j | 0 <= j < |fields|
      ensures ReadyField(fields, m', j)
    {
      assert ReadyField(fields, m, j);
      if j != i {
        assert m'.At(j) == m.At(j);
        assert m'.Size(Leader(fields, j)) == m.Size(Leader(fields, j));
      }
    }
  }

  lemma {:induction false} LoopStaysReady(fields: seq<Field>, bs: seq<byte>, m: Msg, seen: set<nat>)
    requires GoodFields(fields) && Shape(fields, m) && Ready(fields, m) && DecLoop(fields, bs, m, seen).Done?
    ensures Ready(fields, DecLoop(fields, bs, m, seen).m)
    decreases |bs|, 2
  {
    hide DecField, SkipField, Ready, Shape, GoodFields, Note;
    if bs != [] && ReadKey(bs).Key? {
      var Key(tag, wireType, rest) := ReadKey(bs);
      DecRecordShape(fields, tag, wireType, rest, m);
      var Got(m', rest') := DecRecord(fields, tag, wireType, rest, m);
      match FindField(fields, tag)
      case None =>
        LoopStaysReady(fields, rest', m', Note(fields, tag, seen));
      case Some(i) =>
        EmptyRejects(wireType, rest, m);
        FieldStaysReady(fields, i, wireType, rest, m);
        LoopStaysReady(fields, rest', m', Note(fields, tag, seen));
    }
  }

  lemma {:induction false} MsgStaysReady(fields: seq<Field>, bs: seq<byte>, m: Msg)
    requires GoodFields(fields) && Shape(fields, m) && Ready(fields, m) && DecMsg(fields, bs, m).Got?
    ensures Ready(fields, DecMsg(fields, bs, m).value)
    decreases |bs|, 3
  {
    LoopStaysReady(fields, bs, m, {});
  }

  /** The encoder accepts every message the decoder accepted, whatever bytes it came from and
      whatever the destination held. */
  lemma {:induction false} DecodedIsEncodable(fields: seq<Field>, bs: seq<byte>, prior: Msg)
    requires GoodFields(fields) && Shape(fields, prior) && DecMsg(fields, bs, Defaults(fields, prior)).Got?
    ensures var m := DecMsg(fields, bs, Defaults(fields, prior)).value;
            Shape(fields, m) && OkMsg(false, fields, m)
  {
    hide DecMsg, Defaults, Ready, OkMsg, GoodFields, Shape;
    DefaultsShape(fields, prior);
    DefaultsAreReady(fields, prior);
    DecMsgShape(fields, bs, Defaults(fields, prior));
    MsgStaysReady(fields, bs, Defaults(fields, prior));
    ReadyIsOk(fields, DecMsg(fields, bs, Defaults(fields, prior)).value);
  }
}
