/** Initialisation makes decoding a function of the bytes: earlier contents never show through. */
module Initialisation {
  import opened Words
  import opened Varint
  import opened Numbers
  import opened Descriptor
  import opened FieldIterator
  import opened Encoding
  import opened Decoding
  import opened Views

  /** Equal as far as anything visible goes, absent optional contents included. */
  ghost predicate Alike(fields: seq<Field>, m1: Msg, m2: Msg) {
    ViewMsg(true, fields, m1) == ViewMsg(true, fields, m2)
  }

  lemma {:induction false} DefaultValueForgets(f: Field, v1: Value, v2: Value)
    requires GoodField(f) && ShapeValue(f, v1) && ShapeValue(f, v2)
    ensures ViewValue(true, f, DefaultValue(f, v1)) == ViewValue(true, f, DefaultValue(f, v2))
    decreases f, 0
  {
    if f.ltype.Submessage? {
      DefaultsForget(f.sub, v1.m, v2.m);
    }
  }

  lemma {:induction false} DefaultFieldForgets(fields: seq<Field>, m1: Msg, m2: Msg, i: nat)
    requires GoodFields(fields) && Shape(fields, m1) && Shape(fields, m2) && i < |fields|
    ensures ViewField(true, fields, Defaults(fields, m1), i) == ViewField(true, fields, Defaults(fields, m2), i)
    decreases fields, 0
  {
    var f, d1, d2 := fields[i], Defaults(fields, m1), Defaults(fields, m2);
    assert GoodField(f) && ShapeSlot(f, m1.slots[i]) && ShapeSlot(f, m2.slots[i]);
    assert d1.slots[i] == DefaultSlot(f, Continues(fields, i), m1.slots[i]);
    assert d2.slots[i] == DefaultSlot(f, Continues(fields, i), m2.slots[i]);
    match f.htype
    case Repeated =>
      assert ViewItems(true, f, d1.At(i)) == [] && ViewItems(true, f, d2.At(i)) == [];
    case Oneof =>
      var l := Leader(fields, i);
      assert d1.slots[l] == DefaultSlot(fields[l], false, m1.slots[l]);
      assert d2.slots[l] == DefaultSlot(fields[l], false, m2.slots[l]);
      assert d1.Size(l) == 0 && d2.Size(l) == 0;
    case _ =>
      DefaultValueForgets(f, m1.slots[i].items[0], m2.slots[i].items[0]);
      assert d1.Item(i, 0) == DefaultValue(f, m1.slots[i].items[0]);
      assert d2.Item(i, 0) == DefaultValue(f, m2.slots[i].items[0]);
  }

  /** Initialised structures are alike, whatever they held before. */
  lemma {:induction false} DefaultsForget(fields: seq<Field>, m1: Msg, m2: Msg)
    requires GoodFields(fields) && Shape(fields, m1) && Shape(fields, m2)
    ensures Alike(fields, Defaults(fields, m1), Defaults(fields, m2))
    decreases fields, 1
  {
    hide ViewField, ViewMsg, GoodField;
    forall i | 0 <= i < |fields|
      ensures ViewField(true, fields, Defaults(fields, m1), i) == ViewField(true, fields, Defaults(fields, m2), i)
    {
      DefaultFieldForgets(fields, m1, m2, i);
    }
    ViewsAgree(true, fields, Defaults(fields, m1), Defaults(fields, m2));
  }

  /** Same success, same bytes left, and results that look the same. */
  ghost predicate SameValue(f: Field, r1: Read<Value>, r2: Read<Value>) {
    match r1
    case Fail => r2.Fail?
    case Got(v, rest) => r2.Got? && r2.rest == rest && ViewValue(true, f, v) == ViewValue(true, f, r2.value)
  }

  ghost predicate SameMsg(fields: seq<Field>, r1: Read<Msg>, r2: Read<Msg>) {
    match r1
    case Fail => r2.Fail?
    case Got(m, rest) =>
      r2.Got? && r2.rest == rest && Shape(fields, m) && Shape(fields, r2.value) && Alike(fields, m, r2.value)
  }

  lemma {:induction false} OverView(f: Field, data: seq<byte>, buf: seq<byte>)
    ensures |data| <= |buf| ==> BlobBytes(|data|, Over(data, buf)) == data
    ensures |data| + 1 <= |buf| ==> TextBytes(Over(data + [0], buf)) == TextBytes(data + [0])
  {
    if |data| <= |buf| {
      assert (data + buf[|data|..])[..|data|] == data;
    }
    if |data| + 1 <= |buf| {
      TextStops(data, buf[|data| + 1..]);
    }
  }

  lemma {:induction false} ValueDecodesAlike(f: Field, bs: seq<byte>, v1: Value, v2: Value)
    requires GoodField(f) && ShapeValue(f, v1) && ShapeValue(f, v2)
    requires f.ltype.Submessage? && !f.htype.Repeated? ==> ViewValue(true, f, v1) == ViewValue(true, f, v2)
    ensures SameValue(f, DecValue(f, bs, v1), DecValue(f, bs, v2))
    decreases |bs|, 0
  {
    hide DecMsg, ReadFrame, TextBytes, Defaults, GoodFields, Shape;
    if f.ltype.Number? || f.ltype.Extension? {
    } else if ReadFrame(bs).Got? {
      var body := ReadFrame(bs).value;
      if f.ltype.Bytes? || f.ltype.String? {
        OverView(f, body, v1.buf);
        OverView(f, body, v2.buf);
      } else if f.ltype.Submessage? {
        if f.htype.Repeated? {
          DefaultsForget(f.sub, v1.m, v2.m);
          DefaultsShape(f.sub, v1.m);
          DefaultsShape(f.sub, v2.m);
          MsgDecodesAlike(f.sub, body, Defaults(f.sub, v1.m), Defaults(f.sub, v2.m));
        } else {
          MsgDecodesAlike(f.sub, body, v1.m, v2.m);
        }
      }
    }
  }

  lemma {:induction false} PackedDecodesAlike(f: Field, bs: seq<byte>, s1: Slot, s2: Slot)
    requires f.ltype.Number? && |s1.items| == |s2.items| == f.arraySize
    requires ViewItems(true, f, s1) == ViewItems(true, f, s2)
    ensures DecPacked(f, bs, s1).Some? <==> DecPacked(f, bs, s2).Some?
    ensures DecPacked(f, bs, s1).Some? ==>
              ViewItems(true, f, DecPacked(f, bs, s1).value) == ViewItems(true, f, DecPacked(f, bs, s2).value)
    decreases |bs|
  {
    hide ReadNum, ViewItems, ViewValue;
    if bs != [] && s1.size < f.arraySize && s2.size < f.arraySize {
      match ReadNum(f.ltype.ty, f.dataSize, bs)
      case Fail =>
      case Got(n, rest) =>
        assert |ViewItems(true, f, s1)| == s1.size && |ViewItems(true, f, s2)| == s2.size;
        StoreEntry(true, f, s1, Num(n));
        StoreEntry(true, f, s2, Num(n));
        PackedDecodesAlike(f, rest, Slot(s1.size + 1, s1.items[s1.size := Num(n)]),
                           Slot(s2.size + 1, s2.items[s2.size := Num(n)]));
    }
  }

  lemma {:induction false} FieldDecodesAlike(fields: seq<Field>, i: nat, wireType: nat, bs: seq<byte>, m1: Msg, m2: Msg)
    requires GoodFields(fields) && Shape(fields, m1) && Shape(fields, m2) && Alike(fields, m1, m2)
    requires i < |fields| && !fields[i].ltype.Extension?
    ensures SameMsg(fields, DecField(fields, i, wireType, bs, m1), DecField(fields, i, wireType, bs, m2))
    decreases |bs|, 1
  {
    hide DecValue, DecPacked, Target, ReadFrame, ViewField, ViewMsg, ViewItems, ViewValue;
    hide GoodFields, GoodField, Shape, ShapeSlot, ShapeValue;
    var f := fields[i];
    ShapesAt(fields, i, m1);
    ShapesAt(fields, i, m2);
    DecFieldShape(fields, i, wireType, bs, m1);
    DecFieldShape(fields, i, wireType, bs, m2);
    if IsPacked(f, wireType) {
      if ReadFrame(bs).Got? {
        PackedFieldAlike(fields, i, ReadFrame(bs).value, m1, m2);
      }
    } else {
      SinglesAlike(fields, i, bs, m1, m2);
    }
  }

  lemma {:induction false} PackedFieldAlike(fields: seq<Field>, i: nat, body: seq<byte>, m1: Msg, m2: Msg)
    requires GoodFields(fields) && Shape(fields, m1) && Shape(fields, m2) && Alike(fields, m1, m2)
    requires i < |fields| && fields[i].ltype.Number? && fields[i].htype.Repeated?
    ensures var p1, p2 := DecPacked(fields[i], body, m1.At(i)), DecPacked(fields[i], body, m2.At(i));
            (p1.Some? <==> p2.Some?) && (p1.Some? ==> Alike(fields, PutSlot(m1, i, p1.value), PutSlot(m2, i, p2.value)))
  {
    hide DecPacked, ViewMsg, ViewItems, ViewValue, GoodFields, GoodField, Shape, ShapeSlot, ShapeValue;
    var f := fields[i];
    ShapesAt(fields, i, m1);
    ShapesAt(fields, i, m2);
    ViewsAgreeAt(true, fields, m1, m2);
    assert ViewField(true, fields, m1, i) == ViewField(true, fields, m2, i);
    PackedDecodesAlike(f, body, m1.slots[i], m2.slots[i]);
    var p1, p2 := DecPacked(f, body, m1.At(i)), DecPacked(f, body, m2.At(i));
    if p1.Some? {
      var n1, n2 := PutSlot(m1, i, p1.value), PutSlot(m2, i, p2.value);
      forall j | 0 <= j < |fields|
        ensures ViewField(true, fields, n1, j) == ViewField(true, fields, n2, j)
      {
        if j != i {
          OthersAfterPut(true, fields, i, j, m1, p1.value);
          OthersAfterPut(true, fields, i, j, m2, p2.value);
        }
      }
      ViewsAgree(true, fields, n1, n2);
    }
  }

  /** Both structures offer the same place, and what is there matters only if it looks the same. */
  lemma {:induction false} TargetsAlike(fields: seq<Field>, i: nat, m1: Msg, m2: Msg)
    requires GoodFields(fields) && Shape(fields, m1) && Shape(fields, m2) && Alike(fields, m1, m2)
    requires i < |fields| && !fields[i].ltype.Extension?
    ensures Target(fields, i, m1).Some? <==> Target(fields, i, m2).Some?
    ensures Target(fields, i, m1).Some? && fields[i].ltype.Submessage? && !fields[i].htype.Repeated? ==>
              ViewValue(true, fields[i], Target(fields, i, m1).value.v)
              == ViewValue(true, fields[i], Target(fields, i, m2).value.v)
  {
    hide ViewMsg, ViewValue, GoodFields, GoodField, Shape, ShapeSlot, ShapeValue, InitValue;
    ShapesAt(fields, i, m1);
    ShapesAt(fields, i, m2);
    ViewsAgreeAt(true, fields, m1, m2);
    assert ViewField(true, fields, m1, i) == ViewField(true, fields, m2, i);
    if fields[i].htype.Repeated? {
      assert |ViewItems(true, fields[i], m1.At(i))| == |ViewItems(true, fields[i], m2.At(i))|;
    }
  }

  lemma {:induction false} SinglesAlike(fields: seq<Field>, i: nat, bs: seq<byte>, m1: Msg, m2: Msg)
    requires GoodFields(fields) && Shape(fields, m1) && Shape(fields, m2) && Alike(fields, m1, m2)
    requires i < |fields| && !fields[i].ltype.Extension?
    ensures Target(fields, i, m1).Some? <==> Target(fields, i, m2).Some?
    ensures Target(fields, i, m1).Some? ==>
              var t1, t2 := Target(fields, i, m1).value, Target(fields, i, m2).value;
              var r1, r2 := DecValue(fields[i], bs, t1.v), DecValue(fields[i], bs, t2.v);
              (r1.Got? <==> r2.Got?) &&
              (r1.Got? ==> r1.rest == r2.rest
                           && Alike(fields, t1.m.WithItem(i, t1.k, r1.value), t2.m.WithItem(i, t2.k, r2.value)))
    decreases |bs|, 1, 0
  {
    hide DecValue, Target, ViewMsg, ViewItems, ViewValue, GoodFields, GoodField, Shape, ShapeSlot;
    hide ShapeValue, ViewField;
    var f := fields[i];
    ShapesAt(fields, i, m1);
    ShapesAt(fields, i, m2);
    TargetsAlike(fields, i, m1, m2);
    TargetShape(fields, i, m1);
    TargetShape(fields, i, m2);
    if Target(fields, i, m1).Some? {
      var t1, t2 := Target(fields, i, m1).value, Target(fields, i, m2).value;
      ValueDecodesAlike(f, bs, t1.v, t2.v);
      var r1, r2 := DecValue(f, bs, t1.v), DecValue(f, bs, t2.v);
      if r1.Got? {
        StoredAlike(fields, i, m1, m2, r1.value, r2.value);
      }
    }
  }

  lemma {:induction false} StoredAlike(fields: seq<Field>, i: nat, m1: Msg, m2: Msg, v1: Value, v2: Value)
    requires GoodFields(fields) && Shape(fields, m1) && Shape(fields, m2) && Alike(fields, m1, m2)
    requires i < |fields| && !fields[i].ltype.Extension?
    requires Target(fields, i, m1).Some? && Target(fields, i, m2).Some?
    requires ViewValue(true, fields[i], v1) == ViewValue(true, fields[i], v2)
    ensures var t1, t2 := Target(fields, i, m1).value, Target(fields, i, m2).value;
            Alike(fields, t1.m.WithItem(i, t1.k, v1), t2.m.WithItem(i, t2.k, v2))
  {
    hide Target, ViewMsg, ViewItems, ViewValue, GoodFields, GoodField, Shape, ShapeSlot, ShapeValue;
    ShapesAt(fields, i, m1);
    ShapesAt(fields, i, m2);
    ViewsAgreeAt(true, fields, m1, m2);
    var t1, t2 := Target(fields, i, m1).value, Target(fields, i, m2).value;
    var n1, n2 := t1.m.WithItem(i, t1.k, v1), t2.m.WithItem(i, t2.k, v2);
    assert fields[i].htype.Repeated? ==>
             ViewItems(true, fields[i], m1.slots[i]) == ViewItems(true, fields[i], m2.slots[i]) by {
      assert ViewField(true, fields, m1, i) == ViewField(true, fields, m2, i);
    }
    FieldAfterStore(true, fields, i, m1, v1);
    FieldAfterStore(true, fields, i, m2, v2);
    hide ViewField;
    forall j | 0 <= j < |fields|
      ensures ViewField(true, fields, n1, j) == ViewField(true, fields, n2, j)
    {
      if j != i {
        OthersAfterStore(true, fields, i, j, m1, v1);
        OthersAfterStore(true, fields, i, j, m2, v2);
      }
    }
    ViewsAgree(true, fields, n1, n2);
  }

  lemma {:induction false} RecordDecodesAlike(fields: seq<Field>, tag: nat, wireType: nat, bs: seq<byte>,
                                              m1: Msg, m2: Msg)
    requires GoodFields(fields) && Shape(fields, m1) && Shape(fields, m2) && Alike(fields, m1, m2)
    ensures SameMsg(fields, DecRecord(fields, tag, wireType, bs, m1), DecRecord(fields, tag, wireType, bs, m2))
    decreases |bs|, 2
  {
    hide DecField, SkipField, ViewMsg, GoodFields, Shape;
    match FindField(fields, tag)
    case None =>
    case Some(i) =>
      if fields == [] {
        EmptyRejects(wireType, bs, m1);
        EmptyRejects(wireType, bs, m2);
      } else {
        FieldDecodesAlike(fields, i, wireType, bs, m1, m2);
      }
  }

  lemma {:induction false} LoopDecodesAlike(fields: seq<Field>, bs: seq<byte>, m1: Msg, m2: Msg, seen: set<nat>)
    requires GoodFields(fields) && Shape(fields, m1) && Shape(fields, m2) && Alike(fields, m1, m2)
    ensures var r1, r2 := DecLoop(fields, bs, m1, seen), DecLoop(fields, bs, m2, seen);
            (r1.Done? <==> r2.Done?) &&
            (r1.Done? ==> r1.seen == r2.seen && r1.rest == r2.rest
                          && Shape(fields, r1.m) && Shape(fields, r2.m) && Alike(fields, r1.m, r2.m))
    decreases |bs|, 3
  {
    hide DecRecord, ViewMsg, GoodFields, Shape, Note;
    if bs != [] && ReadKey(bs).Key? {
      var Key(tag, wireType, rest) := ReadKey(bs);
      RecordDecodesAlike(fields, tag, wireType, rest, m1, m2);
      var r1, r2 := DecRecord(fields, tag, wireType, rest, m1), DecRecord(fields, tag, wireType, rest, m2);
      if r1.Got? {
        LoopDecodesAlike(fields, r1.rest, r1.value, r2.value, Note(fields, tag, seen));
      }
    }
  }

  lemma {:induction false} MsgDecodesAlike(fields: seq<Field>, bs: seq<byte>, m1: Msg, m2: Msg)
    requires GoodFields(fields) && Shape(fields, m1) && Shape(fields, m2) && Alike(fields, m1, m2)
    ensures SameMsg(fields, DecMsg(fields, bs, m1), DecMsg(fields, bs, m2))
    decreases |bs|, 4
  {
    hide DecLoop, ViewMsg, GoodFields, Shape;
    LoopDecodesAlike(fields, bs, m1, m2, {});
  }

  /** Decoding with initialisation has the same success, leaves the same bytes and gives the same
      visible message, whatever the two destination structures held before. */
  lemma {:induction false} DecodeForgetsThePast(fields: seq<Field>, bs: seq<byte>, m1: Msg, m2: Msg)
    requires GoodFields(fields) && Shape(fields, m1) && Shape(fields, m2)
    ensures var r1, r2 := DecMsg(fields, bs, Defaults(fields, m1)), DecMsg(fields, bs, Defaults(fields, m2));
            (r1.Got? <==> r2.Got?) &&
            (r1.Got? ==> r1.rest == r2.rest
                         && ViewMsg(true, fields, r1.value) == ViewMsg(true, fields, r2.value)
                         && ViewMsg(false, fields, r1.value) == ViewMsg(false, fields, r2.value))
  {
    hide DecMsg, ViewMsg, GoodFields, Shape, Defaults;
    DefaultsForget(fields, m1, m2);
    DefaultsShape(fields, m1);
    DefaultsShape(fields, m2);
    MsgDecodesAlike(fields, bs, Defaults(fields, m1), Defaults(fields, m2));
    var r1, r2 := DecMsg(fields, bs, Defaults(fields, m1)), DecMsg(fields, bs, Defaults(fields, m2));
    if r1.Got? {
      ViewRefines(fields, r1.value, r2.value);
    }
  }
}
