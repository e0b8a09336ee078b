/** Which descriptors lose nothing in the round trip of any message. */
module Lossless {
  import opened Descriptor
  import opened Encoding
  import opened Decoding
  import opened Views
  import opened RoundTrip
  import opened Fidelity

  /** The zero test can succeed: no member inside always counts as nonzero. */
  predicate CanBeZero(fields: seq<Field>) {
    forall i :: 0 <= i < |fields| ==> CanBeZeroRow(fields[i])
  }

  predicate CanBeZeroRow(f: Field) {
    if f.ltype.Submessage? then CanBeZero(f.sub) else f.ltype.FixedLengthBytes? ==> f.dataSize == 0
  }

  /** No has-flags, arrays, unions and nonzero defaults, all the way down. */
  predicate AlwaysQuiet(fields: seq<Field>) {
    forall i :: 0 <= i < |fields| ==> AlwaysQuietRow(fields[i])
  }

  predicate AlwaysQuietRow(f: Field) {
    && !Overlooked(f)
    && if f.ltype.Submessage? then AlwaysQuiet(f.sub) else f.ltype.Extension? || ZeroDefault(f)
  }

  /** What the zero test can drop has nothing in it that it overlooks. */
  predicate NeverLoses(fields: seq<Field>) {
    forall i :: 0 <= i < |fields| ==> NeverLosesRow(fields[i])
  }

  predicate NeverLosesRow(f: Field) {
    && (f.ltype.Submessage? ==> NeverLoses(f.sub))
    && (f.htype.Optional? && !HasFlag(f) && !f.ltype.Extension? && CanBeZeroRow(f) ==>
          if f.ltype.Submessage? then AlwaysQuiet(f.sub) else ZeroDefault(f))
  }

  lemma {:induction false} ZeroWasPossible(f: Field, v: Value)
    requires ZeroValue(f, v)
    ensures CanBeZeroRow(f)
    decreases f, 0
  {
    if f.ltype.Submessage? {
      ZeroWasPossibleInside(f.sub, MsgOf(v));
    }
  }

  lemma {:induction false} ZeroWasPossibleInside(fields: seq<Field>, m: Msg)
    requires ZeroFields(fields, m)
    ensures CanBeZero(fields)
    decreases fields
  {
    forall i | 0 <= i < |fields|
      ensures CanBeZeroRow(fields[i])
    {
      ZeroWasPossible(fields[i], m.Item(i, 0));
    }
  }

  lemma {:induction false} AlwaysQuietIsQuiet(fields: seq<Field>, m: Msg)
    requires AlwaysQuiet(fields)
    ensures Quiet(fields, m)
    decreases fields
  {
    forall i | 0 <= i < |fields|
      ensures QuietField(fields, m, i)
    {
      assert AlwaysQuietRow(fields[i]);
      if fields[i].ltype.Submessage? {
        AlwaysQuietIsQuiet(fields[i].sub, MsgOf(m.Item(i, 0)));
      }
    }
  }

  lemma {:induction false} NeverLosesIsFaithful(fields: seq<Field>, m: Msg)
    requires GoodFields(fields) && Shape(fields, m) && NeverLoses(fields)
    ensures Faithful(fields, m)
    decreases fields
  {
    forall i | 0 <= i < |fields|
      ensures FaithfulField(fields, m, i)
    {
      var f, s := fields[i], m.slots[i];
      assert NeverLosesRow(f);
      ShapesAt(fields, i, m);
      forall k | 0 <= k < |s.items|
        ensures FaithfulValue(f, s.items[k])
      {
        assert ShapeValue(f, s.items[k]);
        if f.ltype.Submessage? {
          NeverLosesIsFaithful(f.sub, s.items[k].m);
        }
      }
      if SentCount(fields, m, i) == 0 && f.htype.Optional? && !HasFlag(f) && !f.ltype.Extension? {
        ZeroWasPossible(f, s.items[0]);
        if f.ltype.Submessage? {
          AlwaysQuietIsQuiet(f.sub, MsgOf(s.items[0]));
        }
      }
    }
  }

  /** Quiet messages lose nothing. */
  lemma {:induction false} QuietIsFaithful(fields: seq<Field>, m: Msg)
    requires Shape(fields, m) && Quiet(fields, m)
    ensures Faithful(fields, m)
    decreases fields
  {
    forall i | 0 <= i < |fields|
      ensures FaithfulField(fields, m, i)
    {
      var f, s := fields[i], m.slots[i];
      assert ShapeSlot(f, s) && QuietField(fields, m, i);
      if !Overlooked(f) {
        assert ShapeValue(f, s.items[0]) && s.items[0] == m.Item(i, 0);
        assert QuietValue(f, m.Item(i, 0));
        if f.ltype.Submessage? {
          QuietIsFaithful(f.sub, s.items[0].m);
        }
      }
    }
  }

  lemma {:induction false} ZeroIsZero(f: Field)
    requires GoodField(f) && CanBeZeroRow(f)
    ensures ZeroValue(f, ZeroOf(f))
    decreases f, 0
  {
    if f.ltype.Submessage? {
      ZeroMsgIsZero(f.sub);
    }
  }

  lemma {:induction false} ZeroMsgIsZero(fields: seq<Field>)
    requires GoodFields(fields) && CanBeZero(fields)
    ensures ZeroFields(fields, ZeroMsg(fields))
    decreases fields
  {
    forall i | 0 <= i < |fields|
      ensures ZeroValue(fields[i], ZeroMsg(fields).Item(i, 0))
    {
      ZeroIsZero(fields[i]);
      ZeroItem(fields, i);
    }
  }

  lemma {:induction false} ZeroItem(fields: seq<Field>, i: nat)
    requires GoodFields(fields) && i < |fields|
    ensures ZeroMsg(fields).slots[i] == ZeroSlot(fields[i]) && ZeroMsg(fields).Size(i) == 0
    ensures ZeroMsg(fields).Item(i, 0) == ZeroOf(fields[i])
  {
    assert GoodField(fields[i]);
    assert ZeroMsg(fields).slots[i] == ZeroSlot(fields[i]);
  }

  /** A message the zero test overlooks something in. */
  lemma {:induction false} OverlookedMessage(fields: seq<Field>) returns (m: Msg)
    requires GoodFields(fields) && CanBeZero(fields) && !AlwaysQuiet(fields)
    ensures Shape(fields, m) && ZeroFields(fields, m) && !Quiet(fields, m)
    decreases fields
  {
    hide ZeroOf, ZeroMsg, ZeroValue, ShapeValue, GoodField, CanBeZeroRow;
    var i :| 0 <= i < |fields| && !AlwaysQuietRow(fields[i]);
    var f, z := fields[i], ZeroMsg(fields);
    ZeroMsgShape(fields);
    ZeroMsgIsZero(fields);
    ZeroItem(fields, i);
    ShapesAt(fields, i, z);
    if Overlooked(f) {
      m := z.WithSize(LeaderAt(fields, i), if f.htype.Oneof? then f.tag else 1);
      assert forall j :: 0 <= j < |fields| ==> m.Item(j, 0) == z.Item(j, 0);
      forall j | 0 <= j < |fields|
        ensures ShapeSlot(fields[j], m.slots[j])
      {
        assert ShapeSlot(fields[j], z.slots[j]);
      }
    } else if f.ltype.Submessage? {
      SubCanBeZero(f);
      var inner := OverlookedMessage(f.sub);
      SubZero(f, inner);
      m := z.WithItem(i, 0, Sub(inner));
      StoreShape(fields, i, 0, z, Sub(inner));
      assert forall j :: 0 <= j < |fields| && j != i ==> m.Item(j, 0) == z.Item(j, 0);
      assert m.Item(i, 0) == Sub(inner);
    } else {
      m := z;
    }
    assert !QuietField(fields, m, i);
  }

  lemma {:induction false} SubCanBeZero(f: Field)
    requires GoodField(f) && CanBeZeroRow(f) && f.ltype.Submessage?
    ensures GoodFields(f.sub) && CanBeZero(f.sub)
  {}

  lemma {:induction false} SubZero(f: Field, m: Msg)
    requires f.ltype.Submessage? && Shape(f.sub, m)
    ensures ShapeValue(f, Sub(m)) && (ZeroValue(f, Sub(m)) <==> ZeroFields(f.sub, m))
  {}

  lemma {:induction false} ZeroIsOk(fields: seq<Field>)
    requires GoodFields(fields)
    ensures OkMsg(false, fields, ZeroMsg(fields))
    decreases fields
  {
    var z := ZeroMsg(fields);
    forall i | 0 <= i < |fields|
      ensures OkField(false, fields, z, i)
    {
      ZeroItem(fields, i);
      assert GoodField(fields[i]);
      if fields[i].ltype.Submessage? {
        ZeroIsOk(fields[i].sub);
      }
    }
  }

  /** The item is dropped. */
  predicate Drops(f: Field, v: Value) {
    f.htype.Optional? && !HasFlag(f) && ZeroValue(f, v)
  }

  /** The zero message with one item stored is acceptable if the item is, or is dropped. */
  lemma {:induction false} StoredAlone(fields: seq<Field>, i: nat, v: Value) returns (m: Msg)
    requires GoodFields(fields) && i < |fields| && !fields[i].ltype.Extension?
    requires ShapeValue(fields[i], v) && (OkValue(false, fields[i], v) || Drops(fields[i], v))
    ensures Shape(fields, m) && OkMsg(false, fields, m)
    ensures m.Item(i, 0) == v && |m.slots[i].items| > 0
    ensures SentCount(fields, m, i) == if Drops(fields[i], v) then 0 else 1
  {
    hide ZeroMsg, OkValue, ShapeValue, ZeroOf, InitValue, GoodField, ZeroValue;
    var f, z := fields[i], ZeroMsg(fields);
    ZeroMsgShape(fields);
    ZeroIsOk(fields);
    ZeroItem(fields, i);
    ShapesAt(fields, i, z);
    RepeatedHasRoom(f);
    TargetShape(fields, i, z);
    var t := Target(fields, i, z).value;
    StoreShape(fields, i, 0, t.m, v);
    m := t.m.WithItem(i, 0, v);
    forall j | 0 <= j < |fields|
      ensures OkField(false, fields, m, j)
    {
      assert OkField(false, fields, z, j);
      if j != i {
        UnrelatedCount(fields, i, j, v);
      }
    }
  }

  lemma {:induction false} RepeatedHasRoom(f: Field)
    requires GoodField(f)
    ensures f.htype.Repeated? ==> f.arraySize > 0
  {}

  lemma {:induction false} UnrelatedCount(fields: seq<Field>, i: nat, j: nat, v: Value)
    requires GoodFields(fields) && i < |fields| && j < |fields| && i != j && !fields[i].ltype.Extension?
    requires Target(fields, i, ZeroMsg(fields)).Some?
    ensures var m := Target(fields, i, ZeroMsg(fields)).value.m.WithItem(i, 0, v);
            && m.At(j).items == ZeroMsg(fields).At(j).items
            && (SentCount(fields, m, j) == 0 || SentCount(fields, m, j) == SentCount(fields, ZeroMsg(fields), j))
  {
    hide ZeroMsg, InitValue, GoodField, ZeroValue, Present;
    var z := ZeroMsg(fields);
    var t := Target(fields, i, z).value;
    var m := t.m.WithItem(i, 0, v);
    ZeroMsgShape(fields);
    ShapesAt(fields, i, z);
    assert fields[i].tag != fields[j].tag;
    if !fields[j].htype.Oneof? {
      assert LeaderAt(fields, i) != j || i == j;
      assert m.At(j) == z.At(j);
    } else if LeaderAt(fields, i) != Leader(fields, j) {
      assert m.Size(Leader(fields, j)) == z.Size(Leader(fields, j));
    }
  }

  /** A descriptor with an overlooked part has an acceptable message that loses it. */
  lemma {:induction false} LosingMessage(fields: seq<Field>) returns (m: Msg)
    requires GoodFields(fields) && !NeverLoses(fields)
    ensures Shape(fields, m) && OkMsg(false, fields, m) && !Faithful(fields, m)
    decreases fields
  {
    hide ZeroOf, ZeroMsg, InitValue;
    var i :| 0 <= i < |fields| && !NeverLosesRow(fields[i]);
    var f := fields[i];
    assert GoodField(f);
    if f.ltype.Submessage? && !NeverLoses(f.sub) {
      var inner := LosingMessage(f.sub);
      m := StoredAlone(fields, i, Sub(inner));
      if Quiet(f.sub, inner) {
        QuietIsFaithful(f.sub, inner);
      }
      assert !FaithfulValue(f, m.At(i).items[0]) && !QuietValue(f, m.Item(i, 0));
    } else if f.ltype.Submessage? {
      var inner := OverlookedMessage(f.sub);
      m := StoredAlone(fields, i, Sub(inner));
    } else {
      ZeroShape(f);
      ZeroIsZero(f);
      m := StoredAlone(fields, i, ZeroOf(f));
    }
    assert !FaithfulField(fields, m, i);
  }

  /** A descriptor loses nothing of any message the encoder takes exactly when each has-less field
      that can be zero has, all the way down, no flags, arrays, unions and nonzero defaults in it. */
  lemma {:induction false} LosslessDescriptors(fields: seq<Field>)
    requires GoodFields(fields)
    ensures NeverLoses(fields) <==>
              forall m ::
                Shape(fields, m) && OkMsg(false, fields, m) ==> SentMsg(fields, m) == ViewMsg(false, fields, m)
  {
    hide NeverLoses, Shape, OkMsg, Faithful, GoodFields, SentMsg, ViewMsg;
    if NeverLoses(fields) {
      forall m | Shape(fields, m) && OkMsg(false, fields, m)
        ensures SentMsg(fields, m) == ViewMsg(false, fields, m)
      {
        NeverLosesIsFaithful(fields, m);
        SentIsView(fields, m);
      }
    } else {
      var m := LosingMessage(fields);
      SentIsView(fields, m);
    }
  }

  /** With such a descriptor every message comes back from its encoding as it was visible, whatever
      the destination held. */
  lemma {:induction false} LosslessRoundTrip(fields: seq<Field>, m: Msg, prior: Msg)
    requires GoodFields(fields) && NeverLoses(fields)
    requires Shape(fields, m) && Shape(fields, prior) && OkMsg(true, fields, m)
    ensures var r := DecMsg(fields, EncMsg(fields, m), Defaults(fields, prior));
            r.Got? && r.rest == [] && ViewMsg(false, fields, r.value) == ViewMsg(false, fields, m)
  {
    hide NeverLoses, Shape, OkMsg, Faithful, GoodFields, DecMsg, EncMsg, ViewMsg, Defaults;
    NeverLosesIsFaithful(fields, m);
    RoundTripLossless(fields, m, prior);
  }
}
