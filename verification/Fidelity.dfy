/** Exactly when the round trip is lossless: a has-less submessage is dropped by the zero test even
    if has-flags, counts or which-tags inside it are set. */
module Fidelity {
  import opened Words
  import opened Numbers
  import opened Descriptor
  import opened Encoding
  import opened Decoding
  import opened Views
  import opened RoundTrip

  /** The field's default is a zero value. */
  predicate ZeroDefault(f: Field) {
    f.default.None? || ZeroValue(f, f.default.value)
  }

  /** Nothing in the value is marked as present, and every plain default in it is zero. */
  predicate QuietValue(f: Field, v: Value)
    decreases f, 0
  {
    if f.ltype.Submessage? then Quiet(f.sub, MsgOf(v)) else f.ltype.Extension? || ZeroDefault(f)
  }

  /** The zero test overlooks whether such a field is present: it has a has-flag, a count or a
      which-tag. */
  predicate Overlooked(f: Field) {
    f.htype.Repeated? || f.htype.Oneof? || (f.htype.Optional? && HasFlag(f))
  }

  predicate QuietField(fields: seq<Field>, m: Msg, i: nat)
    requires i < |fields|
    decreases fields, 0
  {
    if fields[i].htype.Oneof? then !Active(fields, m, i)
    else if Overlooked(fields[i]) then m.Size(i) == 0
    else QuietValue(fields[i], m.Item(i, 0))
  }

  /** No has-flag is set, no array has entries and no union has an active member, all the way down. */
  predicate Quiet(fields: seq<Field>, m: Msg)
    decreases fields, 1
  {
    forall i :: 0 <= i < |fields| ==> QuietField(fields, m, i)
  }

  predicate FaithfulValue(f: Field, v: Value)
    decreases f, 0
  {
    f.ltype.Submessage? ==> Faithful(f.sub, MsgOf(v))
  }

  /** Every has-less field that the zero test drops, anywhere in what is sent, is quiet. */
  predicate FaithfulField(fields: seq<Field>, m: Msg, i: nat)
    requires i < |fields|
    decreases fields, 0
  {
    var f, n := fields[i], SentCount(fields, m, i);
    && (forall k :: 0 <= k < n && k < |m.At(i).items| ==> FaithfulValue(f, m.At(i).items[k]))
    && (n == 0 && f.htype.Optional? && !HasFlag(f) && !f.ltype.Extension? ==> QuietValue(f, m.Item(i, 0)))
  }

  predicate Faithful(fields: seq<Field>, m: Msg)
    decreases fields, 1
  {
    forall i :: 0 <= i < |fields| ==> FaithfulField(fields, m, i)
  }

  /** A value that passes the zero test shows what the default shows exactly when it is quiet. */
  lemma {:induction false} QuietIsDefault(f: Field, v: Value)
    requires GoodField(f) && ShapeValue(f, v) && ZeroValue(f, v)
    ensures ViewValue(false, f, v) == ViewValue(false, f, InitValue(f)) <==> QuietValue(f, v)
    decreases f, 0
  {
    if f.ltype.Submessage? {
      QuietMsgIsDefault(f.sub, v.m);
      assert InitValue(f) == Sub(InitMsg(f.sub));
    } else {
      PlainDefault(f, v);
    }
  }

  lemma {:induction false} PlainDefault(f: Field, v: Value)
    requires GoodField(f) && ShapeValue(f, v) && ZeroValue(f, v) && !f.ltype.Submessage?
    ensures ViewValue(false, f, v) == ViewValue(false, f, InitValue(f)) <==> f.ltype.Extension? || ZeroDefault(f)
  {
    match f.ltype
    case Number(_) =>
    case Bytes =>
      assert BlobBytes(v.size, v.buf) == [];
      var d := InitValue(f);
      assert BlobBytes(d.size, d.buf) == [] <==> d.size == 0;
    case String =>
      assert TextBytes(v.buf) == [];
      var d := InitValue(f);
      assert |d.buf| > 0 && (TextBytes(d.buf) == [] <==> d.buf[0] == 0);
    case FixedLengthBytes =>
      assert v.buf == [] && InitValue(f).buf == [];
    case Extension =>
  }

  lemma {:induction false} QuietFieldIsDefault(fields: seq<Field>, m: Msg, i: nat)
    requires GoodFields(fields) && Shape(fields, m) && ZeroFields(fields, m) && i < |fields|
    ensures ViewField(false, fields, m, i) == ViewField(false, fields, InitMsg(fields), i)
            <==> QuietField(fields, m, i)
    decreases fields, 0
  {
    hide ViewValue, InitMsg, InitValue, QuietValue, ZeroValue;
    var f := fields[i];
    ShapesAt(fields, i, m);
    InitAt(fields, i);
    InitShape(fields);
    ShapesAt(fields, i, InitMsg(fields));
    if f.htype.Repeated? {
      NoItems(f, InitMsg(fields).At(i));
      assert f.arraySize > 0;
      assert |ViewItems(false, f, m.At(i))| == 0 <==> m.Size(i) == 0;
    } else if f.htype.Oneof? {
      InitPending(fields);
    } else {
      assert ZeroValue(f, m.Item(i, 0));
      assert ShapeValue(f, m.Item(i, 0));
      QuietIsDefault(f, m.Item(i, 0));
      assert InitMsg(fields).Item(i, 0) == InitValue(f);
    }
  }

  lemma {:induction false} QuietMsgIsDefault(fields: seq<Field>, m: Msg)
    requires GoodFields(fields) && Shape(fields, m) && ZeroFields(fields, m)
    ensures ViewMsg(false, fields, m) == ViewMsg(false, fields, InitMsg(fields)) <==> Quiet(fields, m)
    decreases fields, 1
  {
    hide ViewField, ViewMsg, QuietField, GoodFields, Shape, InitMsg, ZeroFields;
    if ViewMsg(false, fields, m) == ViewMsg(false, fields, InitMsg(fields)) {
      ViewsAgreeAt(false, fields, m, InitMsg(fields));
      forall i | 0 <= i < |fields|
        ensures QuietField(fields, m, i)
      {
        QuietFieldIsDefault(fields, m, i);
      }
    }
    if Quiet(fields, m) {
      forall i | 0 <= i < |fields|
        ensures ViewField(false, fields, m, i) == ViewField(false, fields, InitMsg(fields), i)
      {
        QuietFieldIsDefault(fields, m, i);
      }
      ViewsAgree(false, fields, m, InitMsg(fields));
    }
  }

  lemma {:induction false} SentValueIsView(f: Field, v: Value)
    requires GoodField(f) && ShapeValue(f, v) && OkValue(false, f, v)
    ensures SentValue(f, v) == ViewValue(false, f, v) <==> FaithfulValue(f, v)
    decreases f, 0
  {
    if f.ltype.Submessage? {
      SentIsView(f.sub, v.m);
    }
  }

  lemma {:induction false} SentItemAt(f: Field, s: Slot, n: nat, k: nat)
    requires k < n <= |s.items|
    ensures |SentItems(f, s, n)| == n && SentItems(f, s, n)[k] == SentValue(f, s.items[k])
  {
    hide SentValue;
    if k < n - 1 {
      SentItemAt(f, s, n - 1, k);
    } else if n > 1 {
      SentItemAt(f, s, n - 1, 0);
    }
  }

  lemma {:induction false} SentItemsAreViews(f: Field, s: Slot)
    requires GoodField(f) && ShapeSlot(f, s) && f.htype.Repeated? && s.size <= f.arraySize
    requires forall k :: 0 <= k < s.size ==> OkValue(false, f, s.items[k])
    ensures SentItems(f, s, s.size) == ViewItems(false, f, s)
            <==> forall k :: 0 <= k < s.size ==> FaithfulValue(f, s.items[k])
    decreases f, 1
  {
    hide SentItems, ViewItems, SentValue, ViewValue, FaithfulValue, OkValue;
    var a, b := SentItems(f, s, s.size), ViewItems(false, f, s);
    forall k | 0 <= k < s.size
      ensures |a| == s.size && a[k] == SentValue(f, s.items[k]) && b[k] == ViewValue(false, f, s.items[k])
      ensures a[k] == b[k] <==> FaithfulValue(f, s.items[k])
    {
      SentItemAt(f, s, s.size, k);
      ItemView(f, s, k);
      SentValueIsView(f, s.items[k]);
    }
    if s.size == 0 {
      NothingSent(f, s);
    } else {
      SentItemAt(f, s, s.size, 0);
    }
    assert |a| == s.size && |b| == s.size;
    if a == b {
      assert forall k :: 0 <= k < s.size ==> a[k] == b[k];
    }
    if forall k :: 0 <= k < s.size ==> FaithfulValue(f, s.items[k]) {
      assert forall k :: 0 <= k < s.size ==> a[k] == b[k] by {
        forall k | 0 <= k < s.size
          ensures a[k] == b[k]
        {
          assert FaithfulValue(f, s.items[k]);
        }
      }
    }
  }

  lemma {:induction false} NothingSent(f: Field, s: Slot)
    ensures SentItems(f, s, 0) == []
  {}

  lemma {:induction false} ItemView(f: Field, s: Slot, k: nat)
    requires k < s.size <= |s.items|
    ensures ViewItems(false, f, s)[k] == ViewValue(false, f, s.items[k])
  {}

  lemma {:induction false} SentFieldIsView(fields: seq<Field>, m: Msg, i: nat)
    requires GoodFields(fields) && Shape(fields, m) && OkMsg(false, fields, m) && i < |fields|
    ensures SentField(fields, m, i) == ViewField(false, fields, m, i) <==> FaithfulField(fields, m, i)
    decreases fields, 0
  {
    hide ViewValue, SentValue, InitValue, QuietValue, ZeroValue, FaithfulValue, SentItems, ViewItems, OkValue;
    var f, s := fields[i], m.slots[i];
    ShapesAt(fields, i, m);
    assert OkField(false, fields, m, i);
    if f.ltype.Extension? {
      ExtensionView(f, m.Item(i, 0));
    } else if f.htype.Repeated? {
      SentItemsAreViews(f, s);
    } else if SentCount(fields, m, i) == 1 {
      assert s.items[0] == m.Item(i, 0) && ShapeValue(f, s.items[0]) && OkValue(false, f, s.items[0]);
      SentValueIsView(f, s.items[0]);
    } else if f.htype.Optional? && !HasFlag(f) {
      QuietIsDefault(f, s.items[0]);
    }
  }

  /** What is sent is the whole visible message exactly for faithful messages. */
  lemma {:induction false} SentIsView(fields: seq<Field>, m: Msg)
    requires GoodFields(fields) && Shape(fields, m) && OkMsg(false, fields, m)
    ensures SentMsg(fields, m) == ViewMsg(false, fields, m) <==> Faithful(fields, m)
    decreases fields, 1
  {
    hide ViewField, SentField, FaithfulField, GoodFields, Shape, OkMsg;
    var a, b := SentMsg(fields, m), ViewMsg(false, fields, m);
    forall i | 0 <= i < |fields|
      ensures a[i] == SentField(fields, m, i) && b[i] == ViewField(false, fields, m, i)
      ensures a[i] == b[i] <==> FaithfulField(fields, m, i)
    {
      ViewAt(false, fields, m, i);
      SentAt(fields, m, i);
      SentFieldIsView(fields, m, i);
    }
    if a == b {
      assert forall i :: 0 <= i < |fields| ==> a[i] == b[i];
    }
    if Faithful(fields, m) {
      assert |a| == |b| && forall i :: 0 <= i < |a| ==> a[i] == b[i];
    }
  }

  lemma {:induction false} SentAt(fields: seq<Field>, m: Msg, i: nat)
    requires i < |fields|
    ensures SentMsg(fields, m)[i] == SentField(fields, m, i)
  {}

  /** The round trip gives back the same visible message - has-flags, counts, active union members
      and nested values - exactly when the message is faithful. */
  lemma {:induction false} RoundTripLossless(fields: seq<Field>, m: Msg, prior: Msg)
    requires GoodFields(fields) && Shape(fields, m) && Shape(fields, prior) && OkMsg(true, fields, m)
    ensures var r := DecMsg(fields, EncMsg(fields, m), Defaults(fields, prior));
            && r.Got? && r.rest == []
            && (ViewMsg(false, fields, r.value) == ViewMsg(false, fields, m) <==> Faithful(fields, m))
  {
    hide DecMsg, EncMsg, ViewMsg, SentMsg, OkMsg, GoodFields, Shape, Defaults, Faithful;
    DecodeInvertsEncode(fields, m, prior);
    StrictIsOk(fields, m);
    SentIsView(fields, m);
  }

  /** A has-less submessage of one optional int32 with a has-flag in front of it. */
  const FLAGGED: Field := Field(1, Static, Optional, Number(Signed), 4, -4, 4, 0, [], None)
  const WRAPPER: Field := Field(1, Static, Optional, Submessage, 0, 0, 8, 0, [FLAGGED], None)

  /** The number is present and zero. */
  const PRESENT_ZERO: Msg := Msg([Slot(0, [Sub(Msg([Slot(1, [Num(0)])]))])])

  lemma {:induction false} WrapperIsGood()
    ensures GoodFields([WRAPPER]) && Trackable([WRAPPER])
  {
    assert GoodField(FLAGGED) && TrackableField(FLAGGED);
    assert RequiredCount([FLAGGED]) == 0 && RequiredCount([WRAPPER]) == 0;
    assert GoodField(WRAPPER) && TrackableField(WRAPPER);
  }

  lemma {:induction false} PresentZeroIsDropped()
    ensures Shape([WRAPPER], PRESENT_ZERO) && OkMsg(true, [WRAPPER], PRESENT_ZERO)
    ensures EncMsg([WRAPPER], PRESENT_ZERO) == [] && !Faithful([WRAPPER], PRESENT_ZERO)
    ensures !Present(WRAPPER, PRESENT_ZERO.At(0))
  {
    var fields, m, inner := [WRAPPER], PRESENT_ZERO, Msg([Slot(1, [Num(0)])]);
    assert MsgOf(m.Item(0, 0)) == inner && inner.Size(0) == 1;
    assert ShapeSlot(FLAGGED, inner.slots[0]) && Shape([FLAGGED], inner);
    assert ShapeValue(WRAPPER, Sub(inner)) && ShapeSlot(WRAPPER, m.slots[0]);
    assert ZeroValue(FLAGGED, inner.Item(0, 0)) && ZeroFields([FLAGGED], inner);
    assert SentCount(fields, m, 0) == 0;
    assert [FLAGGED][0] == FLAGGED && !QuietField([FLAGGED], inner, 0) && !Quiet([FLAGGED], inner);
    assert !FaithfulField(fields, m, 0);
    assert EncMsg(fields, m) == EncField(fields, m, 0) + EncFrom(fields, m, 1);
  }

  lemma {:induction false} WrapperViews()
    ensures SentMsg([WRAPPER], PRESENT_ZERO) == [One(MsgView([Absent]))]
    ensures ViewMsg(false, [WRAPPER], PRESENT_ZERO) == [One(MsgView([One(NumView(0))]))]
  {
    var inner, blank := Msg([Slot(1, [Num(0)])]), InitMsg([FLAGGED]);
    PresentZeroIsDropped();
    assert blank.slots[0] == DefaultSlot(FLAGGED, false, ZeroMsg([FLAGGED]).slots[0]) && blank.Size(0) == 0;
    assert ViewField(false, [FLAGGED], inner, 0) == One(NumView(0));
    assert ViewField(false, [FLAGGED], blank, 0) == Absent;
    assert ViewMsg(false, [FLAGGED], inner) == [One(NumView(0))];
    assert ViewMsg(false, [FLAGGED], blank) == [Absent];
    assert InitValue(WRAPPER) == Sub(blank);
    assert SentField([WRAPPER], PRESENT_ZERO, 0) == One(MsgView([Absent]));
    assert ViewField(false, [WRAPPER], PRESENT_ZERO, 0) == One(MsgView([One(NumView(0))]));
  }

  /** The round trip can lose information: the zero test does not see the flag, so nothing is sent,
      and what comes back, whatever the destination held, has the flag clear. */
  lemma {:induction false} PresentZeroIsLost(prior: Msg)
    requires Shape([WRAPPER], prior)
    ensures GoodFields([WRAPPER]) && Trackable([WRAPPER])
    ensures Shape([WRAPPER], PRESENT_ZERO) && OkMsg(true, [WRAPPER], PRESENT_ZERO)
    ensures EncMsg([WRAPPER], PRESENT_ZERO) == [] && !Faithful([WRAPPER], PRESENT_ZERO)
    ensures var r := DecMsg([WRAPPER], EncMsg([WRAPPER], PRESENT_ZERO), Defaults([WRAPPER], prior));
            && r.Got? && ViewMsg(false, [WRAPPER], r.value) == [One(MsgView([Absent]))]
            && ViewMsg(false, [WRAPPER], PRESENT_ZERO) == [One(MsgView([One(NumView(0))]))]
  {
    WrapperIsGood();
    PresentZeroIsDropped();
    WrapperViews();
    hide DecMsg, ViewMsg, SentMsg, Defaults, GoodFields, Shape, OkMsg, Faithful;
    DecodeInvertsEncode([WRAPPER], PRESENT_ZERO, prior);
  }
}
