/** Encoding again what was received: exactly which descriptors make it give the same bytes. */
module Reencoding {
  import opened Words
  import opened Varint
  import opened Numbers
  import opened Descriptor
  import opened Encoding
  import opened Decoding
  import opened Views
  import opened RoundTrip
  import opened Fidelity
  import opened Lossless
  import opened Acceptance

  /** Some content of the member does not count as zero. */
  predicate CanBeNonzero(f: Field) {
    match f.ltype
    case FixedLengthBytes => f.dataSize > 0
    case Submessage => exists i :: 0 <= i < |f.sub| && CanBeNonzero(f.sub[i])
    case Extension => false
    case _ => true
  }

  /** Every structure that looks like a fresh one passes the zero test: what the test reads is
      visible, or always zero, and every default is zero. */
  predicate BlankIsZero(fields: seq<Field>) {
    forall i :: 0 <= i < |fields| ==> BlankIsZeroRow(fields[i])
  }

  predicate BlankIsZeroRow(f: Field) {
    if Overlooked(f) then !CanBeNonzero(f)
    else if f.ltype.Submessage? then BlankIsZero(f.sub)
    else f.ltype.Extension? || (CanBeZeroRow(f) && ZeroDefault(f))
  }

  /** Whether a has-less field counts as zero can be told from what is visible of it, and a dropped
      one comes back as zero. */
  predicate Stable(fields: seq<Field>) {
    forall i :: 0 <= i < |fields| ==> StableRow(fields[i])
  }

  predicate StableRow(f: Field) {
    && (f.ltype.Submessage? ==> Stable(f.sub))
    && (HasLess(f) && CanBeZeroRow(f) ==> if f.ltype.Submessage? then BlankIsZero(f.sub) else ZeroDefault(f))
  }

  predicate HasLess(f: Field) {
    f.htype.Optional? && !HasFlag(f) && !f.ltype.Extension?
  }

  // ---- Stable descriptors ----

  lemma {:induction false} AlwaysZero(f: Field, v: Value)
    requires GoodField(f) && ShapeValue(f, v) && !CanBeNonzero(f)
    ensures ZeroValue(f, v)
    decreases f, 0
  {
    if f.ltype.Submessage? {
      forall i | 0 <= i < |f.sub|
        ensures ZeroValue(f.sub[i], v.m.Item(i, 0))
      {
        assert !CanBeNonzero(f.sub[i]);
        ShapesAt(f.sub, i, v.m);
        AlwaysZero(f.sub[i], v.m.Item(i, 0));
      }
    }
  }

  /** For other members than submessages, being zero can be seen. */
  lemma {:induction false} ZeroIsSeen(f: Field, v1: Value, v2: Value)
    requires GoodField(f) && ShapeValue(f, v1) && ShapeValue(f, v2) && !f.ltype.Submessage?
    requires ViewValue(false, f, v1) == ViewValue(false, f, v2)
    requires ZeroValue(f, v1) && (ZeroValue(f, v2) || OkValue(false, f, v2))
    ensures ZeroValue(f, v2)
  {
    if f.ltype.Bytes? {
      assert |BlobBytes(v1.size, v1.buf)| == 0;
      assert |BlobBytes(v2.size, v2.buf)| == v2.size;
    }
    if f.ltype.String? {
      assert TextBytes(v1.buf) == [] && TextBytes(v2.buf) == [];
    }
  }

  /** What was sent as nonzero is received as nonzero. */
  lemma {:induction false} NonzeroArrives(fields: seq<Field>, m: Msg, d: Msg)
    requires GoodFields(fields) && Shape(fields, m) && Shape(fields, d) && OkMsg(false, fields, m)
    requires ViewMsg(false, fields, d) == SentMsg(fields, m) && BlankIsZero(fields)
    requires ZeroFields(fields, d)
    ensures ZeroFields(fields, m)
    decreases fields
  {
    ViewsAndSents(fields, m, d);
    forall i | 0 <= i < |fields|
      ensures ZeroValue(fields[i], m.Item(i, 0))
    {
      var f := fields[i];
      var x, y := m.Item(i, 0), d.Item(i, 0);
      ShapesAt(fields, i, m);
      ShapesAt(fields, i, d);
      assert BlankIsZeroRow(f) && OkField(false, fields, m, i) && ZeroValue(f, y);
      assert x == m.slots[i].items[0] && y == d.slots[i].items[0] && ShapeValue(f, x) && ShapeValue(f, y);
      if Overlooked(f) {
        AlwaysZero(f, x);
      } else if !f.ltype.Extension? && !ZeroValue(f, x) {
        assert SentCount(fields, m, i) == 1;
        assert ViewField(false, fields, d, i) == SentField(fields, m, i) == One(SentValue(f, x));
        assert ViewValue(false, f, y) == SentValue(f, x) && OkValue(false, f, x);
        if f.ltype.Submessage? {
          assert y == Sub(y.m) && x == Sub(x.m) && BlankIsZero(f.sub);
          assert ViewMsg(false, f.sub, y.m) == SentMsg(f.sub, x.m);
          NonzeroArrives(f.sub, x.m, y.m);
        } else {
          ZeroIsSeen(f, y, x);
        }
      }
    }
  }

  /** The view of one message and what another one sends, field by field. */
  lemma {:induction false} ViewsAndSents(fields: seq<Field>, m: Msg, d: Msg)
    requires ViewMsg(false, fields, d) == SentMsg(fields, m)
    ensures forall i :: 0 <= i < |fields| ==> ViewField(false, fields, d, i) == SentField(fields, m, i)
  {
    hide ViewField, SentField;
    forall i | 0 <= i < |fields|
      ensures ViewField(false, fields, d, i) == SentField(fields, m, i)
    {
      ViewAt(false, fields, d, i);
      SentAt(fields, m, i);
    }
  }

  /** A structure that looks like a fresh one passes the zero test. */
  lemma {:induction false} BlankPasses(fields: seq<Field>, d: Msg)
    requires GoodFields(fields) && Shape(fields, d) && BlankIsZero(fields)
    requires ViewMsg(false, fields, d) == ViewMsg(false, fields, InitMsg(fields))
    requires ZeroFields(fields, d) || OkMsg(false, fields, d)
    ensures ZeroFields(fields, d)
    decreases fields
  {
    hide InitMsg, ViewMsg;
    InitShape(fields);
    ViewsAgreeAt(false, fields, d, InitMsg(fields));
    forall i | 0 <= i < |fields|
      ensures ZeroValue(fields[i], d.Item(i, 0))
    {
      var f, y := fields[i], d.Item(i, 0);
      ShapesAt(fields, i, d);
      InitAt(fields, i);
      assert BlankIsZeroRow(f) && y == d.slots[i].items[0] && ShapeValue(f, y);
      assert ViewField(false, fields, d, i) == ViewField(false, fields, InitMsg(fields), i);
      if Overlooked(f) {
        AlwaysZero(f, y);
      } else if !f.ltype.Extension? && !ZeroValue(f, y) {
        assert SentCount(fields, d, i) == 1 && OkField(false, fields, d, i);
        assert ViewValue(false, f, y) == ViewValue(false, f, InitValue(f));
        if f.ltype.Submessage? {
          SubInit(f);
          BlankPasses(f.sub, y.m);
        } else {
          BlankIsDefault(f);
          ZeroIsSeen(f, InitValue(f), y);
        }
      }
    }
  }

  lemma {:induction false} SubInit(f: Field)
    requires GoodField(f) && f.ltype.Submessage?
    ensures GoodFields(f.sub) && InitValue(f) == Sub(InitMsg(f.sub))
  {}

  lemma {:induction false} BlankIsDefault(f: Field)
    requires GoodField(f) && !f.ltype.Submessage? && CanBeZeroRow(f) && ZeroDefault(f)
    ensures ShapeValue(f, InitValue(f)) && ZeroValue(f, InitValue(f))
  {
    ZeroShape(f);
    ZeroIsZero(f);
  }

  lemma {:induction false} ValueResent(f: Field, x: Value, y: Value)
    requires GoodField(f) && (f.ltype.Submessage? ==> Stable(f.sub))
    requires ShapeValue(f, x) && ShapeValue(f, y) && OkValue(false, f, x) && OkValue(false, f, y)
    requires ViewValue(false, f, y) == SentValue(f, x)
    ensures EncValue(f, y) == EncValue(f, x)
    decreases f, 0
  {
    if f.ltype.Submessage? {
      MsgResent(f.sub, x.m, y.m);
    }
  }

  lemma {:induction false} ItemsResent(f: Field, s: Slot, r: Slot, n: nat)
    requires n <= |s.items| && n <= |r.items|
    requires forall k :: 0 <= k < n ==> EncValue(f, r.items[k]) == EncValue(f, s.items[k])
    ensures EncPacked(f, r, n) == EncPacked(f, s, n) && EncRecords(f, r, n) == EncRecords(f, s, n)
  {
    hide EncValue;
    if n > 0 {
      ItemsResent(f, s, r, n - 1);
    }
  }

  /** A has-less field is sent the second time exactly if it was the first time. */
  lemma {:induction false} PresenceResent(fields: seq<Field>, m: Msg, d: Msg, i: nat)
    requires GoodFields(fields) && Shape(fields, m) && Shape(fields, d) && i < |fields|
    requires OkField(false, fields, m, i) && OkField(false, fields, d, i)
    requires ViewField(false, fields, d, i) == SentField(fields, m, i)
    requires StableRow(fields[i]) && HasLess(fields[i])
    ensures Present(fields[i], d.At(i)) == Present(fields[i], m.At(i))
  {
    hide ViewMsg, SentMsg, InitMsg, ZeroFields, OkMsg, InitValue;
    var f, x, y := fields[i], m.slots[i].items[0], d.slots[i].items[0];
    ShapesAt(fields, i, m);
    ShapesAt(fields, i, d);
    assert ShapeValue(f, x) && ShapeValue(f, y) && m.Item(i, 0) == x && d.Item(i, 0) == y;
    assert Present(f, m.At(i)) ==> OkValue(false, f, x);
    assert Present(f, d.At(i)) ==> OkValue(false, f, y);
    if Present(f, m.At(i)) {
      if ZeroValue(f, y) {
        ZeroWasPossible(f, y);
        if f.ltype.Submessage? {
          NonzeroArrives(f.sub, x.m, y.m);
        } else {
          ZeroIsSeen(f, y, x);
        }
      }
    } else {
      ZeroWasPossible(f, x);
      assert ViewValue(false, f, y) == ViewValue(false, f, InitValue(f));
      if f.ltype.Submessage? {
        SubInit(f);
        BlankPasses(f.sub, y.m);
      } else {
        BlankIsDefault(f);
        ZeroIsSeen(f, InitValue(f), y);
      }
    }
  }

  lemma {:induction false} FieldResent(fields: seq<Field>, m: Msg, d: Msg, i: nat)
    requires GoodFields(fields) && Shape(fields, m) && Shape(fields, d) && i < |fields| && StableRow(fields[i])
    requires OkField(false, fields, m, i) && OkField(false, fields, d, i)
    requires ViewField(false, fields, d, i) == SentField(fields, m, i)
    ensures EncField(fields, d, i) == EncField(fields, m, i)
    decreases fields, 0
  {
    hide ViewValue, SentValue, EncValue, OkValue, ShapeValue, ZeroValue, InitValue;
    var f, s, r := fields[i], m.slots[i], d.slots[i];
    ShapesAt(fields, i, m);
    ShapesAt(fields, i, d);
    if f.htype.Repeated? && !f.ltype.Extension? {
      var n := s.size;
      SentItemsCount(f, s, n);
      assert |ViewItems(false, f, r)| == n;
      assert r.size == n;
      forall k | 0 <= k < n
        ensures EncValue(f, r.items[k]) == EncValue(f, s.items[k])
      {
        SentItemAt(f, s, n, k);
        ItemView(f, r, k);
        assert ShapeValue(f, s.items[k]) && ShapeValue(f, r.items[k]);
        ValueResent(f, s.items[k], r.items[k]);
      }
      ItemsResent(f, s, r, n);
    } else if !f.ltype.Extension? {
      if HasLess(f) {
        PresenceResent(fields, m, d, i);
      }
      assert SentCount(fields, d, i) == SentCount(fields, m, i);
      if SentCount(fields, m, i) == 1 {
        assert ShapeValue(f, s.items[0]) && ShapeValue(f, r.items[0]);
        assert s.items[0] == m.Item(i, 0) && r.items[0] == d.Item(i, 0);
        ValueResent(f, s.items[0], r.items[0]);
      }
    }
  }

  lemma {:induction false} SentItemsCount(f: Field, s: Slot, n: nat)
    requires n <= |s.items|
    ensures |SentItems(f, s, n)| == n
  {
    if n > 0 {
      SentItemsCount(f, s, n - 1);
    }
  }

  lemma {:induction false} SameFields(fields: seq<Field>, m: Msg, d: Msg, i: nat)
    requires i <= |fields| && forall j :: i <= j < |fields| ==> EncField(fields, d, j) == EncField(fields, m, j)
    ensures EncFrom(fields, d, i) == EncFrom(fields, m, i)
    decreases |fields| - i
  {
    hide EncField;
    if i < |fields| {
      SameFields(fields, m, d, i + 1);
    }
  }

  /** With a stable descriptor, any structure that shows what was sent is encoded to the same bytes. */
  lemma {:induction false} MsgResent(fields: seq<Field>, m: Msg, d: Msg)
    requires GoodFields(fields) && Stable(fields)
    requires Shape(fields, m) && Shape(fields, d) && OkMsg(false, fields, m) && OkMsg(false, fields, d)
    requires ViewMsg(false, fields, d) == SentMsg(fields, m)
    ensures EncMsg(fields, d) == EncMsg(fields, m)
    decreases fields, 1
  {
    hide EncField, ViewField, SentField, OkField, StableRow, ViewMsg, SentMsg;
    ViewsAndSents(fields, m, d);
    forall i | 0 <= i < |fields|
      ensures EncField(fields, d, i) == EncField(fields, m, i)
    {
      assert StableRow(fields[i]) && OkField(false, fields, m, i) && OkField(false, fields, d, i);
      FieldResent(fields, m, d, i);
    }
    SameFields(fields, m, d, 0);
  }

  /** Decoding an encoding and encoding the result gives the same bytes again. */
  lemma {:induction false} ReencodingRepeats(fields: seq<Field>, m: Msg, prior: Msg)
    requires GoodFields(fields) && Stable(fields)
    requires Shape(fields, m) && Shape(fields, prior) && OkMsg(true, fields, m)
    ensures var r := DecMsg(fields, EncMsg(fields, m), Defaults(fields, prior));
            r.Got? && OkMsg(false, fields, r.value) && EncMsg(fields, r.value) == EncMsg(fields, m)
  {
    hide DecMsg, EncMsg, ViewMsg, SentMsg, OkMsg, GoodFields, Shape, Defaults, Stable;
    DecodeInvertsEncode(fields, m, prior);
    DecodedIsEncodable(fields, EncMsg(fields, m), prior);
    StrictIsOk(fields, m);
    MsgResent(fields, m, DecMsg(fields, EncMsg(fields, m), Defaults(fields, prior)).value);
  }

  // ---- Lossless descriptors are stable ----

  lemma {:induction false} QuietIsBlank(fields: seq<Field>)
    requires AlwaysQuiet(fields) && CanBeZero(fields)
    ensures BlankIsZero(fields)
    decreases fields
  {
    forall i | 0 <= i < |fields|
      ensures BlankIsZeroRow(fields[i])
    {
      assert AlwaysQuietRow(fields[i]) && CanBeZeroRow(fields[i]);
      if fields[i].ltype.Submessage? {
        QuietIsBlank(fields[i].sub);
      }
    }
  }

  /** A descriptor that never loses anything is stable. */
  lemma {:induction false} LosslessIsStable(fields: seq<Field>)
    requires NeverLoses(fields)
    ensures Stable(fields)
    decreases fields
  {
    forall i | 0 <= i < |fields|
      ensures StableRow(fields[i])
    {
      var f := fields[i];
      assert NeverLosesRow(f);
      if f.ltype.Submessage? {
        LosslessIsStable(f.sub);
        if HasLess(f) && CanBeZeroRow(f) {
          QuietIsBlank(f.sub);
        }
      }
    }
  }

  // ---- Unstable descriptors ----

  lemma {:induction false} NeverNonzeroIsBlank(fields: seq<Field>)
    requires forall i :: 0 <= i < |fields| ==> !CanBeNonzero(fields[i])
    ensures BlankIsZero(fields)
    decreases fields
  {
    forall i | 0 <= i < |fields|
      ensures BlankIsZeroRow(fields[i])
    {
      var f := fields[i];
      assert !CanBeNonzero(f);
      if f.ltype.Submessage? {
        assert forall j :: 0 <= j < |f.sub| ==> !CanBeNonzero(f.sub[j]);
        NeverNonzeroIsBlank(f.sub);
      }
    }
  }

  lemma {:induction false} BlankIsStable(fields: seq<Field>)
    requires BlankIsZero(fields)
    ensures Stable(fields)
    decreases fields
  {
    forall i | 0 <= i < |fields|
      ensures StableRow(fields[i])
    {
      var f := fields[i];
      assert BlankIsZeroRow(f);
      if f.ltype.Submessage? {
        if Overlooked(f) {
          assert forall j :: 0 <= j < |f.sub| ==> !CanBeNonzero(f.sub[j]);
          NeverNonzeroIsBlank(f.sub);
        }
        BlankIsStable(f.sub);
      }
    }
  }

  lemma {:induction false} NonzeroContent(f: Field) returns (v: Value)
    requires GoodField(f) && CanBeNonzero(f)
    ensures ShapeValue(f, v) && !ZeroValue(f, v)
    decreases f
  {
    match f.ltype
    case Number(_) =>
      v := Num(1);
      assert Top(f.dataSize) >= 0x100;
    case Bytes => v := Blob(1, Zeros(f.dataSize - BYTES_OFFSET));
    case String =>
      v := Text([1] + Zeros(f.dataSize - 1));
    case FixedLengthBytes => v := Raw(Zeros(f.dataSize));
    case Submessage =>
      var i :| 0 <= i < |f.sub| && CanBeNonzero(f.sub[i]);
      var z := ZeroMsg(f.sub);
      ZeroMsgShape(f.sub);
      ShapesAt(f.sub, i, z);
      var inner := NonzeroContent(f.sub[i]);
      StoreShape(f.sub, i, 0, z, inner);
      v := Sub(z.WithItem(i, 0, inner));
      assert !ZeroValue(f.sub[i], v.m.Item(i, 0));
  }

  /** The row's part of the structure is the same. */
  predicate SameRow(fields: seq<Field>, a: Msg, b: Msg, j: nat)
    requires j < |fields|
  {
    a.At(j) == b.At(j) && a.Size(Leader(fields, j)) == b.Size(Leader(fields, j))
  }

  lemma {:induction false} SameRowSame(fields: seq<Field>, a: Msg, b: Msg, j: nat)
    requires j < |fields| && SameRow(fields, a, b, j)
    ensures ViewField(false, fields, a, j) == ViewField(false, fields, b, j)
    ensures SentField(fields, a, j) == SentField(fields, b, j)
    ensures EncField(fields, a, j) == EncField(fields, b, j)
    ensures OkField(false, fields, a, j) <==> OkField(false, fields, b, j)
  {
    hide ViewValue, SentValue, EncValue, OkValue, ZeroValue, EncArray, ViewItems, SentItems, InitValue;
    assert a.Item(j, 0) == b.Item(j, 0) && a.Size(j) == b.Size(j);
    assert SentCount(fields, a, j) == SentCount(fields, b, j);
    assert EncArray(fields[j], a.At(j), a.Size(j)) == EncArray(fields[j], b.At(j), b.Size(j));
  }

  lemma {:induction false} FreshValueArrives(f: Field)
    requires GoodField(f)
    ensures SentValue(f, InitValue(f)) == ViewValue(false, f, InitValue(f))
    decreases f, 0
  {
    if f.ltype.Submessage? {
      SubInit(f);
      FreshArrives(f.sub);
    }
  }

  lemma {:induction false} FreshFieldArrives(fields: seq<Field>, i: nat)
    requires GoodFields(fields) && i < |fields|
    ensures SentField(fields, InitMsg(fields), i) == ViewField(false, fields, InitMsg(fields), i)
    decreases fields, 0
  {
    hide ViewValue, SentValue, InitValue, InitMsg, ZeroValue;
    var f, b := fields[i], InitMsg(fields);
    InitAt(fields, i);
    InitShape(fields);
    ShapesAt(fields, i, b);
    InitPending(fields);
    if f.ltype.Extension? {
      ExtensionView(f, b.Item(i, 0));
    } else if f.htype.Repeated? {
      NoItems(f, b.At(i));
      NothingSent(f, b.At(i));
    } else {
      FreshValueArrives(f);
    }
  }

  /** A fresh structure comes back as it was. */
  lemma {:induction false} FreshArrives(fields: seq<Field>)
    requires GoodFields(fields)
    ensures SentMsg(fields, InitMsg(fields)) == ViewMsg(false, fields, InitMsg(fields))
    decreases fields, 1
  {
    hide ViewField, SentField, InitMsg, GoodFields;
    var a, b := SentMsg(fields, InitMsg(fields)), ViewMsg(false, fields, InitMsg(fields));
    forall i | 0 <= i < |fields|
      ensures a[i] == b[i]
    {
      FreshFieldArrives(fields, i);
    }
  }

  lemma {:induction false} FreshIsOk(fields: seq<Field>)
    requires GoodFields(fields)
    ensures Shape(fields, InitMsg(fields)) && OkMsg(false, fields, InitMsg(fields))
  {
    InitShape(fields);
    InitIsReady(fields);
    ReadyIsOk(fields, InitMsg(fields));
  }

  /** A structure that looks fresh and does not pass the zero test. */
  lemma {:induction false} BlankNonzero(fields: seq<Field>) returns (e: Msg)
    requires GoodFields(fields) && !BlankIsZero(fields)
    ensures Shape(fields, e) && OkMsg(false, fields, e) && !ZeroFields(fields, e)
    ensures ViewMsg(false, fields, e) == ViewMsg(false, fields, InitMsg(fields))
    decreases fields
  {
    hide InitMsg, ViewField, ViewValue, OkField, OkValue, ShapeValue, InitValue;
    var i :| 0 <= i < |fields| && !BlankIsZeroRow(fields[i]);
    var f, b := fields[i], InitMsg(fields);
    FreshIsOk(fields);
    InitAt(fields, i);
    ShapesAt(fields, i, b);
    assert b.slots[i].items[0] == b.Item(i, 0) && ShapeValue(f, b.Item(i, 0));
    var v := b.Item(i, 0);
    if Overlooked(f) {
      v := NonzeroContent(f);
      InvisibleContent(fields, i, v);
    } else if f.ltype.Submessage? {
      SubInit(f);
      var inner := BlankNonzero(f.sub);
      SubValue(f, inner);
      InitShape(f.sub);
      SubValue(f, InitMsg(f.sub));
      v := Sub(inner);
      VisibleContent(fields, i, v);
    } else {
      NonzeroDefault(f);
      VisibleContent(fields, i, v);
    }
    e := b.WithItem(i, 0, v);
    StoreShape(fields, i, 0, b, v);
    forall j | 0 <= j < |fields|
      ensures OkField(false, fields, e, j) && ViewField(false, fields, e, j) == ViewField(false, fields, b, j)
    {
      assert OkField(false, fields, b, j);
      if j != i {
        assert SameRow(fields, e, b, j);
        SameRowSame(fields, e, b, j);
      }
    }
    ViewsAgree(false, fields, e, b);
    assert e.Item(i, 0) == v;
  }

  lemma {:induction false} NonzeroDefault(f: Field)
    requires GoodField(f) && !f.ltype.Submessage? && !f.ltype.Extension? && !(CanBeZeroRow(f) && ZeroDefault(f))
    ensures !ZeroValue(f, InitValue(f)) && OkValue(false, f, InitValue(f))
  {
    if ZeroValue(f, InitValue(f)) {
      ZeroWasPossible(f, InitValue(f));
    }
    ZeroShape(f);
  }

  lemma {:induction false} SubValue(f: Field, m: Msg)
    requires f.ltype.Submessage? && Shape(f.sub, m)
    ensures ShapeValue(f, Sub(m)) && (ZeroValue(f, Sub(m)) <==> ZeroFields(f.sub, m))
    ensures OkMsg(false, f.sub, m) ==> OkValue(false, f, Sub(m))
    ensures ViewValue(false, f, Sub(m)) == MsgView(ViewMsg(false, f.sub, m))
    ensures SentValue(f, Sub(m)) == MsgView(SentMsg(f.sub, m))
    ensures EncValue(f, Sub(m)) == Framed(EncMsg(f.sub, m))
  {}

  /** Content of a field that is not marked as present does not show. */
  lemma {:induction false} InvisibleContent(fields: seq<Field>, i: nat, v: Value)
    requires GoodFields(fields) && i < |fields| && Overlooked(fields[i])
    ensures var e := InitMsg(fields).WithItem(i, 0, v);
            && OkField(false, fields, e, i)
            && ViewField(false, fields, e, i) == ViewField(false, fields, InitMsg(fields), i)
  {
    hide InitMsg, InitValue, ViewValue, OkValue;
    var b := InitMsg(fields);
    var e := b.WithItem(i, 0, v);
    InitAt(fields, i);
    InitShape(fields);
    ShapesAt(fields, i, b);
    InitPending(fields);
    assert e.Size(i) == b.Size(i) && e.Size(Leader(fields, i)) == b.Size(Leader(fields, i));
    if fields[i].htype.Repeated? {
      NoItems(fields[i], e.At(i));
      NoItems(fields[i], b.At(i));
    }
  }

  lemma {:induction false} VisibleContent(fields: seq<Field>, i: nat, v: Value)
    requires GoodFields(fields) && i < |fields| && !Overlooked(fields[i])
    requires OkValue(false, fields[i], v)
    requires ViewValue(false, fields[i], v) == ViewValue(false, fields[i], InitValue(fields[i]))
    ensures var e := InitMsg(fields).WithItem(i, 0, v);
            && OkField(false, fields, e, i)
            && ViewField(false, fields, e, i) == ViewField(false, fields, InitMsg(fields), i)
  {
    hide InitMsg, InitValue, ViewValue, OkValue, ZeroValue;
    InitAt(fields, i);
    InitShape(fields);
    ShapesAt(fields, i, InitMsg(fields));
  }

  // ---- Two structures that look the same and are encoded differently ----

  /** A fresh structure with one item placed in it as the decoder would. */
  function Placed(fields: seq<Field>, i: nat, v: Value): Msg {
    match Target(fields, i, InitMsg(fields))
    case None => InitMsg(fields)
    case Some(t) => t.m.WithItem(i, t.k, v)
  }

  lemma {:induction false} PlacedRow(fields: seq<Field>, i: nat, v: Value)
    requires GoodFields(fields) && i < |fields| && !fields[i].ltype.Extension? && ShapeValue(fields[i], v)
    ensures var m := Placed(fields, i, v);
            && Shape(fields, m) && m.Item(i, 0) == v
            && |m.slots[i].items| > 0 && m.slots[i].items[0] == v
            && SentCount(fields, m, i) == (if Drops(fields[i], v) then 0 else 1)
            && (fields[i].htype.Repeated? ==> m.slots[i].size == 1 <= fields[i].arraySize)
  {
    hide InitMsg, InitValue, ZeroValue, ShapeValue;
    var f, b := fields[i], InitMsg(fields);
    InitAt(fields, i);
    InitShape(fields);
    ShapesAt(fields, i, b);
    RepeatedHasRoom(f);
    TargetShape(fields, i, b);
    var t := Target(fields, i, b).value;
    StoreShape(fields, i, t.k, t.m, v);
  }

  /** Placing an item leaves the rows outside its union alone and makes those inside it inactive. */
  lemma {:induction false} UnplacedRow(fields: seq<Field>, i: nat, j: nat, v: Value)
    requires GoodFields(fields) && i < |fields| && j < |fields| && i != j && !fields[i].ltype.Extension?
    ensures var m := Placed(fields, i, v);
            if SameUnion(fields, i, j) then !Active(fields, m, j) else SameRow(fields, m, InitMsg(fields), j)
  {
    hide InitMsg, InitValue;
    InitAt(fields, i);
    InitShape(fields);
    ShapesAt(fields, i, InitMsg(fields));
    hide GoodField, ShapeSlot;
    assert fields[i].tag != fields[j].tag;
  }

  /** The other rows are as in a fresh structure: what they send is what they show. */
  lemma {:induction false} PlacedElsewhere(fields: seq<Field>, i: nat, j: nat, v: Value)
    requires GoodFields(fields) && i < |fields| && j < |fields| && i != j && !fields[i].ltype.Extension?
    ensures var m := Placed(fields, i, v);
            OkField(false, fields, m, j) && SentField(fields, m, j) == ViewField(false, fields, m, j)
  {
    UnplacedRow(fields, i, j, v);
    ShapesAt(fields, j, InitMsg(fields)) by { InitShape(fields); }
    hide Placed, InitMsg, InitValue, ViewValue, SentValue, ZeroValue, OkValue;
    var b, m := InitMsg(fields), Placed(fields, i, v);
    if SameUnion(fields, i, j) {
      InactiveRow(fields, m, j);
    } else {
      FreshIsOk(fields);
      assert OkField(false, fields, b, j);
      FreshFieldArrives(fields, j);
      SameRowSame(fields, m, b, j);
    }
  }

  lemma {:induction false} InactiveRow(fields: seq<Field>, m: Msg, j: nat)
    requires j < |fields| && GoodField(fields[j]) && fields[j].htype.Oneof? && !Active(fields, m, j)
    ensures OkField(false, fields, m, j) && SentField(fields, m, j) == Absent == ViewField(false, fields, m, j)
  {}

  lemma {:induction false} PlacedAlike(fields: seq<Field>, i: nat, j: nat, x: Value, y: Value)
    requires GoodFields(fields) && i < |fields| && j < |fields| && i != j && !fields[i].ltype.Extension?
    ensures SameRow(fields, Placed(fields, i, x), Placed(fields, i, y), j)
  {
    hide InitMsg, InitValue;
  }

  lemma {:induction false} LongerField(fields: seq<Field>, m: Msg, d: Msg, i: nat, k: nat)
    requires k <= i < |fields| && |EncField(fields, m, i)| < |EncField(fields, d, i)|
    requires forall j :: 0 <= j < |fields| && j != i ==> EncField(fields, d, j) == EncField(fields, m, j)
    ensures |EncFrom(fields, m, k)| < |EncFrom(fields, d, k)|
    decreases i - k
  {
    hide EncField;
    if k < i {
      LongerField(fields, m, d, i, k + 1);
    } else {
      SameFields(fields, m, d, i + 1);
    }
  }

  /** Placing a dropped item and one that looks like the default, or two items that look the same and
      are encoded to different lengths. */
  lemma {:induction false} UnstableItems(fields: seq<Field>, i: nat, x: Value, y: Value)
    requires GoodFields(fields) && i < |fields| && !fields[i].ltype.Extension?
    requires fields[i].htype.Repeated? ==> fields[i].ltype.Submessage?
    requires ShapeValue(fields[i], x) && ShapeValue(fields[i], y)
    requires OkValue(false, fields[i], y) && !Drops(fields[i], y)
    requires if Drops(fields[i], x) then
               ViewValue(false, fields[i], y) == ViewValue(false, fields[i], InitValue(fields[i]))
             else OkValue(false, fields[i], x) && ViewValue(false, fields[i], y) == SentValue(fields[i], x)
                  && |EncValue(fields[i], x)| < |EncValue(fields[i], y)|
    ensures var m, d := Placed(fields, i, x), Placed(fields, i, y);
            && Shape(fields, m) && Shape(fields, d) && OkMsg(false, fields, m) && OkMsg(false, fields, d)
            && ViewMsg(false, fields, d) == SentMsg(fields, m) && |EncMsg(fields, m)| < |EncMsg(fields, d)|
  {
    hide Placed, InitValue, ViewValue, SentValue, EncValue, OkValue, ZeroValue, ShapeValue;
    var f, m, d := fields[i], Placed(fields, i, x), Placed(fields, i, y);
    PlacedRow(fields, i, x);
    PlacedRow(fields, i, y);
    ItemRow(fields, m, i);
    ItemRow(fields, d, i);
    forall j | 0 <= j < |fields|
      ensures OkField(false, fields, m, j) && OkField(false, fields, d, j)
      ensures ViewField(false, fields, d, j) == SentField(fields, m, j)
      ensures j != i ==> EncField(fields, d, j) == EncField(fields, m, j)
    {
      if j != i {
        PlacedElsewhere(fields, i, j, x);
        PlacedElsewhere(fields, i, j, y);
        PlacedAlike(fields, i, j, x, y);
        SameRowSame(fields, m, d, j);
      }
    }
    hide ViewField, SentField, EncField, OkField;
    LongerField(fields, m, d, i, 0);
    forall j | 0 <= j < |fields|
      ensures ViewMsg(false, fields, d)[j] == SentMsg(fields, m)[j]
    {
      ViewAt(false, fields, d, j);
      SentAt(fields, m, j);
    }
  }

  /** What a row with its first item only shows, sends and emits. */
  lemma {:induction false} ItemRow(fields: seq<Field>, m: Msg, i: nat)
    requires Shape(fields, m) && i < |fields| && !fields[i].ltype.Extension? && |m.slots[i].items| > 0
    requires fields[i].htype.Repeated? ==>
               fields[i].ltype.Submessage? && m.slots[i].size == 1 <= fields[i].arraySize
    requires SentCount(fields, m, i) == if Drops(fields[i], m.Item(i, 0)) then 0 else 1
    ensures var f, v := fields[i], m.Item(i, 0);
            var one: ValueView -> FieldView := x => if f.htype.Repeated? then Many([x]) else One(x);
            && (Drops(f, v) || OkValue(false, f, v) ==> OkField(false, fields, m, i))
            && ViewField(false, fields, m, i) == one(ViewValue(false, f, v))
            && SentField(fields, m, i)
               == (if Drops(f, v) then One(ViewValue(false, f, InitValue(f))) else one(SentValue(f, v)))
            && EncField(fields, m, i) == (if Drops(f, v) then [] else EncRecord(f, v))
  {
    hide InitValue, ViewValue, SentValue, EncRecord, OkValue, ZeroValue, ShapeValue;
    var f, s := fields[i], m.slots[i];
    assert s.items[0] == m.Item(i, 0);
    if f.htype.Repeated? {
      assert ViewItems(false, f, s) == [ViewValue(false, f, s.items[0])];
      assert SentItems(f, s, 1) == [SentValue(f, s.items[0])];
      assert EncRecords(f, s, 1) == EncRecord(f, s.items[0]);
    }
  }

  lemma {:induction false} LongerFrame(a: seq<byte>, b: seq<byte>)
    requires |a| < |b|
    ensures |Framed(a)| < |Framed(b)|
  {
    FewerBytes(|a|, |b|);
  }

  /** A descriptor that is not stable has two messages, the second showing what the first one sends,
      that are encoded to different lengths. */
  lemma {:induction false} UnstableMessages(fields: seq<Field>) returns (m: Msg, d: Msg)
    requires GoodFields(fields) && !Stable(fields)
    ensures Shape(fields, m) && Shape(fields, d) && OkMsg(false, fields, m) && OkMsg(false, fields, d)
    ensures ViewMsg(false, fields, d) == SentMsg(fields, m) && |EncMsg(fields, m)| < |EncMsg(fields, d)|
    decreases fields
  {
    hide Placed, InitValue, InitMsg, ViewValue, SentValue, EncValue, OkValue, ZeroValue, ShapeValue;
    hide ZeroOf, ZeroMsg, Framed;
    var i :| 0 <= i < |fields| && !StableRow(fields[i]);
    var f := fields[i];
    assert GoodField(f);
    var x, y;
    if !f.ltype.Submessage? {
      ZeroShape(f);
      ZeroIsZero(f);
      NonzeroDefault(f);
      FreshShape(f);
      x, y := ZeroOf(f), InitValue(f);
    } else if HasLess(f) && CanBeZeroRow(f) {
      if BlankIsZero(f.sub) {
        BlankIsStable(f.sub);
      }
      var e := BlankNonzero(f.sub);
      ZeroShape(f);
      ZeroIsZero(f);
      SubInit(f);
      SubValue(f, e);
      InitShape(f.sub);
      SubValue(f, InitMsg(f.sub));
      x, y := ZeroOf(f), Sub(e);
    } else {
      var m', d' := UnstableMessages(f.sub);
      SubValue(f, m');
      SubValue(f, d');
      LongerFrame(EncMsg(f.sub, m'), EncMsg(f.sub, d'));
      x, y := Sub(m'), Sub(d');
      if Drops(f, x) {
        ZeroWasPossible(f, x);
      }
      if Drops(f, y) {
        ZeroWasPossible(f, y);
      }
    }
    UnstableItems(fields, i, x, y);
    m, d := Placed(fields, i, x), Placed(fields, i, y);
  }

  lemma {:induction false} FreshShape(f: Field)
    requires GoodField(f)
    ensures ShapeValue(f, InitValue(f))
  {
    ZeroShape(f);
    DefaultValueShape(f, ZeroOf(f));
  }

  /** Whatever shows what was sent is encoded to the bytes it was received in, for every message,
      exactly when the descriptor is stable. */
  lemma {:induction false} StableDescriptors(fields: seq<Field>)
    requires GoodFields(fields)
    ensures Stable(fields) <==>
              forall m, d ::
                && Shape(fields, m) && Shape(fields, d) && OkMsg(false, fields, m) && OkMsg(false, fields, d)
                && ViewMsg(false, fields, d) == SentMsg(fields, m)
                ==> EncMsg(fields, d) == EncMsg(fields, m)
  {
    hide Stable, Shape, OkMsg, ViewMsg, SentMsg, EncMsg, GoodFields;
    if Stable(fields) {
      forall m, d |
        && Shape(fields, m) && Shape(fields, d) && OkMsg(false, fields, m) && OkMsg(false, fields, d)
        && ViewMsg(false, fields, d) == SentMsg(fields, m)
        ensures EncMsg(fields, d) == EncMsg(fields, m)
      {
        MsgResent(fields, m, d);
      }
    } else {
      var m, d := UnstableMessages(fields);
    }
  }
}
