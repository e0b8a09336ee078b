/** Decoding what was encoded gives the message back, and exactly when it does not. */
module RoundTrip {
  import opened Words
  import opened Varint
  import opened Numbers
  import opened Descriptor
  import opened FieldIterator
  import opened Encoding
  import opened Decoding
  import opened Views
  import opened Initialisation

  // ---- What arrives ----

  /** What a reader sees of a value that was sent. */
  function SentValue(f: Field, v: Value): ValueView
    decreases f, 0
  {
    if f.ltype.Submessage? then MsgView(SentMsg(f.sub, MsgOf(v))) else ViewValue(false, f, v)
  }

  function SentItems(f: Field, s: Slot, n: nat): seq<ValueView>
    decreases f, 1, n
  {
    if n == 0 || |s.items| < n then [] else SentItems(f, s, n - 1) + [SentValue(f, s.items[n - 1])]
  }

  /** A has-less field whose value passes the zero test is not sent, so the reader sees its
      default; everything else arrives. */
  function SentField(fields: seq<Field>, m: Msg, i: nat): FieldView
    requires i < |fields|
    decreases fields, 0
  {
    var f := fields[i];
    if f.ltype.Extension? then One(NoView)
    else
      match f.htype
      case Required => One(SentValue(f, m.Item(i, 0)))
      case Optional =>
        if Present(f, m.At(i)) then One(SentValue(f, m.Item(i, 0)))
        else if HasFlag(f) then Absent
        else One(ViewValue(false, f, InitValue(f)))
      case Repeated => Many(SentItems(f, m.At(i), m.Size(i)))
      case Oneof => if Active(fields, m, i) then One(SentValue(f, m.Item(i, 0))) else Absent
  }

  function SentMsg(fields: seq<Field>, m: Msg): (fs: seq<FieldView>)
    ensures |fs| == |fields|
    decreases fields, 1
  {
    seq(|fields|, i requires 0 <= i < |fields| => SentField(fields, m, i))
  }

  // ---- One record ----

  lemma {:induction false} KeyRoundTrip(tag: nat, wireType: nat, t: seq<byte>)
    requires 0 < tag < 0x2000_0000 && wireType < 8
    ensures ReadKey(KeyBytes(tag, wireType) + t) == Key(tag, wireType, t)
  {
    Varint32RoundTrip(tag * 8 + wireType, t);
  }

  /** The loop's turn on one encoded record of a known field. */
  lemma {:induction false} OneRecord(fields: seq<Field>, i: nat, wireType: nat, payload: seq<byte>,
                                     t: seq<byte>, m: Msg, m': Msg, seen: set<nat>)
    requires GoodFields(fields) && i < |fields| && !fields[i].ltype.Extension? && wireType < 8
    requires DecField(fields, i, wireType, payload + t, m) == Got(m', t)
    ensures DecLoop(fields, (KeyBytes(fields[i].tag, wireType) + payload) + t, m, seen)
            == DecLoop(fields, t, m', if fields[i].htype.Required? then seen + {i} else seen)
  {
    hide DecField, KeyBytes, ReadKey;
    var f := fields[i];
    assert GoodField(f);
    var bs := (KeyBytes(f.tag, wireType) + payload) + t;
    assert bs == KeyBytes(f.tag, wireType) + (payload + t);
    KeyRoundTrip(f.tag, wireType, payload + t);
    FindUnique(fields, f.tag, i);
    assert DecRecord(fields, f.tag, wireType, payload + t, m) == Got(m', t);
    assert |bs| > 0 by { assert ReadKey(bs).Key?; assert |ReadKey(bs).rest| < |bs|; }
  }

  /** A record whose payload is rejected stops the run. */
  lemma {:induction false} RejectedRecord(fields: seq<Field>, i: nat, wireType: nat, payload: seq<byte>,
                                          t: seq<byte>, m: Msg, seen: set<nat>)
    requires GoodFields(fields) && i < |fields| && !fields[i].ltype.Extension? && wireType < 8
    requires DecField(fields, i, wireType, payload + t, m) == Fail
    ensures DecLoop(fields, (KeyBytes(fields[i].tag, wireType) + payload) + t, m, seen) == Stuck
  {
    hide DecField, KeyBytes, ReadKey;
    var f := fields[i];
    assert GoodField(f);
    var bs := (KeyBytes(f.tag, wireType) + payload) + t;
    assert bs == KeyBytes(f.tag, wireType) + (payload + t);
    KeyRoundTrip(f.tag, wireType, payload + t);
    FindUnique(fields, f.tag, i);
    assert DecRecord(fields, f.tag, wireType, payload + t, m) == Fail;
    assert |bs| > 0 by { assert ReadKey(bs).Key?; assert |ReadKey(bs).rest| < |bs|; }
  }

  /** Equality of encoded text over a buffer, and of blobs. */
  lemma {:induction false} BufferRestored(f: Field, v: Value, v0: Value)
    requires GoodField(f) && ShapeValue(f, v) && ShapeValue(f, v0) && OkValue(true, f, v)
    requires f.ltype.Bytes? || f.ltype.String?
    ensures f.ltype.Bytes? ==>
              var body := BlobBytes(v.size, v.buf);
              |body| == v.size && |body| + BYTES_OFFSET <= f.dataSize
              && BlobBytes(|body|, Over(body, v0.buf)) == body
    ensures f.ltype.String? ==>
              var body := TextBytes(v.buf);
              |body| + 1 <= f.dataSize && TextBytes(Over(body + [0], v0.buf)) == body
  {
    if f.ltype.Bytes? {
      OverView(f, BlobBytes(v.size, v.buf), v0.buf);
    } else {
      TextRestored(v.buf, v0.buf[|TextBytes(v.buf)| + 1..]);
    }
  }

  /** A value survives the trip; `v0` is what the reader's item held. A submessage is read over an
      initialised structure. */
  lemma {:induction false} ValueRoundTrip(f: Field, v: Value, v0: Value, t: seq<byte>)
    requires GoodField(f) && !f.ltype.Extension?
    requires ShapeValue(f, v) && ShapeValue(f, v0) && OkValue(true, f, v)
    requires f.ltype.Submessage? ==> (if f.htype.Repeated? then Defaults(f.sub, v0.m) else v0.m) == InitMsg(f.sub)
    ensures var r := DecValue(f, EncValue(f, v) + t, v0);
            r.Got? && r.rest == t && ViewValue(false, f, r.value) == SentValue(f, v)
    decreases f, 0
  {
    hide DecMsg, ReadFrame, Framed, EncMsg, ViewMsg, SentMsg, OkMsg, Defaults, GoodFields, Shape, ReadNum, NumBytes;
    match f.ltype
    case Number(ty) =>
      NumRoundTrip(ty, f.dataSize, v.n, t);
    case Bytes =>
      FrameRoundTrip(BlobBytes(v.size, v.buf), t);
      BufferRestored(f, v, v0);
    case String =>
      FrameRoundTrip(TextBytes(v.buf), t);
      BufferRestored(f, v, v0);
    case FixedLengthBytes =>
      FrameRoundTrip(v.buf, t);
      if f.dataSize == 0 { assert v.buf == Zeros(0); }
    case Submessage =>
      FrameRoundTrip(EncMsg(f.sub, v.m), t);
      MsgRoundTrip(f.sub, v.m);
  }

  // ---- One field ----

  /** The reader's structure before field `i` arrives: the remaining fields are as initialised. */
  ghost predicate Pending(fields: seq<Field>, acc: Msg, i: nat) {
    && Shape(fields, acc)
    && forall j :: i <= j < |fields| ==>
         && acc.slots[j].items == InitMsg(fields).slots[j].items
         && (!fields[j].htype.Oneof? ==> acc.slots[j].size == InitMsg(fields).slots[j].size)
         && (fields[j].htype.Oneof? ==> !Active(fields, acc, j))
  }

  /** ... and the fields before `i` look as sent. */
  ghost predicate Arrived(fields: seq<Field>, m: Msg, acc: Msg, i: nat) {
    forall j :: 0 <= j < i && j < |fields| ==> ViewField(false, fields, acc, j) == SentField(fields, m, j)
  }

  lemma {:induction false} InitAt(fields: seq<Field>, j: nat)
    requires GoodFields(fields) && j < |fields|
    ensures var s := InitMsg(fields).slots[j];
            && (fields[j].htype.Required? || fields[j].htype.Optional? ==> s.items == [InitValue(fields[j])])
            && (fields[j].htype.Repeated? ==> s.size == 0 && |s.items| == fields[j].arraySize
                                              && forall k :: 0 <= k < |s.items| ==> s.items[k] == ZeroOf(fields[j]))
            && (fields[j].htype.Oneof? ==> s.items == [ZeroOf(fields[j])])
            && (fields[j].htype.Optional? && HasFlag(fields[j]) ==> s.size == 0)
  {
    var z := ZeroMsg(fields).slots[j];
    assert z == ZeroSlot(fields[j]);
    assert InitMsg(fields).slots[j] == DefaultSlot(fields[j], Continues(fields, j), z);
    assert |z.items| == 1 ==> z.items == [ZeroOf(fields[j])];
  }

  /** Initialised submessages, wherever the decoder finds one for a pending field. */
  lemma {:induction false} FreshPlace(fields: seq<Field>, acc: Msg, i: nat)
    requires GoodFields(fields) && Pending(fields, acc, i) && i < |fields| && !fields[i].ltype.Extension?
    requires fields[i].htype.Repeated? ==> acc.slots[i].size == 0
    ensures Target(fields, i, acc).Some?
    ensures ShapeValue(fields[i], Target(fields, i, acc).value.v)
    ensures fields[i].ltype.Submessage? ==>
              var v0 := Target(fields, i, acc).value.v;
              (if fields[i].htype.Repeated? then Defaults(fields[i].sub, v0.m) else v0.m) == InitMsg(fields[i].sub)
  {
    hide Defaults, ViewMsg;
    InitAt(fields, i);
    ShapesAt(fields, i, acc);
    TargetShape(fields, i, acc);
  }

  /** A non-repeated field that is sent arrives; the others keep their state. */
  lemma {:induction false} SingleArrives(fields: seq<Field>, m: Msg, acc: Msg, i: nat, t: seq<byte>, seen: set<nat>)
    returns (acc': Msg)
    requires GoodFields(fields) && Shape(fields, m) && OkMsg(true, fields, m)
    requires i < |fields| && !fields[i].ltype.Extension? && !fields[i].htype.Repeated? && SentCount(fields, m, i) == 1
    requires Pending(fields, acc, i) && Arrived(fields, m, acc, i)
    ensures Pending(fields, acc', i + 1) && Arrived(fields, m, acc', i + 1)
    ensures DecLoop(fields, EncField(fields, m, i) + t, acc, seen)
            == DecLoop(fields, t, acc', if fields[i].htype.Required? then seen + {i} else seen)
    decreases fields, 0
  {
    hide DecLoop, DecValue, EncValue, Target, ViewField, ViewValue, SentValue, OkValue, ShapeValue;
    hide InitMsg, KeyBytes, GoodFields;
    var f, v := fields[i], m.Item(i, 0);
    ShapesAt(fields, i, m);
    ShapesAt(fields, i, acc);
    assert OkField(true, fields, m, i);
    assert m.slots[i].items[0] == v && OkValue(true, f, v);
    FreshPlace(fields, acc, i);
    var p := Target(fields, i, acc).value;
    assert ShapeValue(f, v);
    ValueRoundTrip(f, v, p.v, t);
    var r := DecValue(f, EncValue(f, v) + t, p.v);
    acc' := p.m.WithItem(i, p.k, r.value);
    assert DecField(fields, i, WireType(f.ltype), EncValue(f, v) + t, acc) == Got(acc', t);
    assert EncField(fields, m, i) == KeyBytes(f.tag, WireType(f.ltype)) + EncValue(f, v) by {
      assert EncField(fields, m, i) == EncRecord(f, v);
    }
    OneRecord(fields, i, WireType(f.ltype), EncValue(f, v), t, acc, acc', seen);
    StoredArrives(fields, m, acc, i, r.value);
    DecFieldShape(fields, i, WireType(f.ltype), EncValue(f, v) + t, acc);
    StoredPending(fields, acc, i, r.value);
  }

  lemma {:induction false} StoredPending(fields: seq<Field>, acc: Msg, i: nat, v: Value)
    requires GoodFields(fields) && Pending(fields, acc, i) && i < |fields| && Target(fields, i, acc).Some?
    requires var t := Target(fields, i, acc).value; Shape(fields, t.m.WithItem(i, t.k, v))
    ensures var t := Target(fields, i, acc).value; Pending(fields, t.m.WithItem(i, t.k, v), i + 1)
  {
    hide InitMsg, InitValue, ShapeSlot, GoodField;
    var t := Target(fields, i, acc).value;
    var acc' := t.m.WithItem(i, t.k, v);
    forall j | i + 1 <= j < |fields|
      ensures acc'.slots[j].items == acc.slots[j].items
      ensures !fields[j].htype.Oneof? ==> acc'.slots[j].size == acc.slots[j].size
      ensures fields[j].htype.Oneof? ==> !Active(fields, acc', j)
    {
      assert fields[i].tag != fields[j].tag;
      assert !Active(fields, acc, j) || !fields[j].htype.Oneof?;
      assert fields[LeaderAt(fields, i)].htype == fields[i].htype;
    }
  }

  /** Storing the sent value makes the field look as sent; a union's other members are inactive on
      both sides. */
  lemma {:induction false} StoredArrives(fields: seq<Field>, m: Msg, acc: Msg, i: nat, v: Value)
    requires GoodFields(fields) && Shape(fields, acc)
    requires i < |fields| && !fields[i].ltype.Extension? && !fields[i].htype.Repeated? && SentCount(fields, m, i) == 1
    requires Arrived(fields, m, acc, i) && Target(fields, i, acc).Some?
    requires ViewValue(false, fields[i], v) == SentValue(fields[i], m.Item(i, 0))
    ensures var t := Target(fields, i, acc).value; Arrived(fields, m, t.m.WithItem(i, t.k, v), i + 1)
  {
    hide Target, ViewField, ViewValue, SentValue, InitValue, GoodField, ShapeSlot, InitMsg;
    var t := Target(fields, i, acc).value;
    var acc' := t.m.WithItem(i, t.k, v);
    forall j | 0 <= j < i + 1
      ensures ViewField(false, fields, acc', j) == SentField(fields, m, j)
    {
      if j == i {
        FieldAfterStore(false, fields, i, acc, v);
      } else {
        OthersAfterStore(false, fields, i, j, acc, v);
        if SameUnion(fields, i, j) {
          assert fields[i].tag != fields[j].tag;
          assert Active(fields, m, i) && !Active(fields, m, j);
          assert GoodField(fields[j]);
          assert !fields[j].ltype.Extension? by { UnionMember(fields[j]); }
        }
      }
    }
  }

  lemma {:induction false} UnionMember(f: Field)
    requires GoodField(f) && f.htype.Oneof?
    ensures !f.ltype.Extension?
  {}

  /** A field that is not sent is left as initialised, which is what its sent view says. */
  lemma {:induction false} UnsentArrives(fields: seq<Field>, m: Msg, acc: Msg, i: nat)
    requires GoodFields(fields) && Shape(fields, m)
    requires i < |fields| && SentCount(fields, m, i) == 0
    requires Pending(fields, acc, i) && Arrived(fields, m, acc, i)
    ensures EncField(fields, m, i) == []
    ensures Pending(fields, acc, i + 1) && Arrived(fields, m, acc, i + 1)
  {
    hide ViewValue, InitMsg, SentValue, EncRecord;
    InitAt(fields, i);
    ShapesAt(fields, i, m);
    ShapesAt(fields, i, acc);
    if fields[i].htype.Repeated? {
      assert ViewItems(false, fields[i], acc.At(i)) == [];
    }
    if fields[i].ltype.Extension? {
      assert ViewValue(false, fields[i], acc.Item(i, 0)) == NoView by { ExtensionView(fields[i], acc.Item(i, 0)); }
    }
    assert ViewField(false, fields, acc, i) == SentField(fields, m, i);
  }

  lemma {:induction false} ExtensionView(f: Field, v: Value)
    requires f.ltype.Extension?
    ensures ViewValue(false, f, v) == NoView
  {}

  // ---- Arrays ----

  /** A first part of a packed body, decoded to its end, does not depend on what follows. */
  lemma {:induction false} PackedConcat(f: Field, a: seq<byte>, b: seq<byte>, s: Slot)
    requires f.ltype.Number? && DecPacked(f, a, s).Some?
    ensures DecPacked(f, a + b, s) == DecPacked(f, b, DecPacked(f, a, s).value)
    decreases |a|
  {
    hide ReadNum;
    if a == [] {
      assert a + b == b;
    } else {
      ReadNumExtends(f.ltype.ty, f.dataSize, a, b);
      var Got(n, rest) := ReadNum(f.ltype.ty, f.dataSize, a);
      PackedConcat(f, rest, b, Slot(s.size + 1, s.items[s.size := Num(n)]));
    }
  }

  lemma {:induction false} PackedArrives(f: Field, s: Slot, n: nat, s0: Slot) returns (s1: Slot)
    requires GoodField(f) && f.ltype.Number? && f.htype.Repeated?
    requires ShapeSlot(f, s) && n <= |s.items| && s0.size == 0 && |s0.items| == f.arraySize
    ensures DecPacked(f, EncPacked(f, s, n), s0) == Some(s1)
    ensures s1.size == n && |s1.items| == f.arraySize
    ensures ViewItems(false, f, s1) == SentItems(f, s, n)
  {
    hide ReadNum, NumBytes, InRange;
    if n == 0 {
      s1 := s0;
      assert ViewItems(false, f, s1) == [];
    } else {
      var s2 := PackedArrives(f, s, n - 1, s0);
      var v := s.items[n - 1];
      assert ShapeValue(f, v);
      var a, b := EncPacked(f, s, n - 1), NumBytes(f.ltype.ty, v.n);
      assert EncPacked(f, s, n) == a + b;
      PackedConcat(f, a, b, s0);
      NumRoundTrip(f.ltype.ty, f.dataSize, v.n, []);
      assert b + [] == b;
      s1 := Slot(n, s2.items[n - 1 := Num(v.n)]);
      assert DecPacked(f, b, s2) == DecPacked(f, [], s1) == Some(s1);
      StoreEntry(false, f, s2, Num(v.n));
    }
  }

  /** A packed field arrives as one record. */
  lemma {:induction false} PackedFieldArrives(fields: seq<Field>, m: Msg, acc: Msg, i: nat, t: seq<byte>,
                                              seen: set<nat>)
    returns (acc': Msg)
    requires GoodFields(fields) && Shape(fields, m) && OkMsg(true, fields, m)
    requires i < |fields| && fields[i].htype.Repeated? && Packable(fields[i]) && SentCount(fields, m, i) > 0
    requires Pending(fields, acc, i) && Arrived(fields, m, acc, i)
    ensures Pending(fields, acc', i + 1) && Arrived(fields, m, acc', i + 1)
    ensures DecLoop(fields, EncField(fields, m, i) + t, acc, seen) == DecLoop(fields, t, acc', seen)
  {
    hide DecLoop, ViewField, ViewValue, SentValue, InitMsg, KeyBytes, GoodFields, EncPacked, DecPacked;
    hide ReadFrame, Framed;
    var f, s := fields[i], m.slots[i];
    ShapesAt(fields, i, m);
    ShapesAt(fields, i, acc);
    assert OkField(true, fields, m, i);
    InitAt(fields, i);
    var n := s.size;
    var s1 := PackedArrives(f, s, n, acc.slots[i]);
    var body := EncPacked(f, s, n);
    FrameRoundTrip(body, t);
    acc' := PutSlot(acc, i, s1);
    assert DecField(fields, i, WT_STRING, Framed(body) + t, acc) == Got(acc', t);
    assert EncField(fields, m, i) == KeyBytes(f.tag, WT_STRING) + Framed(body) by {
      assert EncField(fields, m, i) == EncArray(f, s, n);
    }
    OneRecord(fields, i, WT_STRING, Framed(body), t, acc, acc', seen);
    DecFieldShape(fields, i, WT_STRING, Framed(body) + t, acc);
    ArrayArrives(fields, m, acc, i, s1);
  }

  /** Putting the sent entries in place completes a repeated field. */
  lemma {:induction false} ArrayArrives(fields: seq<Field>, m: Msg, acc: Msg, i: nat, s: Slot)
    requires GoodFields(fields) && Shape(fields, m) && Shape(fields, PutSlot(acc, i, s))
    requires i < |fields| && fields[i].htype.Repeated? && !fields[i].ltype.Extension?
    requires ViewItems(false, fields[i], s) == SentItems(fields[i], m.slots[i], m.slots[i].size)
    requires Pending(fields, acc, i) && Arrived(fields, m, acc, i)
    ensures Pending(fields, PutSlot(acc, i, s), i + 1) && Arrived(fields, m, PutSlot(acc, i, s), i + 1)
  {
    hide ViewItems, ViewValue, SentItems, SentValue, InitMsg, GoodFields;
    ShapesAt(fields, i, acc);
    var acc' := PutSlot(acc, i, s);
    forall j | i + 1 <= j < |fields|
      ensures acc'.slots[j] == acc.slots[j]
      ensures fields[j].htype.Oneof? ==> !Active(fields, acc', j)
    {}
    assert ViewField(false, fields, acc', i) == SentField(fields, m, i);
    hide ViewField, SentField;
    forall j | 0 <= j < i + 1
      ensures ViewField(false, fields, acc', j) == SentField(fields, m, j)
    {
      if j != i {
        OthersAfterPut(false, fields, i, j, acc, s);
      }
    }
  }

  /** Separate records arrive one by one. */
  lemma {:induction false} RecordsArrive(fields: seq<Field>, m: Msg, acc: Msg, i: nat, n: nat, t: seq<byte>,
                                         seen: set<nat>)
    returns (s1: Slot)
    requires GoodFields(fields) && Shape(fields, m) && OkMsg(true, fields, m)
    requires i < |fields| && fields[i].htype.Repeated? && !Packable(fields[i]) && !fields[i].ltype.Extension?
    requires n <= m.slots[i].size <= fields[i].arraySize && Pending(fields, acc, i)
    ensures Shape(fields, PutSlot(acc, i, s1)) && s1.size == n && |s1.items| == fields[i].arraySize
    ensures forall k :: n <= k < |s1.items| ==> s1.items[k] == ZeroOf(fields[i])
    ensures ViewItems(false, fields[i], s1) == SentItems(fields[i], m.slots[i], n)
    ensures DecLoop(fields, EncRecords(fields[i], m.slots[i], n) + t, acc, seen)
            == DecLoop(fields, t, PutSlot(acc, i, s1), seen)
    decreases fields, 0, n
  {
    hide DecLoop, DecValue, EncValue, ViewField, ViewValue, SentValue, OkValue, ShapeValue, InitMsg;
    hide KeyBytes, GoodFields, ZeroOf, ViewItems;
    var f, s := fields[i], m.slots[i];
    ShapesAt(fields, i, m);
    ShapesAt(fields, i, acc);
    InitAt(fields, i);
    if n == 0 {
      s1 := acc.slots[i];
      assert PutSlot(acc, i, s1) == acc by { assert acc.slots[i := s1] == acc.slots; }
      assert EncRecords(f, s, 0) + t == t;
      assert ViewItems(false, f, s1) == [] by { NoItems(f, s1); }
    } else {
      var v := s.items[n - 1];
      var rec := EncRecord(f, v);
      var s2 := RecordsArrive(fields, m, acc, i, n - 1, rec + t, seen);
      assert EncRecords(f, s, n) + t == EncRecords(f, s, n - 1) + (rec + t);
      s1 := NextArrives(fields, m, PutSlot(acc, i, s2), i, n - 1, t, seen);
      assert PutSlot(PutSlot(acc, i, s2), i, s1) == PutSlot(acc, i, s1) by {
        assert acc.slots[i := s2][i := s1] == acc.slots[i := s1];
      }
    }
  }

  lemma {:induction false} NoItems(f: Field, s: Slot)
    requires s.size == 0
    ensures ViewItems(false, f, s) == []
  {}

  lemma {:induction false} NextArrives(fields: seq<Field>, m: Msg, acc: Msg, i: nat, k: nat, t: seq<byte>,
                                       seen: set<nat>)
    returns (s1: Slot)
    requires GoodFields(fields) && Shape(fields, m) && OkMsg(true, fields, m) && Shape(fields, acc)
    requires i < |fields| && fields[i].htype.Repeated? && !Packable(fields[i]) && !fields[i].ltype.Extension?
    requires k < m.slots[i].size <= fields[i].arraySize && acc.slots[i].size == k
    requires forall l :: k <= l < |acc.slots[i].items| ==> acc.slots[i].items[l] == ZeroOf(fields[i])
    requires ViewItems(false, fields[i], acc.slots[i]) == SentItems(fields[i], m.slots[i], k)
    ensures Shape(fields, PutSlot(acc, i, s1)) && s1.size == k + 1 && |s1.items| == fields[i].arraySize
    ensures forall l :: k + 1 <= l < |s1.items| ==> s1.items[l] == ZeroOf(fields[i])
    ensures ViewItems(false, fields[i], s1) == SentItems(fields[i], m.slots[i], k + 1)
    ensures DecLoop(fields, EncRecord(fields[i], m.slots[i].items[k]) + t, acc, seen)
            == DecLoop(fields, t, PutSlot(acc, i, s1), seen)
    decreases fields, 0, 0
  {
    hide DecLoop, DecValue, EncValue, ViewField, ViewValue, SentValue, OkValue, ShapeValue, InitMsg;
    hide KeyBytes, GoodFields, ZeroOf, ViewItems, Defaults;
    var f, s := fields[i], m.slots[i];
    ShapesAt(fields, i, m);
    ShapesAt(fields, i, acc);
    assert OkField(true, fields, m, i);
    var v, v0 := s.items[k], ZeroOf(f);
    assert OkValue(true, f, v) && ShapeValue(f, v);
    ZeroShape(f);
    ZeroIsInit(f);
    ValueRoundTrip(f, v, v0, t);
    var payload := EncValue(f, v);
    var r := DecValue(f, payload + t, v0).value;
    assert Target(fields, i, acc) == Some(Place(acc.WithSize(i, k + 1), k, v0));
    var acc' := acc.WithSize(i, k + 1).WithItem(i, k, r);
    s1 := Slot(k + 1, acc.slots[i].items[k := r]);
    assert acc' == PutSlot(acc, i, s1) by {
      assert acc.slots[i := acc.slots[i].(size := k + 1)][i := s1] == acc.slots[i := s1];
    }
    assert DecField(fields, i, WireType(f.ltype), payload + t, acc) == Got(acc', t);
    OneRecord(fields, i, WireType(f.ltype), payload, t, acc, acc', seen);
    DecFieldShape(fields, i, WireType(f.ltype), payload + t, acc);
    StoreEntry(false, f, acc.slots[i], r);
  }

  lemma {:induction false} ZeroIsInit(f: Field)
    ensures f.ltype.Submessage? ==> ZeroOf(f).Sub? && Defaults(f.sub, ZeroOf(f).m) == InitMsg(f.sub)
  {}

  // ---- Whole messages ----

  /** One field, whatever its rule. */
  lemma {:induction false} FieldArrives(fields: seq<Field>, m: Msg, acc: Msg, i: nat, t: seq<byte>, seen: set<nat>)
    returns (acc': Msg)
    requires GoodFields(fields) && Shape(fields, m) && OkMsg(true, fields, m) && i < |fields|
    requires Pending(fields, acc, i) && Arrived(fields, m, acc, i)
    ensures Pending(fields, acc', i + 1) && Arrived(fields, m, acc', i + 1)
    ensures DecLoop(fields, EncField(fields, m, i) + t, acc, seen)
            == DecLoop(fields, t, acc', if fields[i].htype.Required? then seen + {i} else seen)
    decreases fields, 1
  {
    hide DecLoop, Pending, Arrived, EncRecord, EncRecords, SentItems, InitMsg, GoodFields;
    var f := fields[i];
    ShapesAt(fields, i, m);
    assert OkField(true, fields, m, i);
    if SentCount(fields, m, i) == 0 {
      UnsentArrives(fields, m, acc, i);
      acc' := acc;
      assert [] + t == t;
    } else if !f.htype.Repeated? {
      acc' := SingleArrives(fields, m, acc, i, t, seen);
    } else if Packable(f) {
      acc' := PackedFieldArrives(fields, m, acc, i, t, seen);
    } else {
      var s1 := RecordsArrive(fields, m, acc, i, m.slots[i].size, t, seen);
      acc' := PutSlot(acc, i, s1);
      ArrayArrives(fields, m, acc, i, s1);
      assert EncField(fields, m, i) == EncArray(f, m.slots[i], m.slots[i].size);
    }
  }

  lemma {:induction false} FieldsArrive(fields: seq<Field>, m: Msg, acc: Msg, i: nat, seen: set<nat>)
    returns (m': Msg, seen': set<nat>)
    requires GoodFields(fields) && Shape(fields, m) && OkMsg(true, fields, m) && i <= |fields|
    requires Pending(fields, acc, i) && Arrived(fields, m, acc, i)
    requires forall j :: 0 <= j < i && fields[j].htype.Required? ==> j in seen
    ensures DecLoop(fields, EncFrom(fields, m, i), acc, seen) == Done(m', seen', [])
    ensures Shape(fields, m') && Arrived(fields, m, m', |fields|) && AllSeen(fields, seen')
    decreases fields, 2, |fields| - i
  {
    hide Arrived, OkMsg, EncField, GoodFields, Shape, DecLoop;
    if i == |fields| {
      m', seen' := acc, seen;
      LoopEnds(fields, acc, seen);
    } else {
      var rest := EncFrom(fields, m, i + 1);
      var acc' := FieldArrives(fields, m, acc, i, rest, seen);
      m', seen' := FieldsArrive(fields, m, acc', i + 1, if fields[i].htype.Required? then seen + {i} else seen);
    }
  }

  lemma {:induction false} LoopEnds(fields: seq<Field>, m: Msg, seen: set<nat>)
    ensures DecLoop(fields, [], m, seen) == Done(m, seen, [])
  {}

  /** Into a freshly initialised structure. */
  lemma {:induction false} MsgRoundTrip(fields: seq<Field>, m: Msg)
    requires GoodFields(fields) && Shape(fields, m) && OkMsg(true, fields, m)
    ensures var r := DecMsg(fields, EncMsg(fields, m), InitMsg(fields));
            r.Got? && r.rest == [] && Shape(fields, r.value) && ViewMsg(false, fields, r.value) == SentMsg(fields, m)
    decreases fields, 3
  {
    hide DecLoop, ViewField, SentField, OkMsg, InitMsg, GoodFields, Shape, ShapeSlot;
    InitPending(fields);
    var m', seen' := FieldsArrive(fields, m, InitMsg(fields), 0, {});
    assert EncMsg(fields, m) == EncFrom(fields, m, 0);
    assert forall i :: 0 <= i < |fields| ==> ViewMsg(false, fields, m')[i] == SentMsg(fields, m)[i];
  }

  lemma {:induction false} InitPending(fields: seq<Field>)
    requires GoodFields(fields)
    ensures Pending(fields, InitMsg(fields), 0)
  {
    hide GoodField, ShapeSlot;
    InitShape(fields);
    forall j | 0 <= j < |fields| && fields[j].htype.Oneof?
      ensures !Active(fields, InitMsg(fields), j)
    {
      var l := Leader(fields, j);
      assert InitMsg(fields).slots[l] == DefaultSlot(fields[l], false, ZeroMsg(fields).slots[l]);
      TagsNonzero(fields);
    }
  }

  /** The round trip: a message the encoder takes, with strings terminated inside their buffers and
      nested lengths below 2^32, decodes from its own encoding into any structure at all; every
      byte is consumed and the result shows exactly what was sent. */
  lemma {:induction false} DecodeInvertsEncode(fields: seq<Field>, m: Msg, prior: Msg)
    requires GoodFields(fields) && Shape(fields, m) && Shape(fields, prior) && OkMsg(true, fields, m)
    ensures var r := DecMsg(fields, EncMsg(fields, m), Defaults(fields, prior));
            r.Got? && r.rest == [] && ViewMsg(false, fields, r.value) == SentMsg(fields, m)
  {
    hide DecMsg, EncMsg, ViewMsg, SentMsg, OkMsg, GoodFields, Shape, Defaults, ZeroMsg;
    ZeroMsgShape(fields);
    MsgRoundTrip(fields, m);
    DecodeForgetsThePast(fields, EncMsg(fields, m), prior, ZeroMsg(fields));
  }
}
