/** Readers and writers with different descriptors: a reader that lacks some of the writer's fields
    decodes the others as if only they had been sent. */
module Evolution {
  import opened Words
  import opened Varint
  import opened Numbers
  import opened Descriptor
  import opened FieldIterator
  import opened Encoding
  import opened Decoding
  import opened Views
  import opened RoundTrip
  import opened Records
  import opened WireFormat

  /** Rows of the same field in differently laid out structures. */
  predicate SameField(a: Field, b: Field) {
    && a.tag == b.tag && a.atype == b.atype && a.htype == b.htype && a.ltype == b.ltype
    && a.dataSize == b.dataSize && a.arraySize == b.arraySize && a.sub == b.sub && a.default == b.default
    && (HasFlag(a) <==> HasFlag(b))
  }

  /** The reader's row `k` is the writer's row `idx[k]`, in the same order, and rows are in one union
      for the reader exactly if they are for the writer. */
  predicate Selects(w: seq<Field>, r: seq<Field>, idx: seq<nat>) {
    && |idx| == |r|
    && (forall k :: 0 <= k < |r| ==> idx[k] < |w| && SameField(r[k], w[idx[k]]))
    && (forall j, k :: 0 <= j < k < |r| ==> idx[j] < idx[k])
    && (forall k :: 0 <= k < |r| ==> Leader(w, idx[Leader(r, k)]) == Leader(w, idx[k]))
  }

  /** The writer's message without the fields the reader lacks. */
  function Selection(w: seq<Field>, m: Msg, idx: seq<nat>): Msg
    requires forall k :: 0 <= k < |idx| ==> idx[k] < |w|
  {
    Msg(seq(|idx|, k requires 0 <= k < |idx| => Slot(m.Size(Leader(w, idx[k])), m.At(idx[k]).items)))
  }

  // ---- The same field in either descriptor ----

  lemma {:induction false} SameValueBytes(a: Field, b: Field, v: Value)
    requires SameField(a, b)
    ensures EncValue(a, v) == EncValue(b, v) && EncRecord(a, v) == EncRecord(b, v)
    ensures ShapeValue(a, v) <==> ShapeValue(b, v)
    ensures OkValue(true, a, v) <==> OkValue(true, b, v)
    ensures ZeroValue(a, v) <==> ZeroValue(b, v)
  {}

  lemma {:induction false} SameArrayBytes(a: Field, b: Field, s: Slot, n: nat)
    requires SameField(a, b)
    ensures EncPacked(a, s, n) == EncPacked(b, s, n) && EncRecords(a, s, n) == EncRecords(b, s, n)
    ensures EncArray(a, s, n) == EncArray(b, s, n)
  {
    if n > 0 && n <= |s.items| {
      SameArrayBytes(a, b, s, n - 1);
      SameValueBytes(a, b, s.items[n - 1]);
    }
    hide EncPacked, EncRecords;
  }

  lemma {:induction false} SelectedSlot(w: seq<Field>, r: seq<Field>, idx: seq<nat>, m: Msg, k: nat)
    requires Selects(w, r, idx) && k < |r|
    ensures var m' := Selection(w, m, idx);
            && |m'.slots| == |r| && m'.slots[k].items == m.At(idx[k]).items && m'.Item(k, 0) == m.Item(idx[k], 0)
            && m'.Size(Leader(r, k)) == m.Size(Leader(w, idx[k]))
            && (!r[k].htype.Oneof? ==> m'.At(k) == m.At(idx[k]))
  {}

  lemma {:induction false} SelectedField(w: seq<Field>, r: seq<Field>, idx: seq<nat>, m: Msg, k: nat)
    requires Selects(w, r, idx) && k < |r|
    ensures var m' := Selection(w, m, idx);
            && EncField(r, m', k) == EncField(w, m, idx[k])
            && SentCount(r, m', k) == SentCount(w, m, idx[k])
            && (OkField(true, w, m, idx[k]) ==> OkField(true, r, m', k))
  {
    SelectedSlot(w, r, idx, m, k);
    var a, b, m' := r[k], w[idx[k]], Selection(w, m, idx);
    var s := m.At(idx[k]);
    SameValueBytes(a, b, m.Item(idx[k], 0));
    if |s.items| > 0 {
      SameValueBytes(a, b, s.items[0]);
    }
    SameArrayBytes(a, b, s, s.size);
    forall j | 0 <= j < |s.items|
      ensures OkValue(true, a, s.items[j]) <==> OkValue(true, b, s.items[j])
    {
      SameValueBytes(a, b, s.items[j]);
    }
    hide Selects, Selection, EncRecord, EncArray, EncPacked, OkValue, ZeroValue;
    assert SentCount(r, m', k) == SentCount(w, m, idx[k]);
  }

  lemma {:induction false} SelectionIsGood(w: seq<Field>, r: seq<Field>, idx: seq<nat>, m: Msg)
    requires Selects(w, r, idx) && Shape(w, m) && OkMsg(true, w, m)
    ensures Shape(r, Selection(w, m, idx)) && OkMsg(true, r, Selection(w, m, idx))
  {
    var m' := Selection(w, m, idx);
    forall k | 0 <= k < |r|
      ensures ShapeSlot(r[k], m'.slots[k]) && OkField(true, r, m', k)
    {
      SelectedSlot(w, r, idx, m, k);
      SelectedField(w, r, idx, m, k);
      assert ShapeSlot(w[idx[k]], m.slots[idx[k]]) && OkField(true, w, m, idx[k]);
      forall j | 0 <= j < |m'.slots[k].items|
        ensures ShapeValue(r[k], m'.slots[k].items[j])
      {
        SameValueBytes(r[k], w[idx[k]], m'.slots[k].items[j]);
      }
    }
  }

  // ---- Records the reader knows, and others ----

  lemma {:induction false} WholeConcat(fields: seq<Field>, a: seq<byte>, b: seq<byte>)
    requires WholeRecords(fields, a) && WholeRecords(fields, b)
    ensures WholeRecords(fields, a + b)
    decreases |a|
  {
    hide AfterRecord;
    if a == [] {
      assert a + b == b;
    } else {
      var Key(tag, wireType, rest) := ReadKey(a);
      KeyExtends(a, b);
      AfterExtends(fields, tag, wireType, rest, b);
      WholeConcat(fields, AfterRecord(fields, tag, wireType, rest).value, b);
    }
  }

  lemma {:induction false} OneKnown(fields: seq<Field>, i: nat, wireType: nat, payload: seq<byte>)
    requires GoodFields(fields) && i < |fields| && !fields[i].ltype.Extension? && wireType < 8
    requires AfterPayload(fields[i], wireType, payload) == Some([])
    ensures WholeRecords(fields, KeyBytes(fields[i].tag, wireType) + payload)
  {
    hide AfterPayload, KeyBytes, ReadKey;
    assert GoodField(fields[i]);
    KeyRoundTrip(fields[i].tag, wireType, payload);
    FindUnique(fields, fields[i].tag, i);
    assert WholeRecords(fields, []);
  }

  lemma {:induction false} KnownSent(fields: seq<Field>, i: nat, v: Value)
    requires GoodFields(fields) && i < |fields| && !fields[i].ltype.Extension?
    requires ShapeValue(fields[i], v) && OkValue(true, fields[i], v)
    ensures WholeRecords(fields, EncRecord(fields[i], v))
  {
    var f := fields[i];
    assert GoodField(f);
    PayloadEnds(f, v);
    OneKnown(fields, i, WireType(f.ltype), EncValue(f, v));
  }

  lemma {:induction false} PayloadEnds(f: Field, v: Value)
    requires GoodField(f) && !f.ltype.Extension? && ShapeValue(f, v) && OkValue(true, f, v)
    ensures AfterPayload(f, WireType(f.ltype), EncValue(f, v)) == Some([])
  {
    hide EncMsg, Framed, ReadFrame, ReadRaw, NumBytes, InRange;
    if f.ltype.Number? {
      assert Top(f.dataSize) > 0;
      NarrowRoundTrip(f.ltype.ty, f.dataSize, v.n);
      RawRoundTrip(f.ltype.ty, v.n, []);
      assert NumBytes(f.ltype.ty, v.n) + [] == NumBytes(f.ltype.ty, v.n);
    } else {
      var body := match f.ltype
        case Bytes => BlobBytes(v.size, v.buf)
        case String => TextBytes(v.buf)
        case FixedLengthBytes => v.buf
        case _ => EncMsg(f.sub, MsgOf(v));
      FrameRoundTrip(body, []);
      assert Framed(body) + [] == Framed(body);
    }
  }

  /** The records of a field, for a reader that knows it. */
  lemma {:induction false} KnownField(fields: seq<Field>, m: Msg, i: nat)
    requires GoodFields(fields) && Shape(fields, m) && i < |fields| && OkField(true, fields, m, i)
    ensures WholeRecords(fields, EncField(fields, m, i))
  {
    var f, s := fields[i], m.slots[i];
    ShapesAt(fields, i, m);
    hide EncRecord, WholeRecords, OkValue, ShapeValue, ZeroValue, GoodFields, Framed;
    NoRecords(fields);
    if SentCount(fields, m, i) == 0 {
      assert EncField(fields, m, i) == [];
    } else if !f.htype.Repeated? {
      assert s.items[0] == m.Item(i, 0) && ShapeValue(f, s.items[0]) && OkValue(true, f, s.items[0]);
      KnownSent(fields, i, s.items[0]);
    } else if Packable(f) {
      PackedEnds(f, EncPacked(f, s, s.size));
      OneKnown(fields, i, WT_STRING, Framed(EncPacked(f, s, s.size)));
    } else {
      forall k | 0 <= k < s.size
        ensures WholeRecords(fields, EncRecord(f, s.items[k]))
      {
        assert ShapeValue(f, s.items[k]) && OkValue(true, f, s.items[k]);
        KnownSent(fields, i, s.items[k]);
      }
      KnownRecords(fields, f, s, s.size);
    }
  }

  lemma {:induction false} NoRecords(fields: seq<Field>)
    ensures WholeRecords(fields, []) && UnknownRecords(fields, [])
  {}

  lemma {:induction false} PackedEnds(f: Field, body: seq<byte>)
    requires f.ltype.Number? && f.htype.Repeated? && |body| < U32
    ensures AfterPayload(f, WT_STRING, Framed(body)) == Some([])
  {
    FrameRoundTrip(body, []);
    assert Framed(body) + [] == Framed(body);
  }

  lemma {:induction false} KnownRecords(fields: seq<Field>, f: Field, s: Slot, n: nat)
    requires n <= |s.items| && forall k :: 0 <= k < n ==> WholeRecords(fields, EncRecord(f, s.items[k]))
    ensures WholeRecords(fields, EncRecords(f, s, n))
  {
    hide EncRecord, WholeRecords;
    NoRecords(fields);
    if n > 0 {
      KnownRecords(fields, f, s, n - 1);
      WholeConcat(fields, EncRecords(f, s, n - 1), EncRecord(f, s.items[n - 1]));
    }
  }

  /** ... and for one that does not. */
  lemma {:induction false} UnknownField(r: seq<Field>, w: seq<Field>, m: Msg, i: nat)
    requires GoodFields(w) && Shape(w, m) && i < |w| && OkField(true, w, m, i)
    requires FindField(r, w[i].tag).None?
    ensures UnknownRecords(r, EncField(w, m, i))
  {
    var f, s := w[i], m.slots[i];
    ShapesAt(w, i, m);
    hide EncRecord, UnknownRecords, OkValue, ShapeValue, ZeroValue, GoodFields, Framed, SkipField;
    NoRecords(r);
    if SentCount(w, m, i) == 0 {
      assert EncField(w, m, i) == [];
    } else if !f.htype.Repeated? {
      assert s.items[0] == m.Item(i, 0) && ShapeValue(f, s.items[0]) && OkValue(true, f, s.items[0]);
      UnknownSent(r, f, s.items[0], [], m, {});
    } else if Packable(f) {
      var body := EncPacked(f, s, s.size);
      PackedIsSkipped(body);
      OneUnknown(r, f.tag, WT_STRING, Framed(body));
    } else {
      forall k | 0 <= k < s.size
        ensures UnknownRecords(r, EncRecord(f, s.items[k]))
      {
        assert ShapeValue(f, s.items[k]) && OkValue(true, f, s.items[k]);
        UnknownSent(r, f, s.items[k], [], m, {});
      }
      UnknownArray(r, f, s, s.size);
    }
  }

  lemma {:induction false} PackedIsSkipped(body: seq<byte>)
    requires |body| < U32
    ensures SkipField(WT_STRING, Framed(body)) == Some([])
  {
    SkipLengths(body, []);
    assert Framed(body) + [] == Framed(body);
  }

  lemma {:induction false} UnknownArray(r: seq<Field>, f: Field, s: Slot, n: nat)
    requires n <= |s.items| && forall k :: 0 <= k < n ==> UnknownRecords(r, EncRecord(f, s.items[k]))
    ensures UnknownRecords(r, EncRecords(f, s, n))
  {
    hide EncRecord, UnknownRecords;
    NoRecords(r);
    if n > 0 {
      UnknownArray(r, f, s, n - 1);
      UnknownConcat(r, EncRecords(f, s, n - 1), EncRecord(f, s.items[n - 1]));
    }
  }

  // ---- Whole messages ----

  /** The reader's run over the writer's fields from `i` on, of which it knows its own from `k` on. */
  lemma {:induction false} ReadsSelection(w: seq<Field>, r: seq<Field>, idx: seq<nat>, m: Msg, i: nat, k: nat,
                                          acc: Msg, seen: set<nat>)
    requires GoodFields(w) && GoodFields(r) && Selects(w, r, idx) && Shape(w, m) && OkMsg(true, w, m)
    requires i <= |w| && k <= |r|
    requires (forall j :: 0 <= j < k ==> idx[j] < i) && (forall j :: k <= j < |r| ==> i <= idx[j])
    ensures DecLoop(r, EncFrom(w, m, i), acc, seen) == DecLoop(r, EncFrom(r, Selection(w, m, idx), k), acc, seen)
    decreases |w| - i
  {
    hide DecLoop, EncField, WholeRecords, UnknownRecords, OkField, Selection;
    var m' := Selection(w, m, idx);
    assert k < |r| ==> i <= idx[k] < |w|;
    if i < |w| {
      var part, rest := EncField(w, m, i), EncFrom(w, m, i + 1);
      assert OkField(true, w, m, i);
      if k < |r| && idx[k] == i {
        SelectionIsGood(w, r, idx, m);
        SelectedField(w, r, idx, m, k);
        assert OkField(true, r, m', k);
        KnownField(r, m', k);
        LoopConcat(r, part, rest, acc, seen);
        LoopConcat(r, part, EncFrom(r, m', k + 1), acc, seen);
        match DecLoop(r, part, acc, seen)
        case Stuck =>
        case Done(acc', seen', _) => ReadsSelection(w, r, idx, m, i + 1, k + 1, acc', seen');
      } else {
        Unselected(w, r, idx, i);
        UnknownField(r, w, m, i);
        UnknownVanishes(r, part, rest, acc, seen);
        ReadsSelection(w, r, idx, m, i + 1, k, acc, seen);
      }
    }
  }

  lemma {:induction false} Unselected(w: seq<Field>, r: seq<Field>, idx: seq<nat>, i: nat)
    requires GoodFields(w) && Selects(w, r, idx) && i < |w| && forall k :: 0 <= k < |r| ==> idx[k] != i
    ensures FindField(r, w[i].tag).None?
  {
    TagsNonzero(w);
    forall k | 0 <= k < |r|
      ensures r[k].tag != w[i].tag
    {
      assert r[k].tag == w[idx[k]].tag;
    }
  }

  /** Forward compatibility: a reader that knows only some of the writer's fields decodes the
      writer's bytes to what it would have decoded had the other fields not existed. */
  lemma {:induction false} LackingFields(w: seq<Field>, r: seq<Field>, idx: seq<nat>, m: Msg, prior: Msg)
    requires GoodFields(w) && GoodFields(r) && Selects(w, r, idx)
    requires Shape(w, m) && OkMsg(true, w, m) && Shape(r, prior)
    ensures var m', d := Selection(w, m, idx), Defaults(r, prior);
            && DecMsg(r, EncMsg(w, m), d) == DecMsg(r, EncMsg(r, m'), d)
            && DecMsg(r, EncMsg(w, m), d).Got? && DecMsg(r, EncMsg(w, m), d).rest == []
            && ViewMsg(false, r, DecMsg(r, EncMsg(w, m), d).value) == SentMsg(r, m')
  {
    var m', d := Selection(w, m, idx), Defaults(r, prior);
    ReadsSelection(w, r, idx, m, 0, 0, d, {});
    SelectionIsGood(w, r, idx, m);
    hide DecLoop, EncFrom, ViewMsg, SentMsg, Selects, Selection, OkMsg, GoodFields, Shape;
    DecodeInvertsEncode(r, m', prior);
  }
}
