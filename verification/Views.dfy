/** What of a structure is visible, and how decoding a field changes it. */
module Views {
  import opened Words
  import opened Descriptor
  import opened Encoding
  import opened Decoding

  datatype ValueView = NumView(n: int) | BytesView(bs: seq<byte>) | MsgView(fs: seq<FieldView>) | NoView

  /** `Held` is the content of an optional field whose has-flag is clear. */
  datatype FieldView = One(v: ValueView) | Many(vs: seq<ValueView>) | Absent | Held(v: ValueView)

  /** A value without the unused parts of its buffer. */
  function ViewValue(all: bool, f: Field, v: Value): ValueView
    decreases f, 0
  {
    match f.ltype
    case Number(_) => if v.Num? then NumView(v.n) else NoView
    case Bytes => if v.Blob? then BytesView(BlobBytes(v.size, v.buf)) else NoView
    case String => if v.Text? then BytesView(TextBytes(v.buf)) else NoView
    case FixedLengthBytes => if v.Raw? then BytesView(v.buf) else NoView
    case Submessage => MsgView(ViewMsg(all, f.sub, MsgOf(v)))
    case Extension => NoView
  }

  function ViewItems(all: bool, f: Field, s: Slot): (vs: seq<ValueView>)
    ensures |vs| == if s.size < |s.items| then s.size else |s.items|
    decreases f, 1
  {
    var n := if s.size < |s.items| then s.size else |s.items|;
    seq(n, k requires 0 <= k < n => ViewValue(all, f, s.items[k]))
  }

  /** A field's visible content: the value if present, the entries up to the count, the active
      member of a union. With `all`, also what absent optional fields hold. */
  function ViewField(all: bool, fields: seq<Field>, m: Msg, i: nat): FieldView
    requires i < |fields|
    decreases fields, 0
  {
    var f := fields[i];
    match f.htype
    case Required => One(ViewValue(all, f, m.Item(i, 0)))
    case Optional =>
      if !HasFlag(f) || m.Size(i) != 0 then One(ViewValue(all, f, m.Item(i, 0)))
      else if all then Held(ViewValue(all, f, m.Item(i, 0)))
      else Absent
    case Repeated => Many(ViewItems(all, f, m.At(i)))
    case Oneof => if Active(fields, m, i) then One(ViewValue(all, f, m.Item(i, 0))) else Absent
  }

  function ViewMsg(all: bool, fields: seq<Field>, m: Msg): (fs: seq<FieldView>)
    ensures |fs| == |fields|
    decreases fields, 1
  {
    seq(|fields|, i requires 0 <= i < |fields| => ViewField(all, fields, m, i))
  }

  lemma {:induction false} ViewAt(all: bool, fields: seq<Field>, m: Msg, i: nat)
    requires i < |fields|
    ensures ViewMsg(all, fields, m)[i] == ViewField(all, fields, m, i)
  {}

  lemma {:induction false} ViewsAgree(all: bool, fields: seq<Field>, m1: Msg, m2: Msg)
    requires forall i :: 0 <= i < |fields| ==> ViewField(all, fields, m1, i) == ViewField(all, fields, m2, i)
    ensures ViewMsg(all, fields, m1) == ViewMsg(all, fields, m2)
  {
    forall i | 0 <= i < |fields|
      ensures ViewMsg(all, fields, m1)[i] == ViewMsg(all, fields, m2)[i]
    {
      ViewAt(all, fields, m1, i);
      ViewAt(all, fields, m2, i);
    }
  }

  lemma {:induction false} ViewsAgreeAt(all: bool, fields: seq<Field>, m1: Msg, m2: Msg)
    requires ViewMsg(all, fields, m1) == ViewMsg(all, fields, m2)
    ensures forall i :: 0 <= i < |fields| ==> ViewField(all, fields, m1, i) == ViewField(all, fields, m2, i)
  {
    forall i | 0 <= i < |fields|
      ensures ViewField(all, fields, m1, i) == ViewField(all, fields, m2, i)
    {
      ViewAt(all, fields, m1, i);
      ViewAt(all, fields, m2, i);
    }
  }

  // ---- The plain view depends on the full one only ----

  lemma {:induction false} ValueViewRefines(f: Field, v1: Value, v2: Value)
    requires ViewValue(true, f, v1) == ViewValue(true, f, v2)
    ensures ViewValue(false, f, v1) == ViewValue(false, f, v2)
    decreases f, 0
  {
    if f.ltype.Submessage? {
      ViewRefines(f.sub, MsgOf(v1), MsgOf(v2));
    }
  }

  lemma {:induction false} ItemsViewRefine(f: Field, s1: Slot, s2: Slot)
    requires ViewItems(true, f, s1) == ViewItems(true, f, s2)
    ensures ViewItems(false, f, s1) == ViewItems(false, f, s2)
    decreases f, 1
  {
    hide ViewValue;
    var n := |ViewItems(true, f, s1)|;
    assert |ViewItems(true, f, s2)| == n;
    forall k | 0 <= k < n
      ensures ViewItems(false, f, s1)[k] == ViewItems(false, f, s2)[k]
    {
      assert ViewItems(true, f, s1)[k] == ViewItems(true, f, s2)[k];
      ValueViewRefines(f, s1.items[k], s2.items[k]);
    }
  }

  lemma {:induction false} ViewRefines(fields: seq<Field>, m1: Msg, m2: Msg)
    requires ViewMsg(true, fields, m1) == ViewMsg(true, fields, m2)
    ensures ViewMsg(false, fields, m1) == ViewMsg(false, fields, m2)
    decreases fields
  {
    hide ViewMsg, ViewValue, ViewItems;
    ViewsAgreeAt(true, fields, m1, m2);
    forall i | 0 <= i < |fields|
      ensures ViewField(false, fields, m1, i) == ViewField(false, fields, m2, i)
    {
      assert ViewField(true, fields, m1, i) == ViewField(true, fields, m2, i);
      var f := fields[i];
      if f.htype.Repeated? {
        ItemsViewRefine(f, m1.At(i), m2.At(i));
      } else if ViewField(true, fields, m1, i).One? {
        ValueViewRefines(f, m1.Item(i, 0), m2.Item(i, 0));
      }
    }
    ViewsAgree(false, fields, m1, m2);
  }

  // ---- The effect of decoding one field ----

  predicate SameUnion(fields: seq<Field>, i: nat, j: nat)
    requires i < |fields| && j < |fields|
  {
    fields[i].htype.Oneof? && fields[j].htype.Oneof? && Leader(fields, i) == Leader(fields, j)
  }

  /** Decoding a payload into field `i` leaves the other fields' views alone, except that it
      deactivates the other members of its union. */
  lemma {:induction false} OthersAfterStore(all: bool, fields: seq<Field>, i: nat, j: nat, m: Msg, v: Value)
    requires DistinctTags(fields) && |m.slots| == |fields|
    requires i < |fields| && j < |fields| && i != j && Target(fields, i, m).Some?
    ensures var t := Target(fields, i, m).value;
            ViewField(all, fields, t.m.WithItem(i, t.k, v), j)
            == if SameUnion(fields, i, j) then Absent else ViewField(all, fields, m, j)
  {
    hide ViewValue, ViewItems, InitValue;
    var t := Target(fields, i, m).value;
    var m' := t.m.WithItem(i, t.k, v);
    assert fields[i].tag != fields[j].tag;
    var l := LeaderAt(fields, i);
    assert l == i || fields[l].htype.Oneof?;
    assert m'.At(j).items == m.At(j).items;
    assert !SameUnion(fields, i, j) ==> m'.Size(Leader(fields, j)) == m.Size(Leader(fields, j)) by {
      if fields[j].htype.Oneof? && fields[i].htype.Oneof? && !SameUnion(fields, i, j) {
        assert Leader(fields, j) != l;
      }
    }
  }

  /** The field itself then shows the value, or one more entry. */
  lemma {:induction false} FieldAfterStore(all: bool, fields: seq<Field>, i: nat, m: Msg, v: Value)
    requires GoodFields(fields) && Shape(fields, m) && i < |fields| && !fields[i].ltype.Extension?
    requires Target(fields, i, m).Some?
    ensures var t := Target(fields, i, m).value;
            ViewField(all, fields, t.m.WithItem(i, t.k, v), i)
            == if fields[i].htype.Repeated?
               then Many(ViewItems(all, fields[i], m.slots[i]) + [ViewValue(all, fields[i], v)])
               else One(ViewValue(all, fields[i], v))
  {
    hide ViewValue, InitValue;
    var f, t := fields[i], Target(fields, i, m).value;
    var m' := t.m.WithItem(i, t.k, v);
    assert ShapeSlot(f, m.slots[i]) && GoodField(f);
    if f.htype.Repeated? {
      StoreEntry(all, f, m.slots[i], v);
      assert m'.slots[i] == Slot(t.k + 1, m.slots[i].items[t.k := v]);
    } else {
      assert m'.Item(i, 0) == v;
      assert f.htype.Oneof? ==> Active(fields, m', i);
    }
  }

  lemma {:induction false} StoreEntry(all: bool, f: Field, s: Slot, v: Value)
    requires s.size < |s.items|
    ensures ViewItems(all, f, Slot(s.size + 1, s.items[s.size := v])) == ViewItems(all, f, s) + [ViewValue(all, f, v)]
  {
    hide ViewValue;
    var a := ViewItems(all, f, Slot(s.size + 1, s.items[s.size := v]));
    var b := ViewItems(all, f, s) + [ViewValue(all, f, v)];
    assert |a| == |b|;
    assert forall k :: 0 <= k < |a| ==> a[k] == b[k];
  }

  lemma {:induction false} OthersAfterPut(all: bool, fields: seq<Field>, i: nat, j: nat, m: Msg, s: Slot)
    requires |m.slots| == |fields| && i < |fields| && j < |fields| && i != j && fields[i].htype.Repeated?
    ensures ViewField(all, fields, PutSlot(m, i, s), j) == ViewField(all, fields, m, j)
  {
    hide ViewValue, ViewItems;
    var m' := PutSlot(m, i, s);
    assert m'.At(j) == m.At(j);
    assert m'.Size(Leader(fields, j)) == m.Size(Leader(fields, j));
  }

  // ---- Buffers ----

  lemma {:induction false} TextStops(a: seq<byte>, t: seq<byte>)
    ensures TextBytes(a + [0] + t) == TextBytes(a + [0])
  {
    if a == [] {
      assert (a + [0] + t)[0] == 0 && (a + [0])[0] == 0;
    } else {
      assert (a + [0] + t)[1..] == a[1..] + [0] + t;
      assert (a + [0])[1..] == a[1..] + [0];
      TextStops(a[1..], t);
    }
  }

  /** A string's bytes, terminated and stored over any buffer, are that string. */
  lemma {:induction false} TextRestored(buf: seq<byte>, t: seq<byte>)
    ensures TextBytes(TextBytes(buf) + [0] + t) == TextBytes(buf)
  {
    var s := TextBytes(buf);
    if s == [] {
      assert (s + [0] + t)[0] == 0;
    } else {
      TextRestored(buf[1..], t);
      assert (s + [0] + t)[1..] == TextBytes(buf[1..]) + [0] + t;
    }
  }
}
