/** What a repeated occurrence of a singular field or a union does, however far apart its records
    are: the last one wins, except that submessages outside unions merge. */
module Merging {
  import opened Words
  import opened Varint
  import opened Numbers
  import opened Descriptor
  import opened Encoding
  import opened Decoding
  import opened Views
  import opened Initialisation
  import opened Records
  import opened RoundTrip
  import opened Ordering

  /** A length-delimited record, and a number record, of field `f`. */
  function BodyRecord(f: Field, body: seq<byte>): seq<byte> {
    RecordOf(f, WT_STRING, Framed(body))
  }

  function NumberRecord(f: Field, n: int): seq<byte>
    requires f.ltype.Number?
  {
    RecordOf(f, WireType(f.ltype), NumBytes(f.ltype.ty, n))
  }

  // ---- Records with others in between ----

  /** A record in front of other fields' records takes its turn behind them, where field `i` is as
      it was. */
  lemma {:induction false} TurnBehind(fields: seq<Field>, i: nat, wireType: nat, payload: seq<byte>,
                                      u: seq<byte>, t: seq<byte>, t': seq<byte>, m: Msg, seen: set<nat>)
    requires GoodFields(fields) && Shape(fields, m) && i < |fields|
    requires OnePayload(fields, i, wireType, payload) && Elsewhere(fields, i, u)
    ensures var run, rec := DecLoop(fields, u, m, seen), RecordOf(fields[i], wireType, payload);
            && DecLoop(fields, rec + (u + t), m, seen) == Resume(fields, run, rec + t)
            && DecLoop(fields, u + t', m, seen) == Resume(fields, run, t')
            && (run.Done? ==> Shape(fields, run.m) && CellOf(fields, run.m, i) == CellOf(fields, m, i))
  {
    ShapesAt(fields, i, m);
    hide DecLoop, RecordOf, OnePayload, Elsewhere, GoodFields, Shape, CellOf;
    ElsewhereIsWhole(fields, i, u);
    PayloadIsWhole(fields, i, wireType, payload);
    RecordsCommute(fields, i, RecordOf(fields[i], wireType, payload), u, t, m, seen);
    LoopConcat(fields, u, RecordOf(fields[i], wireType, payload) + t, m, seen);
    LoopConcat(fields, u, t', m, seen);
    DecLoopShape(fields, u, m, seen);
    RunLeavesCell(fields, i, u, m, CellOf(fields, m, i), seen);
  }

  lemma {:induction false} BodyIsPayload(fields: seq<Field>, i: nat, body: seq<byte>)
    requires GoodFields(fields) && i < |fields| && fields[i].ltype.Submessage? && |body| < U32
    ensures OnePayload(fields, i, WT_STRING, Framed(body))
  {
    FrameRoundTrip(body, []);
    assert Framed(body) + [] == Framed(body);
  }

  lemma {:induction false} NumberIsPayload(fields: seq<Field>, i: nat, n: int)
    requires GoodFields(fields) && i < |fields| && fields[i].ltype.Number? && !fields[i].htype.Repeated?
    requires InRange(fields[i].ltype.ty, fields[i].dataSize, n)
    ensures OnePayload(fields, i, WireType(fields[i].ltype), NumBytes(fields[i].ltype.ty, n))
  {
    var f := fields[i];
    hide ReadRaw, NumBytes, InRange, Narrow, WireNumber;
    assert GoodField(f) && Top(f.dataSize) > 0;
    NarrowRoundTrip(f.ltype.ty, f.dataSize, n);
    RawRoundTrip(f.ltype.ty, n, []);
    assert NumBytes(f.ltype.ty, n) + [] == NumBytes(f.ltype.ty, n);
  }

  // ---- Submessages and numbers ----

  /** Storing into a singular field a second time leaves no trace of the first. */
  lemma {:induction false} Overwritten(fields: seq<Field>, i: nat, m: Msg, x: Value, y: Value)
    requires GoodFields(fields) && Shape(fields, m) && i < |fields| && !fields[i].htype.Repeated?
    ensures var t := Target(fields, i, m).value;
            var m1 := t.m.WithItem(i, 0, x);
            Target(fields, i, m1) == Some(Place(m1, 0, if fields[i].htype.Oneof? && fields[i].ltype.Submessage?
                                                       then InitValue(fields[i]) else x))
            && m1.WithItem(i, 0, y) == t.m.WithItem(i, 0, y)
  {
    hide InitValue, GoodFields, Shape;
    ShapesAt(fields, i, m);
    var f, t := fields[i], Target(fields, i, m).value;
    var m1 := t.m.WithItem(i, 0, x);
    var l := LeaderAt(fields, i);
    assert m1.slots[i].items == [x] && m1.Item(i, 0) == x;
    SameSize(m1, i);
    SameSize(m1, l);
    assert f.htype.Optional? && HasFlag(f) ==> m1.Size(i) == 1;
    assert f.htype.Oneof? ==> m1.Size(l) == f.tag;
    StoreTwice(t.m, i, 0, x, y);
  }

  lemma {:induction false} SameSize(m: Msg, i: nat)
    ensures m.WithSize(i, m.Size(i)) == m
  {
    if i < |m.slots| {
      assert m.slots[i := m.slots[i].(size := m.slots[i].size)] == m.slots;
    }
  }

  /** A body decoded into a singular submessage field. */
  lemma {:induction false} BodyDecodes(fields: seq<Field>, i: nat, body: seq<byte>, t: seq<byte>, m: Msg, r: Msg)
    requires GoodFields(fields) && i < |fields| && fields[i].ltype.Submessage? && !fields[i].htype.Repeated?
    requires |body| < U32 && Target(fields, i, m).Some?
    requires var p := Target(fields, i, m).value;
             DecMsg(fields[i].sub, body, MsgOf(p.v)).Got? && DecMsg(fields[i].sub, body, MsgOf(p.v)).value == r
    ensures var p := Target(fields, i, m).value;
            DecField(fields, i, WT_STRING, Framed(body) + t, m) == Got(p.m.WithItem(i, p.k, Sub(r)), t)
  {
    hide DecMsg, Target, ReadFrame, Framed, GoodFields;
    FrameRoundTrip(body, t);
  }

  lemma {:induction false} NeighboursMerge(fields: seq<Field>, i: nat, a: seq<byte>, b: seq<byte>,
                                           t: seq<byte>, m: Msg, seen: set<nat>)
    requires GoodFields(fields) && Shape(fields, m) && i < |fields|
    requires fields[i].ltype.Submessage? && (fields[i].htype.Required? || fields[i].htype.Optional?)
    requires |a| + |b| < U32 && WholeRecords(fields[i].sub, a)
    requires DecMsg(fields[i].sub, a, MsgOf(m.Item(i, 0))).Got?
    requires DecMsg(fields[i].sub, b, DecMsg(fields[i].sub, a, MsgOf(m.Item(i, 0))).value).Got?
    ensures DecLoop(fields, BodyRecord(fields[i], a) + (BodyRecord(fields[i], b) + t), m, seen)
            == DecLoop(fields, BodyRecord(fields[i], a + b) + t, m, seen)
  {
    hide DecLoop, DecMsg, DecField, WholeRecords, KeyBytes, Framed, GoodFields, Shape, InitValue;
    var f := fields[i];
    var cur := MsgOf(m.Item(i, 0));
    var ra := DecMsg(f.sub, a, cur).value;
    var rb := DecMsg(f.sub, b, ra).value;
    ConcatenationMerges(f.sub, a, b, cur);
    var p := Target(fields, i, m).value;
    var m1, m2 := p.m.WithItem(i, 0, Sub(ra)), p.m.WithItem(i, 0, Sub(rb));
    Overwritten(fields, i, m, Sub(ra), Sub(rb));
    BodyDecodes(fields, i, a, BodyRecord(f, b) + t, m, ra);
    BodyDecodes(fields, i, b, t, m1, rb);
    BodyDecodes(fields, i, a + b, t, m, rb);
    var once := if f.htype.Required? then seen + {i} else seen;
    OneRecord(fields, i, WT_STRING, Framed(a), BodyRecord(f, b) + t, m, m1, seen);
    OneRecord(fields, i, WT_STRING, Framed(b), t, m1, m2, once);
    OneRecord(fields, i, WT_STRING, Framed(a + b), t, m, m2, seen);
    assert once + {i} == seen + {i};
  }

  lemma {:induction false} NeighboursRestart(fields: seq<Field>, i: nat, a: seq<byte>, b: seq<byte>,
                                             t: seq<byte>, m: Msg, seen: set<nat>)
    requires GoodFields(fields) && Shape(fields, m) && i < |fields|
    requires fields[i].ltype.Submessage? && fields[i].htype.Oneof? && |a| < U32 && |b| < U32
    requires DecMsg(fields[i].sub, a, InitMsg(fields[i].sub)).Got?
    requires DecMsg(fields[i].sub, b, InitMsg(fields[i].sub)).Got?
    ensures DecLoop(fields, BodyRecord(fields[i], a) + (BodyRecord(fields[i], b) + t), m, seen)
            == DecLoop(fields, BodyRecord(fields[i], b) + t, m, seen)
  {
    hide DecLoop, DecMsg, DecField, KeyBytes, Framed, GoodFields, Shape, InitMsg;
    var f := fields[i];
    assert InitValue(f) == Sub(InitMsg(f.sub)) by { InitOfSub(f); }
    hide InitValue;
    var ra, rb := DecMsg(f.sub, a, InitMsg(f.sub)).value, DecMsg(f.sub, b, InitMsg(f.sub)).value;
    var p := Target(fields, i, m).value;
    var m1, m2 := p.m.WithItem(i, 0, Sub(ra)), p.m.WithItem(i, 0, Sub(rb));
    Overwritten(fields, i, m, Sub(ra), Sub(rb));
    BodyDecodes(fields, i, a, BodyRecord(f, b) + t, m, ra);
    BodyDecodes(fields, i, b, t, m1, rb);
    BodyDecodes(fields, i, b, t, m, rb);
    OneRecord(fields, i, WT_STRING, Framed(a), BodyRecord(f, b) + t, m, m1, seen);
    OneRecord(fields, i, WT_STRING, Framed(b), t, m1, m2, seen);
    OneRecord(fields, i, WT_STRING, Framed(b), t, m, m2, seen);
  }

  lemma {:induction false} InitOfSub(f: Field)
    requires f.ltype.Submessage?
    ensures InitValue(f) == Sub(InitMsg(f.sub))
  {}

  lemma {:induction false} NeighbourWins(fields: seq<Field>, i: nat, x: int, y: int, t: seq<byte>, m: Msg,
                                         seen: set<nat>)
    requires GoodFields(fields) && Shape(fields, m) && i < |fields|
    requires fields[i].ltype.Number? && !fields[i].htype.Repeated?
    requires InRange(fields[i].ltype.ty, fields[i].dataSize, x) && InRange(fields[i].ltype.ty, fields[i].dataSize, y)
    ensures DecLoop(fields, NumberRecord(fields[i], x) + (NumberRecord(fields[i], y) + t), m, seen)
            == DecLoop(fields, NumberRecord(fields[i], y) + t, m, seen)
  {
    hide DecLoop, KeyBytes, NumBytes, GoodFields, Shape, InitValue, ReadNum, InRange;
    var f := fields[i];
    ShapesAt(fields, i, m);
    assert Top(f.dataSize) > 0;
    var p := Target(fields, i, m).value;
    var m1, m2 := p.m.WithItem(i, 0, Num(x)), p.m.WithItem(i, 0, Num(y));
    Overwritten(fields, i, m, Num(x), Num(y));
    NumRoundTrip(f.ltype.ty, f.dataSize, x, NumberRecord(f, y) + t);
    NumRoundTrip(f.ltype.ty, f.dataSize, y, t);
    var once := if f.htype.Required? then seen + {i} else seen;
    OneRecord(fields, i, WireType(f.ltype), NumBytes(f.ltype.ty, x), NumberRecord(f, y) + t, m, m1, seen);
    OneRecord(fields, i, WireType(f.ltype), NumBytes(f.ltype.ty, y), t, m1, m2, once);
    OneRecord(fields, i, WireType(f.ltype), NumBytes(f.ltype.ty, y), t, m, m2, seen);
    assert once + {i} == seen + {i};
  }

  /** Two records of a required or optional submessage, with any records of other fields between
      them, are one record of the concatenated bodies. */
  lemma {:induction false} SubmessagesMerge(fields: seq<Field>, i: nat, a: seq<byte>, b: seq<byte>,
                                            u: seq<byte>, t: seq<byte>, m: Msg, seen: set<nat>)
    requires GoodFields(fields) && Shape(fields, m) && i < |fields| && Elsewhere(fields, i, u)
    requires fields[i].ltype.Submessage? && (fields[i].htype.Required? || fields[i].htype.Optional?)
    requires |a| + |b| < U32 && WholeRecords(fields[i].sub, a)
    requires DecMsg(fields[i].sub, a, MsgOf(m.Item(i, 0))).Got?
    requires DecMsg(fields[i].sub, b, DecMsg(fields[i].sub, a, MsgOf(m.Item(i, 0))).value).Got?
    ensures DecLoop(fields, BodyRecord(fields[i], a) + (u + (BodyRecord(fields[i], b) + t)), m, seen)
            == DecLoop(fields, u + (BodyRecord(fields[i], a + b) + t), m, seen)
  {
    hide DecLoop, DecMsg, WholeRecords, RecordOf, OnePayload, Elsewhere, GoodFields, Shape, Framed;
    var f := fields[i];
    BodyIsPayload(fields, i, a);
    TurnBehind(fields, i, WT_STRING, Framed(a), u, BodyRecord(f, b) + t, BodyRecord(f, a + b) + t, m, seen);
    match DecLoop(fields, u, m, seen)
    case Stuck =>
    case Done(m', seen', _) =>
      assert m'.At(i).items == m.At(i).items;
      NeighboursMerge(fields, i, a, b, t, m', seen');
  }

  /** In a union a later record of the same submessage replaces the earlier one: it is reset, not
      merged. */
  lemma {:induction false} UnionsRestart(fields: seq<Field>, i: nat, a: seq<byte>, b: seq<byte>, u: seq<byte>,
                                         t: seq<byte>, m: Msg, seen: set<nat>)
    requires GoodFields(fields) && Shape(fields, m) && i < |fields| && Elsewhere(fields, i, u)
    requires fields[i].ltype.Submessage? && fields[i].htype.Oneof? && |a| < U32 && |b| < U32
    requires DecMsg(fields[i].sub, a, InitMsg(fields[i].sub)).Got?
    requires DecMsg(fields[i].sub, b, InitMsg(fields[i].sub)).Got?
    ensures DecLoop(fields, BodyRecord(fields[i], a) + (u + (BodyRecord(fields[i], b) + t)), m, seen)
            == DecLoop(fields, u + (BodyRecord(fields[i], b) + t), m, seen)
  {
    hide DecLoop, DecMsg, RecordOf, OnePayload, Elsewhere, GoodFields, Shape, Framed, InitMsg;
    var f := fields[i];
    BodyIsPayload(fields, i, a);
    TurnBehind(fields, i, WT_STRING, Framed(a), u, BodyRecord(f, b) + t, BodyRecord(f, b) + t, m, seen);
    match DecLoop(fields, u, m, seen)
    case Stuck =>
    case Done(m', seen', _) => NeighboursRestart(fields, i, a, b, t, m', seen');
  }

  /** Of two numbers for a singular field the last one wins, to the last byte of the structure. */
  lemma {:induction false} LastNumberWins(fields: seq<Field>, i: nat, x: int, y: int, u: seq<byte>,
                                          t: seq<byte>, m: Msg, seen: set<nat>)
    requires GoodFields(fields) && Shape(fields, m) && i < |fields| && Elsewhere(fields, i, u)
    requires fields[i].ltype.Number? && !fields[i].htype.Repeated?
    requires InRange(fields[i].ltype.ty, fields[i].dataSize, x) && InRange(fields[i].ltype.ty, fields[i].dataSize, y)
    ensures DecLoop(fields, NumberRecord(fields[i], x) + (u + (NumberRecord(fields[i], y) + t)), m, seen)
            == DecLoop(fields, u + (NumberRecord(fields[i], y) + t), m, seen)
  {
    hide DecLoop, RecordOf, OnePayload, Elsewhere, GoodFields, Shape, NumBytes, InRange;
    var f := fields[i];
    NumberIsPayload(fields, i, x);
    var next := NumberRecord(f, y) + t;
    TurnBehind(fields, i, WireType(f.ltype), NumBytes(f.ltype.ty, x), u, next, next, m, seen);
    match DecLoop(fields, u, m, seen)
    case Stuck =>
    case Done(m', seen', _) => NeighbourWins(fields, i, x, y, t, m', seen');
  }

  // ---- Any payload ----

  /** The later record hides the earlier one: members of one union, or one singular field that is
      not a submessage. */
  predicate Hides(fields: seq<Field>, i: nat, j: nat)
    requires i < |fields| && j < |fields|
  {
    SameUnion(fields, i, j) || (i == j && !fields[i].htype.Repeated? && !fields[i].ltype.Submessage?)
  }

  /** Two runs fail alike, or end with the same bytes left and structures that look the same. */
  ghost predicate RunsAlike(fields: seq<Field>, r1: Run, r2: Run) {
    && (r1.Done? <==> r2.Done?)
    && (r1.Done? ==> r1.seen == r2.seen && r1.rest == r2.rest && Alike(fields, r1.m, r2.m))
  }

  /** What a hidden record stored is overwritten or deactivated. */
  lemma {:induction false} HiddenStore(fields: seq<Field>, i: nat, j: nat, m: Msg, x: Value, y1: Value, y2: Value)
    requires GoodFields(fields) && Shape(fields, m) && i < |fields| && j < |fields| && Hides(fields, i, j)
    requires !fields[i].ltype.Extension? && !fields[j].ltype.Extension?
    requires ShapeValue(fields[i], x) && ViewValue(true, fields[j], y1) == ViewValue(true, fields[j], y2)
    ensures var m1 := Target(fields, i, m).value.m.WithItem(i, 0, x);
            Alike(fields, Target(fields, j, m1).value.m.WithItem(j, 0, y1),
                  Target(fields, j, m).value.m.WithItem(j, 0, y2))
  {
    StoredShape(fields, i, m, x);
    hide GoodFields, Shape, ViewField, ViewValue, ViewMsg, Target, InitValue, ShapeValue;
    var m1 := Target(fields, i, m).value.m.WithItem(i, 0, x);
    SingularTarget(fields, j, m);
    SingularTarget(fields, j, m1);
    var n1, n2 := Target(fields, j, m1).value.m.WithItem(j, 0, y1), Target(fields, j, m).value.m.WithItem(j, 0, y2);
    FieldAfterStore(true, fields, j, m1, y1);
    FieldAfterStore(true, fields, j, m, y2);
    forall k | 0 <= k < |fields|
      ensures ViewField(true, fields, n1, k) == ViewField(true, fields, n2, k)
    {
      ShapesAt(fields, k, m);
      if k != j {
        OthersAfterStore(true, fields, j, k, m1, y1);
        OthersAfterStore(true, fields, j, k, m, y2);
        if !SameUnion(fields, j, k) {
          OthersAfterStore(true, fields, i, k, m, x);
        }
      }
    }
    ViewsAgree(true, fields, n1, n2);
  }

  lemma {:induction false} SingularTarget(fields: seq<Field>, i: nat, m: Msg)
    requires i < |fields| && !fields[i].htype.Repeated?
    ensures Target(fields, i, m).Some? && Target(fields, i, m).value.k == 0
    ensures fields[i].htype.Oneof? && fields[i].ltype.Submessage? ==>
              Target(fields, i, m).value.v == InitValue(fields[i])
  {}

  lemma {:induction false} StoredShape(fields: seq<Field>, i: nat, m: Msg, x: Value)
    requires GoodFields(fields) && Shape(fields, m) && i < |fields| && !fields[i].htype.Repeated?
    requires ShapeValue(fields[i], x)
    ensures Target(fields, i, m).Some? && Target(fields, i, m).value.k == 0
    ensures Shape(fields, Target(fields, i, m).value.m.WithItem(i, 0, x))
  {
    SingularTarget(fields, i, m);
    hide Target, GoodFields, ShapeValue;
    TargetShape(fields, i, m);
    StoreShape(fields, i, 0, Target(fields, i, m).value.m, x);
  }

  /** A payload decoded over a structure that already took a hidden one. */
  lemma {:induction false} HiddenField(fields: seq<Field>, i: nat, j: nat, w: nat, p: seq<byte>, w': nat,
                                       p': seq<byte>, m: Msg)
    requires GoodFields(fields) && Shape(fields, m) && i < |fields| && j < |fields| && Hides(fields, i, j)
    requires !fields[i].ltype.Extension? && !fields[j].ltype.Extension? && DecField(fields, i, w, p, m).Got?
    ensures var m1 := DecField(fields, i, w, p, m).value;
            Shape(fields, m1) && SameMsg(fields, DecField(fields, j, w', p', m1), DecField(fields, j, w', p', m))
  {
    hide DecValue, Target, ViewMsg, ViewValue, GoodFields, Shape, ShapeValue, InitValue;
    ShapesAt(fields, i, m);
    ShapesAt(fields, j, m);
    SingularTarget(fields, i, m);
    TargetShape(fields, i, m);
    var t := Target(fields, i, m).value;
    var x := DecValue(fields[i], p, t.v).value;
    DecValueShape(fields[i], p, t.v);
    StoredShape(fields, i, m, x);
    var m1 := DecField(fields, i, w, p, m).value;
    assert m1 == t.m.WithItem(i, 0, x);
    SingularTarget(fields, j, m1);
    SingularTarget(fields, j, m);
    TargetShape(fields, j, m1);
    TargetShape(fields, j, m);
    var v1, v2 := Target(fields, j, m1).value.v, Target(fields, j, m).value.v;
    ValueDecodesAlike(fields[j], p', v1, v2);
    DecFieldShape(fields, j, w', p', m1);
    DecFieldShape(fields, j, w', p', m);
    if DecValue(fields[j], p', v1).Got? {
      HiddenStore(fields, i, j, m, x, DecValue(fields[j], p', v1).value, DecValue(fields[j], p', v2).value);
    }
  }

  /** Last one wins: of two records of a singular field that is not a submessage, or of any two
      members of one union, the earlier leaves no visible trace, with any records of other fields
      between them. */
  lemma {:induction false} LastOneWins(fields: seq<Field>, i: nat, j: nat, w: nat, p: seq<byte>, w': nat,
                                       p': seq<byte>, u: seq<byte>, t: seq<byte>, m: Msg, seen: set<nat>)
    requires GoodFields(fields) && Shape(fields, m) && i < |fields| && j < |fields| && Hides(fields, i, j)
    requires OnePayload(fields, i, w, p) && OnePayload(fields, j, w', p') && Elsewhere(fields, i, u)
    requires DecField(fields, i, w, p, m).Got?
    ensures var first, last := RecordOf(fields[i], w, p), RecordOf(fields[j], w', p');
            RunsAlike(fields, DecLoop(fields, first + (u + (last + t)), m, seen),
                      DecLoop(fields, u + (last + t), m, seen))
  {
    assert !fields[i].ltype.Extension? && !fields[j].ltype.Extension?;
    hide DecLoop, DecField, RecordOf, OnePayload, Elsewhere, GoodFields, Shape, CellOf, ViewMsg;
    var last := RecordOf(fields[j], w', p');
    TurnBehind(fields, i, w, p, u, last + t, last + t, m, seen);
    match DecLoop(fields, u, m, seen)
    case Stuck =>
    case Done(n, seen', _) =>
      ShapesAt(fields, i, m);
      ShapesAt(fields, i, n);
      FieldIsCell(fields, i, w, p, m, n);
      HiddenField(fields, i, j, w, p, w', p', n);
      var n1 := DecField(fields, i, w, p, n).value;
      RecordTurn(fields, i, w, p, last + t, n, seen');
      RecordTurn(fields, j, w', p', t, n1, Noted(fields, i, seen'));
      RecordTurn(fields, j, w', p', t, n, seen');
      assert Noted(fields, j, Noted(fields, i, seen')) == Noted(fields, j, seen');
      if DecField(fields, j, w', p', n).Got? {
        LoopDecodesAlike(fields, t, DecField(fields, j, w', p', n1).value, DecField(fields, j, w', p', n).value,
                         Noted(fields, j, seen'));
      }
  }
}
