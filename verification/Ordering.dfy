/** Records of unrelated fields commute: each touches only its own field's part of the structure. */
module Ordering {
  import opened Words
  import opened Varint
  import opened Descriptor
  import opened FieldIterator
  import opened Encoding
  import opened Decoding
  import opened Views
  import opened Records
  import opened RoundTrip

  /** A field's own part of the structure: its size field, which a union shares, and its items. */
  function CellOf(fields: seq<Field>, m: Msg, i: nat): Slot {
    Slot(m.Size(LeaderAt(fields, i)), m.At(i).items)
  }

  function PutCell(fields: seq<Field>, m: Msg, i: nat, c: Slot): (r: Msg)
    requires i < |fields| == |m.slots|
    ensures |r.slots| == |fields|
  {
    Msg(m.slots[i := m.slots[i].(items := c.items)]).WithSize(LeaderAt(fields, i), c.size)
  }

  /** Neither the same field nor members of one union. */
  predicate Apart(fields: seq<Field>, i: nat, j: nat)
    requires i < |fields| && j < |fields|
  {
    i != j && !SameUnion(fields, i, j)
  }

  lemma {:induction false} LeadersApart(fields: seq<Field>, i: nat, j: nat)
    requires i < |fields| && j < |fields| && Apart(fields, i, j)
    ensures LeaderAt(fields, i) != LeaderAt(fields, j)
  {}

  lemma {:induction false} PutCellAt(fields: seq<Field>, m: Msg, i: nat, c: Slot, k: nat)
    requires i < |fields| == |m.slots| && k < |fields|
    ensures PutCell(fields, m, i, c).slots[k]
            == Slot(if k == LeaderAt(fields, i) then c.size else m.slots[k].size,
                    if k == i then c.items else m.slots[k].items)
  {}

  /** Fields apart have separate cells. */
  lemma {:induction false} CellsApart(fields: seq<Field>, m: Msg, i: nat, j: nat, c: Slot, d: Slot)
    requires i < |fields| == |m.slots| && j < |fields| && Apart(fields, i, j)
    ensures CellOf(fields, PutCell(fields, m, i, c), j) == CellOf(fields, m, j)
    ensures PutCell(fields, PutCell(fields, m, i, c), j, d) == PutCell(fields, PutCell(fields, m, j, d), i, c)
  {
    LeadersApart(fields, i, j);
    var a, b := PutCell(fields, m, i, c), PutCell(fields, m, j, d);
    PutCellAt(fields, m, i, c, j);
    PutCellAt(fields, m, i, c, LeaderAt(fields, j));
    forall k | 0 <= k < |fields|
      ensures PutCell(fields, a, j, d).slots[k] == PutCell(fields, b, i, c).slots[k]
    {
      PutCellAt(fields, m, i, c, k);
      PutCellAt(fields, m, j, d, k);
      PutCellAt(fields, a, j, d, k);
      PutCellAt(fields, b, i, c, k);
    }
    assert PutCell(fields, a, j, d).slots == PutCell(fields, b, i, c).slots;
  }

  /** Storing one item changes the cell only. */
  lemma {:induction false} StoreIsCell(fields: seq<Field>, m: Msg, i: nat, k: nat, v: Value)
    requires i < |fields| == |m.slots| && Target(fields, i, m).Some?
    ensures var t := Target(fields, i, m).value;
            var m' := t.m.WithItem(i, t.k, v);
            && |m'.slots| == |fields| && m' == PutCell(fields, m, i, CellOf(fields, m', i))
            && CellOf(fields, m', i).size == t.m.Size(LeaderAt(fields, i))
            && CellOf(fields, m', i).items == if t.k < |m.At(i).items| then m.At(i).items[t.k := v] else m.At(i).items
  {
    hide InitValue;
    var t := Target(fields, i, m).value;
    var m' := t.m.WithItem(i, t.k, v);
    var r := PutCell(fields, m, i, CellOf(fields, m', i));
    forall l | 0 <= l < |fields|
      ensures r.slots[l] == m'.slots[l]
    {
      PutCellAt(fields, m, i, CellOf(fields, m', i), l);
    }
    assert r.slots == m'.slots;
  }

  /** Structures with the same cell offer the same place. */
  lemma {:induction false} TargetIsCell(fields: seq<Field>, i: nat, m1: Msg, m2: Msg)
    requires i < |fields| == |m1.slots| == |m2.slots| && CellOf(fields, m1, i) == CellOf(fields, m2, i)
    ensures Target(fields, i, m1).Some? <==> Target(fields, i, m2).Some?
    ensures Target(fields, i, m1).Some? ==>
              var t1, t2 := Target(fields, i, m1).value, Target(fields, i, m2).value;
              t1.k == t2.k && t1.v == t2.v && t1.m.Size(LeaderAt(fields, i)) == t2.m.Size(LeaderAt(fields, i))
  {
    hide InitValue;
  }

  /** Decoding a payload reads and changes its field's cell only. */
  lemma {:induction false} FieldIsCell(fields: seq<Field>, i: nat, wireType: nat, bs: seq<byte>, m1: Msg, m2: Msg)
    requires i < |fields| == |m1.slots| == |m2.slots| && CellOf(fields, m1, i) == CellOf(fields, m2, i)
    ensures var r1, r2 := DecField(fields, i, wireType, bs, m1), DecField(fields, i, wireType, bs, m2);
            && (r1.Got? <==> r2.Got?)
            && (r1.Got? ==>
                  && r1.rest == r2.rest && |r1.value.slots| == |fields| == |r2.value.slots|
                  && r1.value == PutCell(fields, m1, i, CellOf(fields, r1.value, i))
                  && r2.value == PutCell(fields, m2, i, CellOf(fields, r1.value, i)))
  {
    hide DecValue, DecPacked, ReadFrame, Target, InitValue;
    var f := fields[i];
    if IsPacked(f, wireType) {
      assert m1.At(i) == m2.At(i) == CellOf(fields, m1, i);
      match ReadFrame(bs)
      case Fail =>
      case Got(body, rest) =>
        match DecPacked(f, body, m1.At(i))
        case None =>
        case Some(s) =>
          PutIsCell(fields, m1, i, s);
          PutIsCell(fields, m2, i, s);
    } else {
      TargetIsCell(fields, i, m1, m2);
      if Target(fields, i, m1).Some? {
        var t := Target(fields, i, m1).value;
        match DecValue(f, bs, t.v)
        case Fail =>
        case Got(v, _) =>
          StoreIsCell(fields, m1, i, t.k, v);
          StoreIsCell(fields, m2, i, t.k, v);
      }
    }
  }

  lemma {:induction false} PutIsCell(fields: seq<Field>, m: Msg, i: nat, s: Slot)
    requires i < |fields| == |m.slots| && fields[i].htype.Repeated?
    ensures PutSlot(m, i, s) == PutCell(fields, m, i, s) && CellOf(fields, PutSlot(m, i, s), i) == s
  {
    forall k | 0 <= k < |fields|
      ensures PutCell(fields, m, i, s).slots[k] == PutSlot(m, i, s).slots[k]
    {
      PutCellAt(fields, m, i, s, k);
    }
    assert PutCell(fields, m, i, s).slots == PutSlot(m, i, s).slots;
  }

  // ---- Runs that leave a field alone ----

  /** The tag selects no field, or one apart from field `i`. */
  predicate TagApart(fields: seq<Field>, i: nat, tag: nat)
    requires i < |fields|
  {
    match FindField(fields, tag)
    case None => true
    case Some(j) => j < |fields| && Apart(fields, i, j)
  }

  /** Complete records, none of them of field `i` or of its union. */
  predicate Elsewhere(fields: seq<Field>, i: nat, bs: seq<byte>)
    requires i < |fields|
    decreases |bs|
  {
    bs == [] ||
    (ReadKey(bs).Key? &&
     var Key(tag, wireType, rest) := ReadKey(bs);
     AfterRecord(fields, tag, wireType, rest).Some? && TagApart(fields, i, tag) &&
     Elsewhere(fields, i, AfterRecord(fields, tag, wireType, rest).value))
  }

  lemma {:induction false} ElsewhereIsWhole(fields: seq<Field>, i: nat, bs: seq<byte>)
    requires i < |fields| && Elsewhere(fields, i, bs)
    ensures WholeRecords(fields, bs)
    decreases |bs|
  {
    hide AfterRecord, TagApart;
    if bs != [] {
      var Key(tag, wireType, rest) := ReadKey(bs);
      ElsewhereIsWhole(fields, i, AfterRecord(fields, tag, wireType, rest).value);
    }
  }

  lemma {:induction false} RecordLeavesCell(fields: seq<Field>, i: nat, tag: nat, wireType: nat, bs: seq<byte>,
                                            m: Msg, c: Slot)
    requires i < |fields| == |m.slots| && TagApart(fields, i, tag)
    ensures var r1 := DecRecord(fields, tag, wireType, bs, m);
            var r2 := DecRecord(fields, tag, wireType, bs, PutCell(fields, m, i, c));
            && (r1.Got? <==> r2.Got?)
            && (r1.Got? ==>
                  && r1.rest == r2.rest && |r1.value.slots| == |fields|
                  && CellOf(fields, r1.value, i) == CellOf(fields, m, i)
                  && r2.value == PutCell(fields, r1.value, i, c))
  {
    hide DecField, SkipField, CellOf, PutCell;
    match FindField(fields, tag)
    case None =>
    case Some(j) =>
      var m2 := PutCell(fields, m, i, c);
      CellsApart(fields, m, i, j, c, c);
      FieldIsCell(fields, j, wireType, bs, m, m2);
      var r := DecField(fields, j, wireType, bs, m);
      if r.Got? {
        var d := CellOf(fields, r.value, j);
        CellsApart(fields, m, i, j, c, d);
        CellsApart(fields, m, j, i, d, c);
      }
  }

  /** A run over other fields' records neither reads nor changes field `i`'s cell. */
  lemma {:induction false} RunLeavesCell(fields: seq<Field>, i: nat, bs: seq<byte>, m: Msg, c: Slot, seen: set<nat>)
    requires i < |fields| == |m.slots| && Elsewhere(fields, i, bs)
    ensures var r := DecLoop(fields, bs, m, seen);
            var r' := DecLoop(fields, bs, PutCell(fields, m, i, c), seen);
            && (r.Done? <==> r'.Done?)
            && (r.Done? ==>
                  && |r.m.slots| == |fields| && CellOf(fields, r.m, i) == CellOf(fields, m, i)
                  && r' == Done(PutCell(fields, r.m, i, c), r.seen, r.rest))
    decreases |bs|
  {
    hide DecRecord, AfterRecord, TagApart, CellOf, PutCell, Note;
    if bs != [] {
      var Key(tag, wireType, rest) := ReadKey(bs);
      RecordLeavesCell(fields, i, tag, wireType, rest, m, c);
      RecordExtends(fields, tag, wireType, rest, m, []);
      match DecRecord(fields, tag, wireType, rest, m)
      case Fail =>
      case Got(m', rest') => RunLeavesCell(fields, i, rest', m', c, Note(fields, tag, seen));
    }
  }

  // ---- Moving a record ----

  /** One complete record, whatever way its key is written, that an empty message does not reject. */
  predicate OneWhole(fields: seq<Field>, rec: seq<byte>) {
    && ReadKey(rec).Key? && (fields != [] || ReadKey(rec).tag != 0)
    && AfterRecord(fields, ReadKey(rec).tag, ReadKey(rec).wireType, ReadKey(rec).rest) == Some([])
  }

  /** The field a record belongs to. */
  function FieldOf(fields: seq<Field>, rec: seq<byte>): Option<nat> {
    if ReadKey(rec).Key? then FindField(fields, ReadKey(rec).tag) else None
  }

  lemma {:induction false} FieldOfKnown(fields: seq<Field>, rec: seq<byte>)
    requires OneWhole(fields, rec) && FieldOf(fields, rec).Some?
    ensures FieldOf(fields, rec).value < |fields|
  {}

  /** The loop's turn on a complete record, failure included. */
  lemma {:induction false} WholeTurn(fields: seq<Field>, rec: seq<byte>, t: seq<byte>, m: Msg, seen: set<nat>)
    requires OneWhole(fields, rec)
    ensures var k := ReadKey(rec);
            var r := DecRecord(fields, k.tag, k.wireType, k.rest, m);
            && DecLoop(fields, rec + t, m, seen)
               == (if r.Fail? then Stuck else DecLoop(fields, t, r.value, Note(fields, k.tag, seen)))
            && (r.Got? ==> r.rest == [])
  {
    hide DecRecord, AfterRecord, Note, FindField;
    var k := ReadKey(rec);
    KeyExtends(rec, t);
    RecordExtends(fields, k.tag, k.wireType, k.rest, m, t);
    assert [] + t == t;
    assert rec + t != [];
  }

  function Noted(fields: seq<Field>, i: nat, seen: set<nat>): set<nat>
    requires i < |fields|
  {
    if fields[i].htype.Required? then seen + {i} else seen
  }

  /** A run of other records over a structure whose cell has been exchanged. */
  lemma {:induction false} MovedOn(fields: seq<Field>, i: nat, u: seq<byte>, t: seq<byte>, m: Msg, c: Slot,
                                   seen: set<nat>)
    requires i < |fields| == |m.slots| && Elsewhere(fields, i, u)
    ensures DecLoop(fields, u + t, PutCell(fields, m, i, c), Noted(fields, i, seen))
            == match DecLoop(fields, u, m, seen)
               case Stuck => Stuck
               case Done(m', seen', _) =>
                 if |m'.slots| == |fields|
                 then DecLoop(fields, t, PutCell(fields, m', i, c), Noted(fields, i, seen')) else Stuck
  {
    hide DecLoop, Elsewhere, CellOf, PutCell;
    var m1 := PutCell(fields, m, i, c);
    var more := if fields[i].htype.Required? then {i} else {};
    assert Noted(fields, i, seen) == seen + more;
    ElsewhereIsWhole(fields, i, u);
    RunLeavesCell(fields, i, u, m, c, seen);
    LoopConcat(fields, u, t, m1, Noted(fields, i, seen));
    SeenIsAdded(fields, u, m1, seen, more);
    match DecLoop(fields, u, m, seen)
    case Stuck =>
    case Done(_, seen', _) => assert Noted(fields, i, seen') == seen' + more;
  }

  /** Order does not matter between unrelated fields: a record may be moved behind any complete
      records of other fields outside its union, failures included. */
  lemma {:induction false} RecordsCommute(fields: seq<Field>, i: nat, rec: seq<byte>, u: seq<byte>, t: seq<byte>,
                                          m: Msg, seen: set<nat>)
    requires i < |fields| == |m.slots|
    requires OneWhole(fields, rec) && FieldOf(fields, rec) == Some(i) && Elsewhere(fields, i, u)
    ensures DecLoop(fields, rec + (u + t), m, seen) == DecLoop(fields, u + (rec + t), m, seen)
  {
    hide DecLoop, DecField, OneWhole, Elsewhere, CellOf, PutCell;
    var k := ReadKey(rec);
    ElsewhereIsWhole(fields, i, u);
    WholeTurn(fields, rec, u + t, m, seen);
    LoopConcat(fields, u, rec + t, m, seen);
    FieldIsCell(fields, i, k.wireType, k.rest, m, m);
    var r := DecField(fields, i, k.wireType, k.rest, m);
    var c := if r.Got? then CellOf(fields, r.value, i) else CellOf(fields, m, i);
    RunLeavesCell(fields, i, u, m, c, seen);
    if r.Got? {
      MovedOn(fields, i, u, t, m, c, seen);
    }
    match DecLoop(fields, u, m, seen)
    case Stuck =>
    case Done(m', seen', _) =>
      FieldIsCell(fields, i, k.wireType, k.rest, m, m');
      WholeTurn(fields, rec, t, m', seen');
  }

  // ---- Records of a field's payloads ----

  function RecordOf(f: Field, wireType: nat, payload: seq<byte>): seq<byte> {
    KeyBytes(f.tag, wireType) + payload
  }

  /** A known field and one complete payload for it. */
  predicate OnePayload(fields: seq<Field>, i: nat, wireType: nat, payload: seq<byte>) {
    && i < |fields| && !fields[i].ltype.Extension? && wireType < 8
    && AfterPayload(fields[i], wireType, payload) == Some([])
  }

  lemma {:induction false} PayloadIsWhole(fields: seq<Field>, i: nat, wireType: nat, payload: seq<byte>)
    requires GoodFields(fields) && OnePayload(fields, i, wireType, payload)
    ensures var rec := RecordOf(fields[i], wireType, payload);
            && OneWhole(fields, rec) && FieldOf(fields, rec) == Some(i)
            && ReadKey(rec) == Key(fields[i].tag, wireType, payload)
  {
    hide AfterPayload, KeyBytes, ReadKey;
    assert GoodField(fields[i]);
    KeyRoundTrip(fields[i].tag, wireType, payload);
    FindUnique(fields, fields[i].tag, i);
  }

  /** The loop's turn on a known field's record. */
  lemma {:induction false} RecordTurn(fields: seq<Field>, i: nat, wireType: nat, payload: seq<byte>, t: seq<byte>,
                                      m: Msg, seen: set<nat>)
    requires GoodFields(fields) && OnePayload(fields, i, wireType, payload)
    ensures var r := DecField(fields, i, wireType, payload, m);
            && DecLoop(fields, RecordOf(fields[i], wireType, payload) + t, m, seen)
               == (if r.Fail? then Stuck else DecLoop(fields, t, r.value, Noted(fields, i, seen)))
            && (r.Got? ==> r.rest == [])
  {
    hide DecField, DecLoop, RecordOf, OneWhole, GoodFields, ReadKey;
    PayloadIsWhole(fields, i, wireType, payload);
    WholeTurn(fields, RecordOf(fields[i], wireType, payload), t, m, seen);
  }

  // ---- Any reordering ----

  /** The record belongs to field `i` or to its union. */
  predicate Concerns(fields: seq<Field>, i: nat, rec: seq<byte>)
    requires i < |fields|
  {
    match FieldOf(fields, rec)
    case None => false
    case Some(j) => j < |fields| && !Apart(fields, i, j)
  }

  function Concat(recs: seq<seq<byte>>): seq<byte> {
    if recs == [] then [] else recs[0] + Concat(recs[1..])
  }

  /** The records of field `i` or its union, in order. */
  function Concerning(fields: seq<Field>, i: nat, recs: seq<seq<byte>>): seq<seq<byte>>
    requires i < |fields|
  {
    if recs == [] then []
    else (if Concerns(fields, i, recs[0]) then [recs[0]] else []) + Concerning(fields, i, recs[1..])
  }

  lemma {:induction false} ConcatSplit(a: seq<seq<byte>>, b: seq<seq<byte>>)
    ensures Concat(a + b) == Concat(a) + Concat(b)
  {
    if a == [] {
      assert a + b == b;
    } else {
      assert (a + b)[1..] == a[1..] + b;
      ConcatSplit(a[1..], b);
    }
  }

  lemma {:induction false} ConcerningSplit(fields: seq<Field>, i: nat, a: seq<seq<byte>>, b: seq<seq<byte>>)
    requires i < |fields|
    ensures Concerning(fields, i, a + b) == Concerning(fields, i, a) + Concerning(fields, i, b)
  {
    hide Concerns;
    if a == [] {
      assert a + b == b;
    } else {
      assert (a + b)[1..] == a[1..] + b;
      ConcerningSplit(fields, i, a[1..], b);
    }
  }

  lemma {:induction false} OneConcern(fields: seq<Field>, i: nat, rec: seq<byte>, recs: seq<seq<byte>>)
    requires i < |fields|
    ensures Concerning(fields, i, [rec] + recs)
            == (if Concerns(fields, i, rec) then [rec] else []) + Concerning(fields, i, recs)
  {
    assert ([rec] + recs)[1..] == recs;
  }

  /** The first record of field `i` or its union. */
  lemma {:induction false} FirstConcerned(fields: seq<Field>, i: nat, recs: seq<seq<byte>>) returns (n: nat)
    requires i < |fields| && Concerning(fields, i, recs) != []
    ensures n < |recs| && recs[n] == Concerning(fields, i, recs)[0] && Concerns(fields, i, recs[n])
    ensures forall k :: 0 <= k < n ==> !Concerns(fields, i, recs[k])
  {
    hide Concerns;
    if Concerns(fields, i, recs[0]) {
      n := 0;
    } else {
      var n' := FirstConcerned(fields, i, recs[1..]);
      n := n' + 1;
      assert forall k :: 1 <= k < n ==> recs[k] == recs[1..][k - 1];
    }
  }

  lemma {:induction false} NoneConcerned(fields: seq<Field>, i: nat, recs: seq<seq<byte>>)
    requires i < |fields| && forall k :: 0 <= k < |recs| ==> !Concerns(fields, i, recs[k])
    ensures Concerning(fields, i, recs) == []
  {
    if recs != [] {
      NoneConcerned(fields, i, recs[1..]);
    }
  }

  /** Complete records that do not concern field `i` are elsewhere. */
  lemma {:induction false} UnconcernedIsElsewhere(fields: seq<Field>, i: nat, recs: seq<seq<byte>>)
    requires i < |fields|
    requires forall k :: 0 <= k < |recs| ==> OneWhole(fields, recs[k]) && !Concerns(fields, i, recs[k])
    ensures Elsewhere(fields, i, Concat(recs))
  {
    if recs != [] {
      UnconcernedIsElsewhere(fields, i, recs[1..]);
      hide AfterRecord, Elsewhere;
      var rec, tail := recs[0], Concat(recs[1..]);
      var k := ReadKey(rec);
      assert OneWhole(fields, rec) && !Concerns(fields, i, rec);
      KeyExtends(rec, tail);
      AfterExtends(fields, k.tag, k.wireType, k.rest, tail);
      assert [] + tail == tail;
      FurtherElsewhere(fields, i, rec + tail);
    }
  }

  lemma {:induction false} FurtherElsewhere(fields: seq<Field>, i: nat, bs: seq<byte>)
    requires i < |fields| && ReadKey(bs).Key? && TagApart(fields, i, ReadKey(bs).tag)
    requires var k := ReadKey(bs);
             && AfterRecord(fields, k.tag, k.wireType, k.rest).Some?
             && Elsewhere(fields, i, AfterRecord(fields, k.tag, k.wireType, k.rest).value)
    ensures Elsewhere(fields, i, bs)
  {}

  /** Fields that are not apart have the same records. */
  lemma {:induction false} ConcernShared(fields: seq<Field>, i: nat, j: nat, rec: seq<byte>)
    requires i < |fields| && j < |fields| && !Apart(fields, i, j)
    ensures Concerns(fields, i, rec) <==> Concerns(fields, j, rec)
  {}

  predicate SameConcerns(fields: seq<Field>, a: seq<seq<byte>>, b: seq<seq<byte>>) {
    forall i :: 0 <= i < |fields| ==> Concerning(fields, i, a) == Concerning(fields, i, b)
  }

  /** Taking out a record's first occurrence on both sides. */
  lemma {:induction false} ConcernsLeft(fields: seq<Field>, i: nat, rec: seq<byte>, a: seq<seq<byte>>,
                                        u: seq<seq<byte>>, v: seq<seq<byte>>)
    requires i < |fields| && FieldOf(fields, rec) == Some(i)
    requires SameConcerns(fields, [rec] + a, u + [rec] + v)
    requires forall k :: 0 <= k < |u| ==> !Concerns(fields, i, u[k])
    ensures SameConcerns(fields, a, u + v)
  {
    hide Concerning, Apart;
    forall j | 0 <= j < |fields|
      ensures Concerning(fields, j, a) == Concerning(fields, j, u + v)
    {
      OneConcern(fields, j, rec, a);
      OneConcern(fields, j, rec, v);
      assert u + [rec] + v == u + ([rec] + v);
      assert Concerning(fields, j, [rec] + a) == Concerning(fields, j, u + ([rec] + v));
      ConcerningSplit(fields, j, u, [rec] + v);
      ConcerningSplit(fields, j, u, v);
      if Concerns(fields, j, rec) {
        forall k | 0 <= k < |u|
          ensures !Concerns(fields, j, u[k])
        {
          ConcernShared(fields, j, i, u[k]);
        }
        NoneConcerned(fields, j, u);
        var x, y := Concerning(fields, j, a), Concerning(fields, j, v);
        assert [] + ([rec] + y) == [rec] + y;
        assert ([rec] + x)[1..] == x && ([rec] + y)[1..] == y;
      } else {
        var x, y := Concerning(fields, j, a), Concerning(fields, j, v);
        assert [] + x == x && [] + y == y;
      }
    }
  }

  lemma {:induction false} UnknownSkipped(fields: seq<Field>, rec: seq<byte>, t: seq<byte>, m: Msg, seen: set<nat>)
    requires OneWhole(fields, rec) && FieldOf(fields, rec).None?
    ensures DecLoop(fields, rec + t, m, seen) == DecLoop(fields, t, m, seen)
  {
    hide DecLoop;
    WholeTurn(fields, rec, t, m, seen);
  }

  lemma {:induction false} SelfConcern(fields: seq<Field>, rec: seq<byte>)
    requires FieldOf(fields, rec).Some? && FieldOf(fields, rec).value < |fields|
    ensures Concerns(fields, FieldOf(fields, rec).value, rec)
  {}

  lemma {:induction false} DropUnknown(fields: seq<Field>, a: seq<seq<byte>>, b: seq<seq<byte>>)
    requires a != [] && FieldOf(fields, a[0]).None? && (SameConcerns(fields, a, b) || SameConcerns(fields, b, a))
    ensures SameConcerns(fields, a[1..], b) && SameConcerns(fields, b, a[1..])
  {
    forall i | 0 <= i < |fields|
      ensures Concerning(fields, i, a[1..]) == Concerning(fields, i, b)
    {
      assert !Concerns(fields, i, a[0]);
      assert Concerning(fields, i, a) == Concerning(fields, i, b);
    }
  }

  lemma {:induction false} SomethingConcerned(fields: seq<Field>, b: seq<seq<byte>>)
    requires b != [] && FieldOf(fields, b[0]).Some? && FieldOf(fields, b[0]).value < |fields|
    ensures !SameConcerns(fields, [], b)
  {
    var i := FieldOf(fields, b[0]).value;
    SelfConcern(fields, b[0]);
    assert Concerning(fields, i, []) != Concerning(fields, i, b);
  }

  /** Only the order within a field or union matters: two sequences of complete records that agree
      for every field and union on the records concerning it decode alike, failures and what is
      behind them included. Unknown records may differ altogether. */
  lemma {:induction false} OrderIrrelevant(fields: seq<Field>, a: seq<seq<byte>>, b: seq<seq<byte>>, t: seq<byte>,
                                           m: Msg, seen: set<nat>)
    requires |m.slots| == |fields| && SameConcerns(fields, a, b)
    requires forall r :: r in a || r in b ==> OneWhole(fields, r)
    ensures DecLoop(fields, Concat(a) + t, m, seen) == DecLoop(fields, Concat(b) + t, m, seen)
    decreases |a| + |b|
  {
    hide DecLoop, DecRecord, OneWhole, FieldOf, Concerns, Elsewhere, Apart;
    if a == [] && b != [] && FieldOf(fields, b[0]).Some? {
      FieldOfKnown(fields, b[0]);
      SomethingConcerned(fields, b);
    }
    if a != [] && FieldOf(fields, a[0]).None? {
      DropUnknown(fields, a, b);
      assert Concat(a) + t == a[0] + (Concat(a[1..]) + t);
      UnknownSkipped(fields, a[0], Concat(a[1..]) + t, m, seen);
      OrderIrrelevant(fields, a[1..], b, t, m, seen);
    } else if b != [] && FieldOf(fields, b[0]).None? {
      DropUnknown(fields, b, a);
      assert Concat(b) + t == b[0] + (Concat(b[1..]) + t);
      UnknownSkipped(fields, b[0], Concat(b[1..]) + t, m, seen);
      OrderIrrelevant(fields, a, b[1..], t, m, seen);
    } else if a != [] {
      FieldOfKnown(fields, a[0]);
      BothTurn(fields, a, b, t, m, seen);
    }
  }

  lemma {:induction false} Regroup(x: seq<byte>, y: seq<byte>, z: seq<byte>, t: seq<byte>)
    ensures (x + (y + z)) + t == x + (y + (z + t)) && (x + z) + t == x + (z + t)
  {}

  lemma {:induction false} ConcatOut(u: seq<seq<byte>>, rec: seq<byte>, v: seq<seq<byte>>, t: seq<byte>)
    ensures Concat(u + [rec] + v) + t == Concat(u) + (rec + (Concat(v) + t))
    ensures Concat(u + v) + t == Concat(u) + (Concat(v) + t)
  {
    var tail := [rec] + v;
    assert u + [rec] + v == u + tail;
    assert Concat(tail) == rec + Concat(v) by { assert tail[1..] == v; }
    hide Concat;
    ConcatSplit(u, tail);
    ConcatSplit(u, v);
    Regroup(Concat(u), rec, Concat(v), t);
  }

  /** The first record on one side takes its turn first on the other side as well. */
  lemma {:induction false} BothTurn(fields: seq<Field>, a: seq<seq<byte>>, b: seq<seq<byte>>, t: seq<byte>,
                                    m: Msg, seen: set<nat>)
    requires |m.slots| == |fields| && SameConcerns(fields, a, b)
    requires forall r :: r in a || r in b ==> OneWhole(fields, r)
    requires a != [] && FieldOf(fields, a[0]).Some? && FieldOf(fields, a[0]).value < |fields|
    ensures DecLoop(fields, Concat(a) + t, m, seen) == DecLoop(fields, Concat(b) + t, m, seen)
    decreases |a| + |b|, 0
  {
    hide DecLoop, OneWhole, Concerns, Elsewhere, Apart, DecField, CellOf, PutCell, ReadKey;
    var rec, i := a[0], FieldOf(fields, a[0]).value;
    SelfConcern(fields, rec);
    var n := FirstConcerned(fields, i, b);
    var u, v := b[..n], b[n + 1..];
    assert a == [rec] + a[1..] && b == u + [rec] + v;
    ConcernsLeft(fields, i, rec, a[1..], u, v);
    UnconcernedIsElsewhere(fields, i, u);
    ConcatOut(u, rec, v, t);
    assert Concat(a) + t == rec + (Concat(a[1..]) + t);
    RecordsCommute(fields, i, rec, Concat(u), Concat(v) + t, m, seen);
    WholeTurn(fields, rec, Concat(a[1..]) + t, m, seen);
    WholeTurn(fields, rec, Concat(u + v) + t, m, seen);
    var k := ReadKey(rec);
    FieldIsCell(fields, i, k.wireType, k.rest, m, m);
    var r := DecField(fields, i, k.wireType, k.rest, m);
    if r.Got? {
      OrderIrrelevant(fields, a[1..], u + v, t, r.value, Note(fields, k.tag, seen));
    }
  }
}
