/** Decoding as a run over records: what follows a record cannot reach back into it, so messages
    concatenate by merging, unknown records vanish, and presence is a matter of which tags occur. */
module Records {
  import opened Words
  import opened Varint
  import opened Numbers
  import opened Descriptor
  import opened FieldIterator
  import opened Encoding
  import opened Decoding

  /** The bytes after a known field's payload, whatever the message holds. */
  function AfterPayload(f: Field, wireType: nat, bs: seq<byte>): (r: Option<seq<byte>>)
    ensures r.Some? ==> |r.value| <= |bs|
  {
    if f.ltype.Number? && !IsPacked(f, wireType) then
      match ReadRaw(f.ltype.ty, bs)
      case Fail => None
      case Got(_, rest) => Some(rest)
    else
      match ReadFrame(bs)
      case Fail => None
      case Got(_, rest) => Some(rest)
  }

  function AfterRecord(fields: seq<Field>, tag: nat, wireType: nat, bs: seq<byte>): (r: Option<seq<byte>>)
    ensures r.Some? ==> |r.value| <= |bs|
  {
    match FindField(fields, tag)
    case Some(i) => AfterPayload(FieldAt(fields, i), wireType, bs)
    case None => SkipField(wireType, bs)
  }

  /** A sequence of complete records with nonzero keys, as the decoder delimits them. */
  predicate WholeRecords(fields: seq<Field>, bs: seq<byte>)
    decreases |bs|
  {
    bs == [] ||
    (ReadKey(bs).Key? &&
     var Key(tag, wireType, rest) := ReadKey(bs);
     AfterRecord(fields, tag, wireType, rest).Some? &&
     WholeRecords(fields, AfterRecord(fields, tag, wireType, rest).value))
  }

  /** The same outcome with more bytes left behind it. */
  function Longer<T>(r: Read<T>, t: seq<byte>): Read<T> {
    match r
    case Fail => Fail
    case Got(v, rest) => Got(v, rest + t)
  }

  /** Running on over `b` from where a first run ended. */
  function Resume(fields: seq<Field>, run: Run, b: seq<byte>): Run {
    match run
    case Stuck => Stuck
    case Done(m, seen, _) => DecLoop(fields, b, m, seen)
  }

  lemma {:induction false} KeyExtends(bs: seq<byte>, t: seq<byte>)
    requires ReadKey(bs).Key?
    ensures ReadKey(bs + t) == Key(ReadKey(bs).tag, ReadKey(bs).wireType, ReadKey(bs).rest + t)
  {
    ReadExtends(bs, t);
  }

  lemma {:induction false} SkipExtends(wireType: nat, bs: seq<byte>, t: seq<byte>)
    requires SkipField(wireType, bs).Some?
    ensures SkipField(wireType, bs + t) == Some(SkipField(wireType, bs).value + t)
  {
    FrameExtends(bs, t);
    if wireType == WT_VARINT {
      EndExtends(bs, t, |bs|);
      EndLater(bs + t, |bs|, |bs + t|);
      var n := VarintEnd(bs, |bs|).value;
      assert (bs + t)[n..] == bs[n..] + t;
    } else if wireType == WT_64BIT {
      assert (bs + t)[8..] == bs[8..] + t;
    } else if wireType == WT_32BIT {
      assert (bs + t)[4..] == bs[4..] + t;
    }
  }

  lemma {:induction false} ValueExtends(f: Field, bs: seq<byte>, v: Value, t: seq<byte>)
    requires if f.ltype.Number? then ReadRaw(f.ltype.ty, bs).Got? else ReadFrame(bs).Got?
    ensures DecValue(f, bs + t, v) == Longer(DecValue(f, bs, v), t)
    ensures DecValue(f, bs, v).Got? ==>
              DecValue(f, bs, v).rest
              == if f.ltype.Number? then ReadRaw(f.ltype.ty, bs).rest else ReadFrame(bs).rest
  {
    hide DecMsg, ReadFrame, ReadRaw, Narrow;
    if f.ltype.Number? {
      ReadNumExtends(f.ltype.ty, f.dataSize, bs, t);
    } else {
      FrameExtends(bs, t);
    }
  }

  /** A known field's payload is decoded the same whatever comes after it. */
  lemma {:induction false} FieldExtends(fields: seq<Field>, i: nat, wireType: nat, bs: seq<byte>, m: Msg, t: seq<byte>)
    requires AfterPayload(FieldAt(fields, i), wireType, bs).Some?
    ensures DecField(fields, i, wireType, bs + t, m) == Longer(DecField(fields, i, wireType, bs, m), t)
    ensures DecField(fields, i, wireType, bs, m).Got? ==>
              DecField(fields, i, wireType, bs, m).rest == AfterPayload(FieldAt(fields, i), wireType, bs).value
  {
    hide DecValue, DecPacked, Target, ReadFrame, ReadRaw;
    var f := FieldAt(fields, i);
    if IsPacked(f, wireType) {
      FrameExtends(bs, t);
    } else {
      match Target(fields, i, m)
      case None =>
      case Some(place) => ValueExtends(f, bs, place.v, t);
    }
  }

  lemma {:induction false} RecordExtends(fields: seq<Field>, tag: nat, wireType: nat, bs: seq<byte>, m: Msg,
                                         t: seq<byte>)
    requires AfterRecord(fields, tag, wireType, bs).Some?
    ensures DecRecord(fields, tag, wireType, bs + t, m) == Longer(DecRecord(fields, tag, wireType, bs, m), t)
    ensures DecRecord(fields, tag, wireType, bs, m).Got? ==>
              DecRecord(fields, tag, wireType, bs, m).rest == AfterRecord(fields, tag, wireType, bs).value
  {
    hide DecField, SkipField, AfterPayload;
    match FindField(fields, tag)
    case Some(i) => FieldExtends(fields, i, wireType, bs, m, t);
    case None => SkipExtends(wireType, bs, t);
  }

  /** Where a record ends does not depend on what follows it. */
  lemma {:induction false} AfterExtends(fields: seq<Field>, tag: nat, wireType: nat, bs: seq<byte>, t: seq<byte>)
    requires AfterRecord(fields, tag, wireType, bs).Some?
    ensures AfterRecord(fields, tag, wireType, bs + t) == Some(AfterRecord(fields, tag, wireType, bs).value + t)
  {
    hide SkipField, ReadRaw, ReadFrame;
    match FindField(fields, tag)
    case None => SkipExtends(wireType, bs, t);
    case Some(i) =>
      var f := FieldAt(fields, i);
      FrameExtends(bs, t);
      if f.ltype.Number? {
        ReadNumExtends(f.ltype.ty, f.dataSize, bs, t);
      }
  }

  /** Concatenation is resumption: complete records followed by any bytes decode, with every
      failure included, as the rest decoded onto the outcome of the records. */
  lemma {:induction false} LoopConcat(fields: seq<Field>, a: seq<byte>, b: seq<byte>, m: Msg, seen: set<nat>)
    requires WholeRecords(fields, a)
    ensures DecLoop(fields, a + b, m, seen) == Resume(fields, DecLoop(fields, a, m, seen), b)
    ensures DecLoop(fields, a, m, seen).Done? ==> DecLoop(fields, a, m, seen).rest == []
    decreases |a|
  {
    hide DecRecord, AfterRecord, Note;
    if a == [] {
      assert a + b == b;
    } else {
      var Key(tag, wireType, rest) := ReadKey(a);
      KeyExtends(a, b);
      RecordExtends(fields, tag, wireType, rest, m, b);
      match DecRecord(fields, tag, wireType, rest, m)
      case Fail =>
      case Got(m', rest') =>
        LoopConcat(fields, rest', b, m', Note(fields, tag, seen));
    }
  }

  function AlsoSeen(run: Run, more: set<nat>): Run {
    match run
    case Stuck => Stuck
    case Done(m, seen, rest) => Done(m, seen + more, rest)
  }

  /** What has been seen before does not influence a run; it is only added to. */
  lemma {:induction false} SeenIsAdded(fields: seq<Field>, bs: seq<byte>, m: Msg, seen: set<nat>, more: set<nat>)
    ensures DecLoop(fields, bs, m, seen + more) == AlsoSeen(DecLoop(fields, bs, m, seen), more)
    decreases |bs|
  {
    hide DecRecord;
    if bs != [] && ReadKey(bs).Key? {
      var Key(tag, wireType, rest) := ReadKey(bs);
      match DecRecord(fields, tag, wireType, rest, m)
      case Fail =>
      case Got(m', rest') =>
        assert Note(fields, tag, seen + more) == Note(fields, tag, seen) + more;
        SeenIsAdded(fields, rest', m', Note(fields, tag, seen), more);
    }
  }

  /** Concatenation is merging: when complete records `a` are accepted over `m`, and `b` over the
      result, then `a + b` is accepted over `m` in one run, with the same final structure. */
  lemma {:induction false} ConcatenationMerges(fields: seq<Field>, a: seq<byte>, b: seq<byte>, m: Msg)
    requires WholeRecords(fields, a)
    requires DecMsg(fields, a, m).Got?
    requires DecMsg(fields, b, DecMsg(fields, a, m).value).Got?
    ensures DecMsg(fields, a + b, m) == DecMsg(fields, b, DecMsg(fields, a, m).value)
  {
    hide DecLoop;
    LoopConcat(fields, a, b, m, {});
    var Done(m1, seen1, _) := DecLoop(fields, a, m, {});
    SeenIsAdded(fields, b, m1, {}, seen1);
    assert {} + seen1 == seen1;
  }

  /** Conversely, the one run over `a + b` tells what both runs did, except that presence may be
      satisfied by either part. */
  lemma {:induction false} MergeSplits(fields: seq<Field>, a: seq<byte>, b: seq<byte>, m: Msg)
    requires WholeRecords(fields, a)
    ensures DecMsg(fields, a + b, m).Got? <==>
              var r := DecLoop(fields, a, m, {});
              && r.Done? && DecLoop(fields, b, r.m, {}).Done?
              && AllSeen(fields, r.seen + DecLoop(fields, b, r.m, {}).seen)
    ensures DecMsg(fields, a + b, m).Got? ==>
              DecMsg(fields, a + b, m).value == DecLoop(fields, b, DecLoop(fields, a, m, {}).m, {}).m
  {
    hide DecLoop;
    LoopConcat(fields, a, b, m, {});
    match DecLoop(fields, a, m, {})
    case Stuck =>
    case Done(m1, seen1, _) =>
      SeenIsAdded(fields, b, m1, {}, seen1);
      assert {} + seen1 == seen1;
      match DecLoop(fields, b, m1, {})
      case Stuck =>
      case Done(_, seen2, _) => assert seen2 + seen1 == seen1 + seen2;
  }

  /** Why the keys must be nonzero: a zero key ends a message successfully, so whatever follows it
      is left unread, and the parts before and after it do not merge. */
  lemma {:induction false} ZeroKeyStopsMerge(fields: seq<Field>, a: seq<byte>, b: seq<byte>, m: Msg)
    requires WholeRecords(fields, a) && DecMsg(fields, a, m).Got?
    ensures DecMsg(fields, a + [0], m) == DecMsg(fields, a, m)
    ensures DecMsg(fields, a + ([0] + b), m) == Got(DecMsg(fields, a, m).value, b)
  {
    hide DecLoop;
    var Done(m1, seen1, _) := DecLoop(fields, a, m, {});
    LoopConcat(fields, a, [0], m, {});
    LoopConcat(fields, a, [0] + b, m, {});
    assert [0] + [] == [0 as byte];
    ZeroKeyEnds(fields, [], m1, seen1);
    ZeroKeyEnds(fields, b, m1, seen1);
  }

  lemma {:induction false} ZeroKeyEnds(fields: seq<Field>, b: seq<byte>, m: Msg, seen: set<nat>)
    ensures DecLoop(fields, [0] + b, m, seen) == Done(m, seen, b)
  {
    Varint32RoundTrip(0, b);
  }

  /** A key cut off by the end of the stream ends a message too: up to five bytes that all announce
      another one, behind complete records, change nothing and are used up. */
  lemma {:induction false} CutOffKeyEnds(fields: seq<Field>, a: seq<byte>, u: seq<byte>, m: Msg)
    requires WholeRecords(fields, a) && DecMsg(fields, a, m).Got?
    requires |u| <= 5 && forall k :: 0 <= k < |u| ==> u[k] >= 0x80
    ensures DecMsg(fields, a + u, m) == Got(DecMsg(fields, a, m).value, [])
  {
    LoopConcat(fields, a, u, m, {});
    EndIffTerminator(u, 5);
    var Done(m1, seen1, _) := DecLoop(fields, a, m, {});
    assert DecLoop(fields, u, m1, seen1) == Done(m1, seen1, []);
  }

  /** A key that goes on for five bytes with more behind them is refused. */
  lemma {:induction false} OverlongKeyFails(fields: seq<Field>, a: seq<byte>, u: seq<byte>, m: Msg)
    requires WholeRecords(fields, a) && |u| > 5 && forall k :: 0 <= k < 5 ==> u[k] >= 0x80
    ensures DecMsg(fields, a + u, m) == Fail
  {
    LoopConcat(fields, a, u, m, {});
    EndIffTerminator(u, 5);
    match DecLoop(fields, a, m, {})
    case Stuck =>
    case Done(m1, seen1, _) => assert DecLoop(fields, u, m1, seen1) == Stuck;
  }

  // ---- Unknown fields ----

  /** Complete records none of whose tags the descriptor knows. */
  predicate UnknownRecords(fields: seq<Field>, bs: seq<byte>)
    decreases |bs|
  {
    bs == [] ||
    (ReadKey(bs).Key? &&
     var Key(tag, wireType, rest) := ReadKey(bs);
     FindField(fields, tag).None? && SkipField(wireType, rest).Some? &&
     UnknownRecords(fields, SkipField(wireType, rest).value))
  }

  lemma {:induction false} UnknownVanishes(fields: seq<Field>, u: seq<byte>, b: seq<byte>, m: Msg, seen: set<nat>)
    requires UnknownRecords(fields, u)
    ensures DecLoop(fields, u + b, m, seen) == DecLoop(fields, b, m, seen)
    decreases |u|
  {
    hide SkipField;
    if u == [] {
      assert u + b == b;
    } else {
      var Key(tag, wireType, rest) := ReadKey(u);
      KeyExtends(u, b);
      SkipExtends(wireType, rest, b);
      var rest' := SkipField(wireType, rest).value;
      assert DecRecord(fields, tag, wireType, rest + b, m) == Got(m, rest' + b);
      assert Note(fields, tag, seen) == seen;
      UnknownVanishes(fields, rest', b, m, seen);
    }
  }

  /** A stretch of records with unknown ones in front of it. */
  datatype Stretch = Stretch(unknown: seq<byte>, records: seq<byte>)

  function Noisy(ss: seq<Stretch>): seq<byte> {
    if ss == [] then [] else ss[0].unknown + (ss[0].records + Noisy(ss[1..]))
  }

  function Clean(ss: seq<Stretch>): seq<byte> {
    if ss == [] then [] else ss[0].records + Clean(ss[1..])
  }

  lemma {:induction false} NoiseVanishes(fields: seq<Field>, ss: seq<Stretch>, m: Msg, seen: set<nat>)
    requires forall s :: s in ss ==> UnknownRecords(fields, s.unknown) && WholeRecords(fields, s.records)
    ensures DecLoop(fields, Noisy(ss), m, seen) == DecLoop(fields, Clean(ss), m, seen)
  {
    hide DecLoop, UnknownRecords, WholeRecords;
    if ss != [] {
      var a, tail := ss[0].records, ss[1..];
      assert ss[0] in ss;
      UnknownVanishes(fields, ss[0].unknown, a + Noisy(tail), m, seen);
      LoopConcat(fields, a, Noisy(tail), m, seen);
      LoopConcat(fields, a, Clean(tail), m, seen);
      match DecLoop(fields, a, m, seen)
      case Stuck =>
      case Done(m1, seen1, _) => NoiseVanishes(fields, tail, m1, seen1);
    }
  }

  /** Unknown-field transparency: records with unknown tags, inserted anywhere between the records
      of a message, change neither acceptance nor the decoded structure. */
  lemma {:induction false} UnknownTransparent(fields: seq<Field>, ss: seq<Stretch>, m: Msg)
    requires forall s :: s in ss ==> UnknownRecords(fields, s.unknown) && WholeRecords(fields, s.records)
    ensures DecMsg(fields, Noisy(ss), m) == DecMsg(fields, Clean(ss), m)
  {
    hide DecLoop;
    NoiseVanishes(fields, ss, m, {});
  }

  // ---- Required fields ----

  /** The tags of a sequence of complete records. */
  function TagsIn(fields: seq<Field>, bs: seq<byte>): set<nat>
    requires WholeRecords(fields, bs)
    decreases |bs|
  {
    if bs == [] then {}
    else
      var Key(tag, wireType, rest) := ReadKey(bs);
      {tag} + TagsIn(fields, AfterRecord(fields, tag, wireType, rest).value)
  }

  lemma {:induction false} SeenAreTags(fields: seq<Field>, bs: seq<byte>, m: Msg, seen: set<nat>, i: nat)
    requires WholeRecords(fields, bs) && DecLoop(fields, bs, m, seen).Done?
    requires DistinctTags(fields) && i < |fields| && fields[i].htype.Required? && !fields[i].ltype.Extension?
    ensures i in DecLoop(fields, bs, m, seen).seen <==> i in seen || fields[i].tag in TagsIn(fields, bs)
    decreases |bs|
  {
    hide DecRecord, AfterRecord;
    if bs != [] {
      var Key(tag, wireType, rest) := ReadKey(bs);
      RecordExtends(fields, tag, wireType, rest, m, []);
      var Got(m', rest') := DecRecord(fields, tag, wireType, rest, m);
      if fields[i].tag == tag {
        FindUnique(fields, tag, i);
      }
      SeenAreTags(fields, rest', m', Note(fields, tag, seen), i);
    }
  }

  /** Presence: complete records that each decode are accepted as a message exactly when every
      required tag occurs among them. */
  lemma {:induction false} RequiredIsPresence(fields: seq<Field>, bs: seq<byte>, m: Msg)
    requires GoodFields(fields) && WholeRecords(fields, bs) && DecLoop(fields, bs, m, {}).Done?
    ensures DecMsg(fields, bs, m).Got? <==>
              forall i :: 0 <= i < |fields| && fields[i].htype.Required? ==> fields[i].tag in TagsIn(fields, bs)
  {
    hide DecLoop, TagsIn, WholeRecords;
    forall i: nat | i < |fields| && fields[i].htype.Required?
      ensures i in DecLoop(fields, bs, m, {}).seen <==> fields[i].tag in TagsIn(fields, bs)
    {
      assert GoodField(fields[i]);
      SeenAreTags(fields, bs, m, {}, i);
    }
  }
}
