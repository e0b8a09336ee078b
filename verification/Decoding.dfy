/** What the decoder makes of a byte string: the specification of every decoding routine. */
module Decoding {
  import opened Words
  import opened Varint
  import opened Numbers
  import opened Descriptor
  import opened FieldIterator
  import opened Encoding

  /** A record's key. A zero key and a key cut off by the end of the stream both end a message,
      and so does an overlong key that uses up the stream. */
  datatype Key = Eof(rest: seq<byte>) | BadKey | Key(tag: nat, wireType: nat, rest: seq<byte>)

  function ReadKey(bs: seq<byte>): (k: Key)
    ensures k.Key? ==> |k.rest| < |bs| && k.tag < 0x2000_0000 && k.wireType < 8
    ensures k.Eof? ==> |k.rest| <= |bs|
  {
    match ReadVarint32(bs)
    case Fail => if |bs| <= 5 then Eof([]) else BadKey
    case Got(temp, rest) => if temp == 0 then Eof(rest) else Key(temp / 8, temp % 8, rest)
  }

  function Drop(bs: seq<byte>, n: nat): (r: Option<seq<byte>>)
    ensures r.Some? ==> |r.value| <= |bs|
  {
    if n <= |bs| then Some(bs[n..]) else None
  }

  /** The bytes after an unknown field's payload. */
  function SkipField(wireType: nat, bs: seq<byte>): (r: Option<seq<byte>>)
    ensures r.Some? ==> |r.value| <= |bs|
  {
    if wireType == WT_VARINT then
      match VarintEnd(bs, |bs|)
      case None => None
      case Some(n) => Some(bs[n..])
    else if wireType == WT_64BIT then Drop(bs, 8)
    else if wireType == WT_STRING then
      match ReadFrame(bs)
      case Fail => None
      case Got(_, rest) => Some(rest)
    else if wireType == WT_32BIT then Drop(bs, 4)
    else None
  }

  function BufOf(v: Value): seq<byte> {
    match v
    case Blob(_, buf) => buf
    case Text(buf) => buf
    case Raw(buf) => buf
    case _ => []
  }

  /** `data` written over the front of a buffer. */
  function Over(data: seq<byte>, buf: seq<byte>): seq<byte> {
    if |data| <= |buf| then data + buf[|data|..] else data
  }

  predicate IsPacked(f: Field, wireType: nat) {
    f.htype.Repeated? && wireType == WT_STRING && Packable(f)
  }

  /** Appends the numbers of a packed body; the body must be used up before the array is full. */
  function DecPacked(f: Field, bs: seq<byte>, s: Slot): Option<Slot>
    requires f.ltype.Number?
    decreases |bs|
  {
    if bs == [] then Some(s)
    else if s.size >= f.arraySize || s.size >= |s.items| then None
    else
      match ReadNum(f.ltype.ty, f.dataSize, bs)
      case Fail => None
      case Got(n, rest) => DecPacked(f, rest, Slot(s.size + 1, s.items[s.size := Num(n)]))
  }

  /** One payload into an item that held `v`. */
  function DecValue(f: Field, bs: seq<byte>, v: Value): (r: Read<Value>)
    ensures r.Got? ==> |r.rest| <= |bs|
    decreases |bs|, 0
  {
    if f.ltype.Number? then
      match ReadNum(f.ltype.ty, f.dataSize, bs)
      case Fail => Fail
      case Got(n, rest) => Got(Num(n), rest)
    else if f.ltype.Extension? then Fail
    else
      match ReadFrame(bs)
      case Fail => Fail
      case Got(body, rest) =>
        if f.ltype.Bytes? then
          if |body| + BYTES_OFFSET > f.dataSize then Fail else Got(Blob(|body|, Over(body, BufOf(v))), rest)
        else if f.ltype.String? then
          if |body| + 1 > f.dataSize then Fail else Got(Text(Over(body + [0], BufOf(v))), rest)
        else if f.ltype.FixedLengthBytes? then
          if |body| == 0 then Got(Raw(Zeros(f.dataSize)), rest)
          else if |body| != f.dataSize then Fail
          else Got(Raw(body), rest)
        else
          match DecMsg(f.sub, body, if f.htype.Repeated? then Defaults(f.sub, MsgOf(v)) else MsgOf(v))
          case Fail => Fail
          case Got(m, _) => Got(Sub(m), rest)
  }

  /** One payload of field `i` into the structure. */
  function DecField(fields: seq<Field>, i: nat, wireType: nat, bs: seq<byte>, m: Msg): (r: Read<Msg>)
    ensures r.Got? ==> |r.rest| <= |bs|
    decreases |bs|, 1
  {
    var f := FieldAt(fields, i);
    if IsPacked(f, wireType) then
      match ReadFrame(bs)
      case Fail => Fail
      case Got(body, rest) =>
        match DecPacked(f, body, m.At(i))
        case None => Fail
        case Some(s) => Got(PutSlot(m, i, s), rest)
    else
      match Target(fields, i, m)
      case None => Fail
      case Some(t) =>
        match DecValue(f, bs, t.v)
        case Fail => Fail
        case Got(v, rest) => Got(t.m.WithItem(i, t.k, v), rest)
  }

  function PutSlot(m: Msg, i: nat, s: Slot): Msg {
    if i < |m.slots| then Msg(m.slots[i := s]) else m
  }

  /** Where a single payload goes: the structure with has-flag, count or which-tag set, the item's
      index, and the content it is decoded over. A full array has no place left. */
  datatype Place = Place(m: Msg, k: nat, v: Value)

  function LeaderAt(fields: seq<Field>, i: nat): nat {
    if i < |fields| then Leader(fields, i) else i
  }

  function Target(fields: seq<Field>, i: nat, m: Msg): Option<Place> {
    var f := FieldAt(fields, i);
    match f.htype
    case Required => Some(Place(m, 0, m.Item(i, 0)))
    case Optional => Some(Place(if HasFlag(f) then m.WithSize(i, 1) else m, 0, m.Item(i, 0)))
    case Repeated =>
      var n := m.Size(i);
      if n >= f.arraySize then None else Some(Place(m.WithSize(i, n + 1), n, m.Item(i, n)))
    case Oneof =>
      Some(Place(m.WithSize(LeaderAt(fields, i), f.tag), 0,
                 if f.ltype.Submessage? then InitValue(f) else m.Item(i, 0)))
  }

  /** One record after its key: a known field or something to skip. */
  function DecRecord(fields: seq<Field>, tag: nat, wireType: nat, bs: seq<byte>, m: Msg): (r: Read<Msg>)
    ensures r.Got? ==> |r.rest| <= |bs|
    decreases |bs|, 2
  {
    match FindField(fields, tag)
    case Some(i) => DecField(fields, i, wireType, bs, m)
    case None =>
      match SkipField(wireType, bs)
      case None => Fail
      case Some(rest) => Got(m, rest)
  }

  /** The required fields recorded after a record with key `tag`. */
  function Note(fields: seq<Field>, tag: nat, seen: set<nat>): set<nat> {
    match FindField(fields, tag)
    case Some(i) => if FieldAt(fields, i).htype.Required? then seen + {i} else seen
    case None => seen
  }

  /** How far the record loop gets. */
  datatype Run = Stuck | Done(m: Msg, seen: set<nat>, rest: seq<byte>)

  function DecLoop(fields: seq<Field>, bs: seq<byte>, m: Msg, seen: set<nat>): (r: Run)
    ensures r.Done? ==> |r.rest| <= |bs|
    decreases |bs|, 3
  {
    if bs == [] then Done(m, seen, [])
    else
      match ReadKey(bs)
      case Eof(rest) => Done(m, seen, rest)
      case BadKey => Stuck
      case Key(tag, wireType, rest) =>
        match DecRecord(fields, tag, wireType, rest, m)
        case Fail => Stuck
        case Got(m', rest') => DecLoop(fields, rest', m', Note(fields, tag, seen))
  }

  predicate AllSeen(fields: seq<Field>, seen: set<nat>) {
    forall i :: 0 <= i < |fields| && fields[i].htype.Required? ==> i in seen
  }

  /** Decoding without initialisation. */
  function DecMsg(fields: seq<Field>, bs: seq<byte>, m: Msg): (r: Read<Msg>)
    ensures r.Got? ==> |r.rest| <= |bs|
    decreases |bs|, 4
  {
    match DecLoop(fields, bs, m, {})
    case Stuck => Fail
    case Done(m', seen, rest) => if AllSeen(fields, seen) then Got(m', rest) else Fail
  }

  /** One length-prefixed message, decoded into an initialised structure. */
  function DecDelimited(fields: seq<Field>, bs: seq<byte>, m: Msg): Read<Msg> {
    match ReadFrame(bs)
    case Fail => Fail
    case Got(body, rest) =>
      match DecMsg(fields, body, Defaults(fields, m))
      case Fail => Fail
      case Got(m', _) => Got(m', rest)
  }

  /** Storing an item twice is storing it once. */
  lemma {:induction false} StoreTwice(m: Msg, i: nat, k: nat, a: Value, b: Value)
    ensures m.WithItem(i, k, a).WithItem(i, k, b) == m.WithItem(i, k, b)
  {
    if i < |m.slots| && k < |m.slots[i].items| {
      var items := m.slots[i].items;
      assert items[k := a][k := b] == items[k := b];
      var s, t := m.slots[i].(items := items[k := a]), m.slots[i].(items := items[k := b]);
      assert m.slots[i := s][i := t] == m.slots[i := t];
    }
  }

  // ---- Structures stay well-shaped ----

  lemma {:induction false} DecPackedShape(f: Field, bs: seq<byte>, s: Slot)
    requires GoodField(f) && f.ltype.Number? && ShapeSlot(f, s)
    ensures DecPacked(f, bs, s).Some? ==> ShapeSlot(f, DecPacked(f, bs, s).value)
    decreases |bs|
  {
    if bs != [] && s.size < f.arraySize && s.size < |s.items| {
      ReadNumInRange(f.ltype.ty, f.dataSize, bs);
      match ReadNum(f.ltype.ty, f.dataSize, bs)
      case Fail =>
      case Got(n, rest) =>
        DecPackedShape(f, rest, Slot(s.size + 1, s.items[s.size := Num(n)]));
    }
  }

  lemma {:induction false} DecValueShape(f: Field, bs: seq<byte>, v: Value)
    requires GoodField(f) && ShapeValue(f, v)
    ensures DecValue(f, bs, v).Got? ==> ShapeValue(f, DecValue(f, bs, v).value)
    decreases |bs|, 0
  {
    if f.ltype.Number? {
      ReadNumInRange(f.ltype.ty, f.dataSize, bs);
    } else if f.ltype.Submessage? && ReadFrame(bs).Got? {
      var body := ReadFrame(bs).value;
      DefaultsShape(f.sub, v.m);
      DecMsgShape(f.sub, body, if f.htype.Repeated? then Defaults(f.sub, v.m) else v.m);
    }
  }

  /** The item a payload goes to exists and holds a value of its kind. */
  lemma {:induction false} TargetShape(fields: seq<Field>, i: nat, m: Msg)
    requires GoodFields(fields) && Shape(fields, m) && i < |fields|
    ensures match Target(fields, i, m)
            case None => true
            case Some(t) => Shape(fields, t.m) && t.k < |t.m.slots[i].items| && ShapeValue(fields[i], t.v)
  {
    var f := fields[i];
    assert GoodField(f) && ShapeSlot(f, m.slots[i]);
    if f.htype.Oneof? && f.ltype.Submessage? {
      InitShape(f.sub);
    }
    match Target(fields, i, m)
    case None =>
    case Some(t) =>
      forall j | 0 <= j < |fields|
        ensures ShapeSlot(fields[j], t.m.slots[j])
      {
        assert ShapeSlot(fields[j], m.slots[j]);
      }
  }

  lemma {:induction false} StoreShape(fields: seq<Field>, i: nat, k: nat, m: Msg, v: Value)
    requires Shape(fields, m) && i < |fields| && k < |m.slots[i].items| && ShapeValue(fields[i], v)
    ensures Shape(fields, m.WithItem(i, k, v))
  {
    forall j | 0 <= j < |fields|
      ensures ShapeSlot(fields[j], m.WithItem(i, k, v).slots[j])
    {
      assert ShapeSlot(fields[j], m.slots[j]);
    }
  }

  lemma {:induction false} DecFieldShape(fields: seq<Field>, i: nat, wireType: nat, bs: seq<byte>, m: Msg)
    requires GoodFields(fields) && Shape(fields, m) && i < |fields|
    ensures DecField(fields, i, wireType, bs, m).Got? ==> Shape(fields, DecField(fields, i, wireType, bs, m).value)
    decreases |bs|, 1
  {
    var f := fields[i];
    assert GoodField(f) && ShapeSlot(f, m.slots[i]);
    if IsPacked(f, wireType) {
      if ReadFrame(bs).Got? {
        DecPackedShape(f, ReadFrame(bs).value, m.slots[i]);
      }
    } else {
      TargetShape(fields, i, m);
      match Target(fields, i, m)
      case None =>
      case Some(t) =>
        DecValueShape(f, bs, t.v);
        match DecValue(f, bs, t.v)
        case Fail =>
        case Got(v, _) =>
          StoreShape(fields, i, t.k, t.m, v);
    }
  }

  lemma {:induction false} DecRecordShape(fields: seq<Field>, tag: nat, wireType: nat, bs: seq<byte>, m: Msg)
    requires GoodFields(fields) && Shape(fields, m)
    ensures DecRecord(fields, tag, wireType, bs, m).Got? ==>
              Shape(fields, DecRecord(fields, tag, wireType, bs, m).value)
    decreases |bs|, 2
  {
    match FindField(fields, tag)
    case None =>
    case Some(i) =>
      if fields == [] {
        EmptyRejects(wireType, bs, m);
      } else {
        DecFieldShape(fields, i, wireType, bs, m);
      }
  }

  /** A key with tag 0 selects an empty message's terminator row, whose width no integer has, so the
      record is rejected whatever it holds; other tags are unknown to an empty message. */
  lemma {:induction false} EmptyRejects(wireType: nat, bs: seq<byte>, m: Msg)
    ensures forall tag: nat :: FindField([], tag) == if tag == 0 then Some(0) else None
    ensures forall v :: DecValue(LAST_FIELD, bs, v) == Fail
    ensures DecField([], 0, wireType, bs, m) == Fail == DecRecord([], 0, wireType, bs, m)
  {
    assert FieldAt([], 0) == LAST_FIELD;
    assert forall v: nat :: NarrowSigned(v, 0) == None;
    assert ReadNum(Signed, 0, bs) == Fail;
    assert forall v :: DecValue(LAST_FIELD, bs, v) == Fail;
    assert Target([], 0, m) == Some(Place(m, 0, m.Item(0, 0)));
  }

  /** A message with fields skips a record with tag 0 like any other unknown one. */
  lemma {:induction false} ZeroTagSkips(fields: seq<Field>, wireType: nat, bs: seq<byte>, m: Msg)
    requires GoodFields(fields) && fields != []
    ensures DecRecord(fields, 0, wireType, bs, m)
            == if SkipField(wireType, bs).None? then Fail else Got(m, SkipField(wireType, bs).value)
  {
    hide DecField, SkipField;
    TagsNonzero(fields);
    assert FindField(fields, 0) == None;
  }

  /** A record with the tag of an extension slot, whose chain is empty, is skipped. */
  lemma {:induction false} ExtensionTagSkips(fields: seq<Field>, i: nat, wireType: nat, bs: seq<byte>, m: Msg)
    requires GoodFields(fields) && i < |fields| && fields[i].ltype.Extension?
    ensures DecRecord(fields, fields[i].tag, wireType, bs, m)
            == if SkipField(wireType, bs).None? then Fail else Got(m, SkipField(wireType, bs).value)
  {
    hide DecField, SkipField;
    assert FindField(fields, fields[i].tag) == None;
  }

  lemma {:induction false} DecLoopShape(fields: seq<Field>, bs: seq<byte>, m: Msg, seen: set<nat>)
    requires GoodFields(fields) && Shape(fields, m)
    ensures DecLoop(fields, bs, m, seen).Done? ==> Shape(fields, DecLoop(fields, bs, m, seen).m)
    decreases |bs|, 3
  {
    if bs != [] && ReadKey(bs).Key? {
      var Key(tag, wireType, rest) := ReadKey(bs);
      DecRecordShape(fields, tag, wireType, rest, m);
      match DecRecord(fields, tag, wireType, rest, m)
      case Fail =>
      case Got(m', rest') =>
        DecLoopShape(fields, rest', m', Note(fields, tag, seen));
    }
  }

  lemma {:induction false} DecMsgShape(fields: seq<Field>, bs: seq<byte>, m: Msg)
    requires GoodFields(fields) && Shape(fields, m)
    ensures DecMsg(fields, bs, m).Got? ==> Shape(fields, DecMsg(fields, bs, m).value)
    decreases |bs|, 4
  {
    DecLoopShape(fields, bs, m, {});
  }
}
