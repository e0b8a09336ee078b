/** A repeated number field reads the same values however they are split into packed records and
    single ones, and records back to back with length prefixes come out one by one. */
module Packing {
  import opened Words
  import opened Varint
  import opened Numbers
  import opened Descriptor
  import opened Encoding
  import opened Decoding
  import opened Views
  import opened RoundTrip

  /** One record of a repeated number field: a packed body, possibly empty, or a single number. */
  datatype Chunk = Packed(ns: seq<int>) | Single(n: int)

  function NumsBytes(ty: NumType, ns: seq<int>): seq<byte> {
    if ns == [] then [] else NumBytes(ty, ns[0]) + NumsBytes(ty, ns[1..])
  }

  function ChunkPayload(f: Field, c: Chunk): seq<byte>
    requires f.ltype.Number?
  {
    match c
    case Packed(ns) => Framed(NumsBytes(f.ltype.ty, ns))
    case Single(n) => NumBytes(f.ltype.ty, n)
  }

  function ChunkWire(f: Field, c: Chunk): nat {
    if c.Packed? then WT_STRING else WireType(f.ltype)
  }

  function ChunksBytes(f: Field, cs: seq<Chunk>): seq<byte>
    requires f.ltype.Number?
  {
    if cs == [] then []
    else (KeyBytes(f.tag, ChunkWire(f, cs[0])) + ChunkPayload(f, cs[0])) + ChunksBytes(f, cs[1..])
  }

  function ChunkNumbers(c: Chunk): seq<int> {
    if c.Packed? then c.ns else [c.n]
  }

  function NumbersIn(cs: seq<Chunk>): seq<int> {
    if cs == [] then [] else ChunkNumbers(cs[0]) + NumbersIn(cs[1..])
  }

  /** An array slot with numbers appended in order. */
  function Append(s: Slot, ns: seq<int>): Slot
    decreases |ns|
  {
    if ns == [] || s.size >= |s.items| then s
    else Append(Slot(s.size + 1, s.items[s.size := Num(ns[0])]), ns[1..])
  }

  predicate GoodChunk(f: Field, c: Chunk)
    requires f.ltype.Number?
  {
    && (forall n :: n in ChunkNumbers(c) ==> InRange(f.ltype.ty, f.dataSize, n))
    && (c.Packed? ==> |NumsBytes(f.ltype.ty, c.ns)| < U32)
  }

  lemma {:induction false} AppendAll(s: Slot, a: seq<int>, b: seq<int>)
    requires s.size + |a| <= |s.items|
    ensures Append(s, a + b) == Append(Append(s, a), b)
    ensures Append(s, a).size == s.size + |a| && |Append(s, a).items| == |s.items|
    decreases |a|
  {
    if a == [] {
      assert a + b == b;
    } else {
      assert (a + b)[1..] == a[1..] + b;
      AppendAll(Slot(s.size + 1, s.items[s.size := Num(a[0])]), a[1..], b);
    }
  }

  /** What appending does to the visible entries. */
  lemma {:induction false} AppendShows(all: bool, f: Field, s: Slot, ns: seq<int>)
    requires f.ltype.Number? && s.size + |ns| <= |s.items|
    ensures ViewItems(all, f, Append(s, ns))
            == ViewItems(all, f, s) + seq(|ns|, k requires 0 <= k < |ns| => NumView(ns[k]))
    decreases |ns|
  {
    hide ViewItems;
    if ns != [] {
      var s1 := Slot(s.size + 1, s.items[s.size := Num(ns[0])]);
      StoreEntry(all, f, s, Num(ns[0]));
      AppendShows(all, f, s1, ns[1..]);
    }
  }

  /** A packed body of numbers is taken exactly when they all fit. */
  lemma {:induction false} PackedBody(f: Field, ns: seq<int>, s: Slot)
    requires f.ltype.Number? && Top(f.dataSize) > 0 && s.size <= f.arraySize == |s.items|
    requires forall n :: n in ns ==> InRange(f.ltype.ty, f.dataSize, n)
    ensures DecPacked(f, NumsBytes(f.ltype.ty, ns), s)
            == if s.size + |ns| <= f.arraySize then Some(Append(s, ns)) else None
  {
    hide ReadNum, NumBytes, InRange;
    if ns != [] {
      var rest := NumsBytes(f.ltype.ty, ns[1..]);
      NumRoundTrip(f.ltype.ty, f.dataSize, ns[0], rest);
      if s.size < f.arraySize {
        PackedBody(f, ns[1..], Slot(s.size + 1, s.items[s.size := Num(ns[0])]));
      }
    }
  }

  lemma {:induction false} OneChunk(fields: seq<Field>, i: nat, c: Chunk, t: seq<byte>, m: Msg)
    requires GoodFields(fields) && Shape(fields, m) && i < |fields|
    requires fields[i].htype.Repeated? && fields[i].ltype.Number? && GoodChunk(fields[i], c)
    requires m.slots[i].size <= fields[i].arraySize
    ensures var f, s, ns := fields[i], m.slots[i], ChunkNumbers(c);
            DecField(fields, i, ChunkWire(f, c), ChunkPayload(f, c) + t, m)
            == if s.size + |ns| <= f.arraySize then Got(PutSlot(m, i, Append(s, ns)), t) else Fail
  {
    hide ReadNum, NumBytes, InRange, DecPacked, ReadFrame, Framed, NumsBytes, GoodFields;
    var f, s := fields[i], m.slots[i];
    ShapesAt(fields, i, m);
    match c
    case Packed(ns) =>
      FrameRoundTrip(NumsBytes(f.ltype.ty, ns), t);
      PackedBody(f, ns, s);
    case Single(n) =>
      assert n in ChunkNumbers(c);
      NumRoundTrip(f.ltype.ty, f.dataSize, n, t);
      if s.size < f.arraySize {
        var s1 := Slot(s.size + 1, s.items[s.size := Num(n)]);
        assert Append(s, [n]) == s1 by { assert [n][1..] == []; }
        assert m.WithSize(i, s.size + 1).WithItem(i, s.size, Num(n)) == PutSlot(m, i, s1) by {
          assert m.slots[i := s.(size := s.size + 1)][i := s1] == m.slots[i := s1];
        }
      }
  }

  /** Packed and unpacked agree: any split of a value list into packed and single records is taken
      exactly when the values fit the array, and appends them in order, changing nothing else. */
  lemma {:induction false} SplitsAgree(fields: seq<Field>, i: nat, cs: seq<Chunk>, m: Msg, seen: set<nat>)
    requires GoodFields(fields) && Shape(fields, m) && i < |fields|
    requires fields[i].htype.Repeated? && fields[i].ltype.Number?
    requires forall c :: c in cs ==> GoodChunk(fields[i], c)
    requires m.slots[i].size <= fields[i].arraySize
    ensures DecLoop(fields, ChunksBytes(fields[i], cs), m, seen)
            == if m.slots[i].size + |NumbersIn(cs)| <= fields[i].arraySize
               then Done(PutSlot(m, i, Append(m.slots[i], NumbersIn(cs))), seen, [])
               else Stuck
  {
    ShapesAt(fields, i, m);
    hide DecLoop, DecField, GoodFields, GoodChunk, Shape, KeyBytes, ChunkPayload;
    var f, s := fields[i], m.slots[i];
    if cs == [] {
      LoopEnds(fields, m, seen);
      assert m.slots[i := s] == m.slots;
    } else {
      var c, t, ns := cs[0], ChunksBytes(f, cs[1..]), ChunkNumbers(cs[0]);
      assert c in cs;
      OneChunk(fields, i, c, t, m);
      if s.size + |ns| <= f.arraySize {
        var s1 := Append(s, ns);
        var m1 := PutSlot(m, i, s1);
        AppendAll(s, ns, NumbersIn(cs[1..]));
        OneRecord(fields, i, ChunkWire(f, c), ChunkPayload(f, c), t, m, m1, seen);
        DecFieldShape(fields, i, ChunkWire(f, c), ChunkPayload(f, c) + t, m);
        SplitsAgree(fields, i, cs[1..], m1, seen);
        var s2 := Append(s1, NumbersIn(cs[1..]));
        assert PutSlot(m1, i, s2) == PutSlot(m, i, s2) by {
          assert m.slots[i := s1][i := s2] == m.slots[i := s2];
        }
      } else {
        RejectedRecord(fields, i, ChunkWire(f, c), ChunkPayload(f, c), t, m, seen);
      }
    }
  }

  // ---- Delimited streams ----

  /** Messages back to back, each behind its length. */
  function DelimitedBytes(fields: seq<Field>, ms: seq<Msg>): seq<byte> {
    if ms == [] then [] else Framed(EncMsg(fields, ms[0])) + DelimitedBytes(fields, ms[1..])
  }

  /** Repeated delimited decoding, one destination structure after the other. */
  function DecDelimitedAll(fields: seq<Field>, bs: seq<byte>, priors: seq<Msg>): Read<seq<Msg>> {
    if priors == [] then Got([], bs)
    else
      match DecDelimited(fields, bs, priors[0])
      case Fail => Fail
      case Got(m, rest) =>
        match DecDelimitedAll(fields, rest, priors[1..])
        case Fail => Fail
        case Got(ms, rest') => Got([m] + ms, rest')
  }

  predicate Sendable(fields: seq<Field>, m: Msg) {
    Shape(fields, m) && OkMsg(true, fields, m) && |EncMsg(fields, m)| < U32
  }

  /** One delimited message comes back and leaves the stream exactly behind itself. */
  lemma {:induction false} DelimitedRoundTrip(fields: seq<Field>, m: Msg, prior: Msg, t: seq<byte>)
    requires GoodFields(fields) && Shape(fields, prior) && Sendable(fields, m)
    ensures var r := DecDelimited(fields, Framed(EncMsg(fields, m)) + t, prior);
            r.Got? && r.rest == t && ViewMsg(false, fields, r.value) == SentMsg(fields, m)
  {
    hide DecMsg, EncMsg, ViewMsg, SentMsg, Framed, ReadFrame, Defaults, GoodFields;
    FrameRoundTrip(EncMsg(fields, m), t);
    DecodeInvertsEncode(fields, m, prior);
  }

  /** A stream of delimited messages is returned one by one, in order, whatever the destinations
      held and whatever follows the stream. */
  lemma {:induction false} StreamRoundTrip(fields: seq<Field>, ms: seq<Msg>, priors: seq<Msg>, t: seq<byte>)
    requires GoodFields(fields) && |priors| == |ms|
    requires forall k :: 0 <= k < |ms| ==> Sendable(fields, ms[k]) && Shape(fields, priors[k])
    ensures var r := DecDelimitedAll(fields, DelimitedBytes(fields, ms) + t, priors);
            && r.Got? && r.rest == t && |r.value| == |ms|
            && forall k :: 0 <= k < |ms| ==> ViewMsg(false, fields, r.value[k]) == SentMsg(fields, ms[k])
  {
    hide DecDelimited, ViewMsg, SentMsg, GoodFields, Sendable, Shape;
    if ms == [] {
      assert DelimitedBytes(fields, ms) + t == t;
    } else {
      var rest := DelimitedBytes(fields, ms[1..]) + t;
      assert DelimitedBytes(fields, ms) + t == Framed(EncMsg(fields, ms[0])) + rest;
      assert Sendable(fields, ms[0]);
      DelimitedRoundTrip(fields, ms[0], priors[0], rest);
      StreamRoundTrip(fields, ms[1..], priors[1..], t);
    }
  }
}
