/** Pointer-allocated repeated number fields: the packed decoder grows its storage by a guess at
    the number of entries still to come, the unpacked one by one entry at a time. */
module PointerArrays {
  import opened Words
  import opened Varint
  import opened Numbers
  import opened Descriptor
  import opened Encoding
  import opened Decoding
  import opened RoundTrip
  import opened Packing
  import opened Streams
  import opened Decoder

  /** Largest size_t. */
  const SIZE_T_MAX: nat := U64 - 1

  /** Decoding a packed body onto the entries there are; there can be at most SIZE_MAX. */
  function DecOnto(f: Field, bs: seq<byte>, cur: seq<int>): Option<seq<int>>
    requires f.ltype.Number?
    decreases |bs|
  {
    if bs == [] then Some(cur)
    else
      match ReadNum(f.ltype.ty, f.dataSize, bs)
      case Fail => None
      case Got(n, rest) => if |cur| >= SIZE_MAX then None else DecOnto(f, rest, cur + [n])
  }

  /** One record's payload onto the entries there are, packed or single as the wire type says. */
  function DecEntries(f: Field, wireType: nat, bs: seq<byte>, cur: seq<int>): (r: Read<seq<int>>)
    requires f.ltype.Number?
    ensures r.Got? ==> |r.rest| < |bs|
  {
    if wireType == WT_STRING then
      match ReadFrame(bs)
      case Fail => Fail
      case Got(body, rest) =>
        match DecOnto(f, body, cur)
        case None => Fail
        case Some(ns) => Got(ns, rest)
    else if |cur| >= SIZE_MAX then Fail
    else
      match ReadNum(f.ltype.ty, f.dataSize, bs)
      case Fail => Fail
      case Got(n, rest) => Got(cur + [n], rest)
  }

  /** A run of records of the field. */
  function DecRun(f: Field, bs: seq<byte>, cur: seq<int>): Option<seq<int>>
    requires f.ltype.Number?
    decreases |bs|
  {
    if bs == [] then Some(cur)
    else
      match ReadKey(bs)
      case Eof(_) => None
      case BadKey => None
      case Key(tag, wireType, rest) =>
        if tag != f.tag then None
        else
          match DecEntries(f, wireType, rest, cur)
          case Fail => None
          case Got(ns, rest') => DecRun(f, rest', ns)
  }

  /** The storage a pointer field owns, and its count. */
  class PointerField {
    var storage: array<int>
    var size: nat

    ghost predicate Valid()
      reads this
    {
      size <= storage.Length && size <= SIZE_MAX
    }

    ghost function Entries(): seq<int>
      requires Valid()
      reads this, storage
    {
      storage[..size]
    }

    constructor ()
      ensures Valid() && size == 0 && fresh(storage)
    {
      storage := new int[0];
      size := 0;
    }

    /** Overflow test and reallocation. The division is only done when one factor is large. */
    method Allocate(dataSize: nat, arraySize: nat) returns (ok: bool)
      requires dataSize <= SIZE_T_MAX && arraySize <= SIZE_T_MAX
      modifies this
      ensures ok <==> dataSize > 0 && arraySize > 0 && FitsSizeT(arraySize, dataSize)
      ensures size == old(size)
      ensures !ok ==> storage == old(storage)
      ensures ok ==> fresh(storage) && storage.Length == arraySize
      ensures ok ==> forall k :: 0 <= k < arraySize && k < old(storage.Length) ==> storage[k] == old(storage[k])
    {
      if dataSize == 0 || arraySize == 0 {
        return false;
      }
      hide FitsSizeT;
      var checkLimit := U32;
      SmallFactors(dataSize, arraySize);
      if dataSize >= checkLimit || arraySize >= checkLimit {
        DivisionTest(arraySize, dataSize);
        if SIZE_T_MAX / arraySize < dataSize {
          return false;
        }
      }
      var before := storage;
      var after := new int[arraySize];
      for k := 0 to arraySize
        invariant after != before && storage == before && size == old(size)
        invariant forall l :: 0 <= l < before.Length ==> before[l] == old(before[l])
        invariant forall l :: 0 <= l < k && l < before.Length ==> after[l] == before[l]
      {
        if k < before.Length {
          after[k] := before[k];
        }
      }
      storage := after;
      return true;
    }

    /** Reserves room for the entries still to come, guessed from the bytes left. */
    method GrowByGuess(f: Field, reserved: nat, left: nat, ghost reach: nat) returns (ok: bool, allocatedSize: nat)
      requires Valid() && reserved == size && left > 0 && f.dataSize > 0
      requires size + left <= reach && FitsSizeT(reach, f.dataSize)
      modifies this
      ensures ok && Valid() && fresh(storage) && size == old(size) && Entries() == old(Entries())
      ensures size < allocatedSize == storage.Length
    {
      hide FitsSizeT;
      GuessIsEnough(size, left, f.dataSize, reach);
      allocatedSize := reserved + (left - 1) / f.dataSize + 1;
      ghost var cur := Entries();
      ok := Allocate(f.dataSize, allocatedSize);
      assert storage[..size] == cur;
    }

    /** Decodes one number into the next free entry, which lies below the capacity. */
    method DecodeEntry(stream: IStream, f: Field) returns (ok: bool)
      requires Valid() && stream.Valid() && f.ltype.Number? && size < storage.Length
      modifies stream, this`size, storage
      ensures Valid() && stream.Valid() && stream.End() == old(stream.End())
      ensures ok <==> ReadNum(f.ltype.ty, f.dataSize, old(stream.Rest())).Got? && old(size) < SIZE_MAX
      ensures ok ==> var r := ReadNum(f.ltype.ty, f.dataSize, old(stream.Rest()));
                     size == old(size) + 1 && Entries() == old(Entries()) + [r.value] && stream.Rest() == r.rest
    {
      hide ReadNum;
      ghost var cur := Entries();
      var n;
      ok, n := DecNumber(stream, f);
      if !ok {
        return;
      }
      storage[size] := n;
      assert storage[..size] == cur;
      if size == SIZE_MAX {
        return false;
      }
      size := size + 1;
    }

    /** Appends a packed record's numbers. */
    method DecodePacked(stream: IStream, f: Field) returns (ok: bool)
      requires Valid() && stream.Valid() && f.ltype.Number? && 0 < f.dataSize < U32
      requires FitsSizeT(size + stream.bytesLeft, f.dataSize)
      modifies this, storage, stream
      ensures Valid() && stream.Valid() && stream.End() <= old(stream.End())
      ensures match DecEntries(f, WT_STRING, old(stream.Rest()), old(Entries()))
              case Fail => !ok
              case Got(ns, rest) => ok && Entries() == ns && stream.Rest() == rest && stream.End() == old(stream.End())
    {
      hide ReadNum, FitsSizeT, DecOnto;
      var status, allocatedSize := true, size;
      ghost var reach := size + stream.bytesLeft;
      var framed, substream := stream.MakeStringSubstream();
      if !framed {
        return false;
      }
      ghost var body, left, first := substream.Rest(), stream.bytesLeft, Entries();
      while substream.bytesLeft > 0
        invariant Valid() && substream.Valid() && substream.data == stream.data
        invariant stream.bytesLeft == left && substream.End() + left == old(stream.End())
        invariant stream.Valid() && stream.End() <= old(stream.End())
        invariant storage == old(storage) || fresh(storage)
        invariant size <= allocatedSize <= storage.Length
        invariant size + substream.bytesLeft <= reach && FitsSizeT(reach, f.dataSize)
        invariant DecOnto(f, substream.Rest(), Entries()) == DecOnto(f, body, first)
        decreases substream.bytesLeft
      {
        OntoStep(f, substream.Rest(), Entries());
        if size + 1 > allocatedSize {
          var grown;
          grown, allocatedSize := GrowByGuess(f, allocatedSize, substream.bytesLeft, reach);
        }
        var got := DecodeEntry(substream, f);
        if !got {
          status := false;
          break;
        }
      }
      OntoEnd(f, Entries());
      var closed := stream.CloseStringSubstream(substream);
      return status;
    }

    /** Appends one unpacked record's number. */
    method DecodeSingle(stream: IStream, f: Field, ghost wireType: nat) returns (ok: bool)
      requires Valid() && stream.Valid() && f.ltype.Number? && 0 < f.dataSize < U32 && wireType != WT_STRING
      modifies this, storage, stream
      ensures stream.Valid() && stream.End() == old(stream.End())
      ensures match DecEntries(f, wireType, old(stream.Rest()), old(Entries()))
              case Fail => !ok
              case Got(ns, rest) => ok && Valid() && Entries() == ns && stream.Rest() == rest
    {
      hide ReadNum, FitsSizeT;
      if size == SIZE_MAX {
        return false;
      }
      ghost var cur := Entries();
      size := size + 1;
      SmallFactors(f.dataSize, size);
      var grown := Allocate(f.dataSize, size);
      if !grown {
        return false;
      }
      var n;
      ok, n := DecNumber(stream, f);
      if ok {
        storage[size - 1] := n;
        assert storage[..size - 1] == cur;
      }
    }

    /** A repeated pointer field's record: packed exactly when its wire type is length-delimited. */
    method DecodeRepeated(stream: IStream, wireType: nat, f: Field) returns (ok: bool)
      requires Valid() && stream.Valid() && f.ltype.Number? && 0 < f.dataSize < U32
      requires FitsSizeT(size + stream.bytesLeft, f.dataSize)
      modifies this, storage, stream
      ensures stream.Valid() && stream.End() <= old(stream.End())
      ensures match DecEntries(f, wireType, old(stream.Rest()), old(Entries()))
              case Fail => !ok
              case Got(ns, rest) =>
                ok && Valid() && Entries() == ns && stream.Rest() == rest && stream.End() == old(stream.End())
    {
      if wireType == WT_STRING && Packable(f) {
        ok := DecodePacked(stream, f);
      } else {
        ok := DecodeSingle(stream, f, wireType);
      }
    }
  }

  lemma {:induction false} OntoStep(f: Field, bs: seq<byte>, cur: seq<int>)
    requires f.ltype.Number? && bs != []
    ensures var r := ReadNum(f.ltype.ty, f.dataSize, bs);
            DecOnto(f, bs, cur)
            == if r.Fail? || |cur| >= SIZE_MAX then None else DecOnto(f, r.rest, cur + [r.value])
  {}

  lemma {:induction false} OntoEnd(f: Field, cur: seq<int>)
    requires f.ltype.Number?
    ensures DecOnto(f, [], cur) == Some(cur)
  {}

  /** The product is a size_t. */
  predicate FitsSizeT(n: nat, d: nat) {
    n * d <= SIZE_T_MAX
  }

  lemma {:induction false} FitsMeaning(n: nat, d: nat)
    ensures FitsSizeT(n, d) <==> n * d < Pow2(64)
  {
    Pow2Values();
  }

  lemma {:induction false} MulMonotone(a: nat, b: nat, c: nat)
    requires a <= b
    ensures a * c <= b * c
  {}

  /** Products of factors below 2^32 cannot overflow. */
  lemma {:induction false} SmallFactors(a: nat, b: nat)
    ensures a < U32 && b < U32 ==> FitsSizeT(b, a)
  {
    if a < U32 && b < U32 {
      MulMonotone(b, U32 - 1, a);
    }
  }

  /** The division test is exact. */
  lemma {:induction false} DivisionTest(a: nat, d: nat)
    requires a > 0
    ensures SIZE_T_MAX / a < d <==> !FitsSizeT(a, d)
  {
    var q := SIZE_T_MAX / a;
    assert SIZE_T_MAX == q * a + SIZE_T_MAX % a;
    if q < d {
      assert (q + 1) * a <= d * a;
    } else {
      assert d * a <= q * a;
    }
  }

  /** The guess adds at least one entry and never asks for more than one per remaining byte. */
  lemma {:induction false} GuessIsEnough(size: nat, left: nat, d: nat, reach: nat)
    requires left > 0 && d > 0 && size + left <= reach && FitsSizeT(reach, d)
    ensures 1 <= (left - 1) / d + 1 <= left
    ensures size + ((left - 1) / d + 1) <= SIZE_T_MAX && d <= SIZE_T_MAX
    ensures FitsSizeT(size + ((left - 1) / d + 1), d)
  {
    var q := (left - 1) / d;
    Quotient(left - 1, d);
    MulMonotone(size + (q + 1), reach, d);
    MulMonotone(1, d, size + (q + 1));
    MulMonotone(1, reach, d);
  }

  lemma {:induction false} Quotient(n: nat, d: nat)
    requires d > 0
    ensures n / d <= n
  {
    MulMonotone(1, d, n / d);
    assert d * (n / d) <= n;
  }

  /** A packed body is taken exactly when its numbers stay within the largest count. */
  lemma {:induction false} PackedOnto(f: Field, ns: seq<int>, cur: seq<int>)
    requires f.ltype.Number? && Top(f.dataSize) > 0 && |cur| <= SIZE_MAX
    requires forall n :: n in ns ==> InRange(f.ltype.ty, f.dataSize, n)
    ensures DecOnto(f, NumsBytes(f.ltype.ty, ns), cur)
            == if |cur| + |ns| <= SIZE_MAX then Some(cur + ns) else None
    decreases |ns|
  {
    hide ReadNum, NumBytes, InRange;
    if ns == [] {
      assert cur + ns == cur;
    } else {
      NumRoundTrip(f.ltype.ty, f.dataSize, ns[0], NumsBytes(f.ltype.ty, ns[1..]));
      if |cur| < SIZE_MAX {
        PackedOnto(f, ns[1..], cur + [ns[0]]);
        assert cur + [ns[0]] + ns[1..] == cur + ns;
      }
    }
  }

  lemma {:induction false} OneChunkOnto(f: Field, c: Chunk, t: seq<byte>, cur: seq<int>)
    requires f.ltype.Number? && Top(f.dataSize) > 0 && |cur| <= SIZE_MAX && GoodChunk(f, c)
    ensures DecEntries(f, ChunkWire(f, c), ChunkPayload(f, c) + t, cur)
            == if |cur| + |ChunkNumbers(c)| <= SIZE_MAX then Got(cur + ChunkNumbers(c), t) else Fail
  {
    hide ReadNum, NumBytes, InRange, ReadFrame, Framed, DecOnto, NumsBytes;
    match c
    case Packed(ns) =>
      FrameRoundTrip(NumsBytes(f.ltype.ty, ns), t);
      PackedOnto(f, ns, cur);
    case Single(n) =>
      assert n in ChunkNumbers(c);
      NumRoundTrip(f.ltype.ty, f.dataSize, n, t);
  }

  lemma {:induction false} RunStep(f: Field, wireType: nat, payload: seq<byte>, cur: seq<int>)
    requires f.ltype.Number? && 0 < f.tag < 0x2000_0000 && wireType < 8
    ensures var r := DecEntries(f, wireType, payload, cur);
            DecRun(f, KeyBytes(f.tag, wireType) + payload, cur)
            == if r.Fail? then None else DecRun(f, r.rest, r.value)
  {
    hide DecEntries, KeyBytes, ReadKey;
    var bs := KeyBytes(f.tag, wireType) + payload;
    KeyRoundTrip(f.tag, wireType, payload);
    assert |bs| > 0 by { assert |ReadKey(bs).rest| < |bs|; }
  }

  /** Packed and single records give the same entries: any split of a value list into both kinds is
      taken exactly when the total stays within the largest count, and appends it in order. */
  lemma {:induction false} PointerSplitsAgree(f: Field, cs: seq<Chunk>, cur: seq<int>)
    requires f.ltype.Number? && Top(f.dataSize) > 0 && 0 < f.tag < 0x2000_0000 && |cur| <= 0xFFFF_FFFF
    requires forall c :: c in cs ==> GoodChunk(f, c)
    ensures DecRun(f, ChunksBytes(f, cs), cur)
            == if |cur| + |NumbersIn(cs)| <= 0xFFFF_FFFF then Some(cur + NumbersIn(cs)) else None
    decreases |cs|
  {
    hide DecRun, DecEntries, GoodChunk, KeyBytes, ChunkPayload, ChunkNumbers;
    if cs == [] {
      RunEnds(f, cur);
      assert cur + [] == cur;
    } else {
      var c, t, ns := cs[0], ChunksBytes(f, cs[1..]), ChunkNumbers(cs[0]);
      var key := KeyBytes(f.tag, ChunkWire(f, c));
      assert c in cs;
      assert (key + ChunkPayload(f, c)) + t == key + (ChunkPayload(f, c) + t);
      RunStep(f, ChunkWire(f, c), ChunkPayload(f, c) + t, cur);
      OneChunkOnto(f, c, t, cur);
      if |cur| + |ns| <= SIZE_MAX {
        PointerSplitsAgree(f, cs[1..], cur + ns);
        assert cur + ns + NumbersIn(cs[1..]) == cur + NumbersIn(cs);
      }
    }
  }

  lemma {:induction false} RunEnds(f: Field, cur: seq<int>)
    requires f.ltype.Number?
    ensures DecRun(f, [], cur) == Some(cur)
  {}
}
