/** Base 128 varints: what a byte string means, and what the shortest one for a value is. */
module Varint {
  import opened Words

  /** A successful read yields a value and the bytes after it. */
  datatype Read<+T> = Fail | Got(value: T, rest: seq<byte>)

  /** Number of bytes through the first one with a clear top bit, if it is among the first `max`. */
  function VarintEnd(bs: seq<byte>, max: nat): (n: Option<nat>)
    ensures n.Some? ==> 1 <= n.value <= |bs| && n.value <= max
  {
    if max == 0 || bs == [] then None
    else if bs[0] < 0x80 then Some(1)
    else
      match VarintEnd(bs[1..], max - 1)
      case None => None
      case Some(n) => Some(n + 1)
  }

  /** The sum of the 7-bit groups, least significant first. */
  function GroupSum(bs: seq<byte>): nat {
    if bs == [] then 0 else bs[0] % 0x80 + 0x80 * GroupSum(bs[1..])
  }

  function ReadVarint(bs: seq<byte>): (r: Read<nat>)
    ensures r.Got? ==> |r.rest| < |bs| && r.value < U64
  {
    match VarintEnd(bs, 10)
    case None => Fail
    case Some(n) => Got(GroupSum(bs[..n]) % U64, bs[n..])
  }

  function ReadVarint32(bs: seq<byte>): (r: Read<nat>)
    ensures r.Got? ==> |r.rest| < |bs| && r.value < U32
  {
    match VarintEnd(bs, 5)
    case None => Fail
    case Some(n) => Got(GroupSum(bs[..n]) % U32, bs[n..])
  }

  /** The encoder's output for a value. */
  function VarintBytes(v: nat): (bs: seq<byte>)
    ensures |bs| >= 1
  {
    if v < 0x80 then [v] else [v % 0x80 + 0x80] + VarintBytes(v / 0x80)
  }

  /** The length prefix of a length-delimited record and the body it announces. */
  function ReadFrame(bs: seq<byte>): (r: Read<seq<byte>>)
    ensures r.Got? ==> |r.value| + |r.rest| < |bs|
  {
    match ReadVarint32(bs)
    case Fail => Fail
    case Got(n, rest) => if |rest| < n then Fail else Got(rest[..n], rest[n..])
  }

  function Framed(body: seq<byte>): seq<byte> {
    VarintBytes(|body|) + body
  }

  /** Terminated exactly at its last byte. */
  predicate IsVarint(bs: seq<byte>) {
    |bs| > 0 && bs[|bs| - 1] < 0x80 && forall k :: 0 <= k < |bs| - 1 ==> bs[k] >= 0x80
  }

  lemma {:induction false} EndIffTerminator(bs: seq<byte>, max: nat)
    ensures VarintEnd(bs, max).Some? <==> exists k :: 0 <= k < |bs| && k < max && bs[k] < 0x80
    ensures VarintEnd(bs, max).Some? ==> IsVarint(bs[..VarintEnd(bs, max).value])
  {
    if max > 0 && bs != [] && bs[0] >= 0x80 {
      EndIffTerminator(bs[1..], max - 1);
      assert forall k :: 0 <= k < |bs| - 1 ==> bs[1..][k] == bs[k + 1];
      if k :| 0 <= k < |bs| && k < max && bs[k] < 0x80 {
        assert bs[1..][k - 1] < 0x80;
      }
    }
  }

  /** Bytes after a complete varint do not change where it ends. */
  lemma {:induction false} EndExtends(bs: seq<byte>, t: seq<byte>, max: nat)
    requires VarintEnd(bs, max).Some?
    ensures VarintEnd(bs + t, max) == VarintEnd(bs, max)
  {
    if bs[0] >= 0x80 {
      EndExtends(bs[1..], t, max - 1);
      assert (bs + t)[1..] == bs[1..] + t;
    }
  }

  lemma {:induction false} EndLater(bs: seq<byte>, m: nat, n: nat)
    requires m <= n && VarintEnd(bs, m).Some?
    ensures VarintEnd(bs, n) == VarintEnd(bs, m)
  {
    if bs[0] >= 0x80 {
      EndLater(bs[1..], m - 1, n - 1);
    }
  }

  lemma {:induction false} EndOfVarint(bs: seq<byte>, t: seq<byte>, max: nat)
    requires IsVarint(bs) && |bs| <= max
    ensures VarintEnd(bs + t, max) == Some(|bs|)
  {
    if |bs| > 1 {
      assert (bs + t)[1..] == bs[1..] + t;
      EndOfVarint(bs[1..], t, max - 1);
    }
  }

  lemma {:induction false} GroupSumAppend(bs: seq<byte>, b: byte)
    ensures GroupSum(bs + [b]) == GroupSum(bs) + (b % 0x80) * Pow2(7 * |bs|)
  {
    if bs == [] {
      assert bs + [b] == [b];
    } else {
      assert (bs + [b])[1..] == bs[1..] + [b];
      GroupSumAppend(bs[1..], b);
      NextGroup(|bs|, b % 0x80);
    }
  }

  /** A group's weight is 128 times the weight of the group before it. */
  lemma {:induction false} NextGroup(n: nat, x: nat)
    requires n > 0
    ensures x * Pow2(7 * n) == 0x80 * (x * Pow2(7 * (n - 1)))
  {
    assert Pow2(7) == 0x80 by { Pow2Values(); }
    hide Pow2;
    Pow2Sum(7, 7 * (n - 1));
    Regroup(x, Pow2(7 * (n - 1)));
  }

  lemma {:induction false} Regroup(x: nat, p: nat)
    ensures x * (0x80 * p) == 0x80 * (x * p)
  {}

  lemma {:induction false} GroupSumBound(bs: seq<byte>)
    ensures GroupSum(bs) < Pow2(7 * |bs|)
  {
    if bs != [] {
      GroupSumBound(bs[1..]);
      Pow2Sum(7, 7 * |bs[1..]|);
      Pow2Values();
    }
  }

  lemma {:induction false} Prepend(b: byte, rest: seq<byte>)
    requires b >= 0x80 && IsVarint(rest)
    ensures IsVarint([b] + rest) && GroupSum([b] + rest) == b % 0x80 + 0x80 * GroupSum(rest)
  {
    var bs := [b] + rest;
    assert bs[1..] == rest;
    assert forall k :: 1 <= k < |bs| ==> bs[k] == rest[k - 1];
  }

  lemma {:induction false} BytesAreVarint(v: nat)
    ensures IsVarint(VarintBytes(v)) && GroupSum(VarintBytes(v)) == v
  {
    if v >= 0x80 {
      BytesAreVarint(v / 0x80);
      hide IsVarint, GroupSum;
      Prepend(v % 0x80 + 0x80, VarintBytes(v / 0x80));
    }
  }

  /** A value takes at most `k` bytes exactly when it is below 2^(7k). */
  lemma {:induction false} BytesLength(v: nat, k: nat)
    requires k >= 1
    ensures |VarintBytes(v)| <= k <==> v < Pow2(7 * k)
  {
    assert Pow2(7) == 0x80 by { Pow2Values(); }
    hide Pow2;
    if k > 1 {
      var p := Pow2(7 * (k - 1));
      NextGroup(k, 1);
      assert Pow2(7 * k) == 0x80 * p;
      assert p >= 1;
      if v >= 0x80 {
        BytesLength(v / 0x80, k - 1);
        BelowShifted(v, p);
      }
    }
  }

  lemma {:induction false} BelowShifted(v: nat, p: nat)
    ensures v / 0x80 < p <==> v < 0x80 * p
  {}

  /** Among all varints with one group sum, the encoder's is the shortest, and the only one of that
      length. */
  lemma {:induction false} ShortestSum(bs: seq<byte>)
    requires IsVarint(bs)
    ensures |VarintBytes(GroupSum(bs))| <= |bs|
    ensures |VarintBytes(GroupSum(bs))| == |bs| ==> VarintBytes(GroupSum(bs)) == bs
  {
    if |bs| > 1 {
      ShortestSum(bs[1..]);
      hide IsVarint;
      LongerVarint(bs);
    } else {
      assert bs[1..] == [] && GroupSum(bs) == bs[0];
    }
  }

  lemma {:induction false} LongerVarint(bs: seq<byte>)
    requires |bs| > 1 && bs[0] >= 0x80
    ensures var v, rest := GroupSum(bs), VarintBytes(GroupSum(bs[1..]));
            VarintBytes(v) == if v < 0x80 then [v] else [bs[0]] + rest
    ensures |bs| == 1 + |bs[1..]| && bs == [bs[0]] + bs[1..]
  {
    var v := GroupSum(bs);
    assert v / 0x80 == GroupSum(bs[1..]) && v % 0x80 == bs[0] % 0x80;
  }

  lemma {:induction false} ByteBounds(v: nat)
    ensures v < U64 ==> |VarintBytes(v)| <= 10
    ensures v < U32 ==> |VarintBytes(v)| <= 5
  {
    hide VarintBytes;
    assert Pow2(64) == U64 && Pow2(32) == U32 by { Pow2Values(); }
    hide Pow2;
    Pow2Monotone(64, 70);
    Pow2Monotone(32, 35);
    BytesLength(v, 10);
    BytesLength(v, 5);
  }

  lemma {:induction false} EndOfBytes(v: nat, t: seq<byte>, max: nat)
    requires |VarintBytes(v)| <= max
    ensures var bs := VarintBytes(v) + t;
            VarintEnd(bs, max) == Some(|VarintBytes(v)|)
            && GroupSum(bs[..|VarintBytes(v)|]) == v && bs[|VarintBytes(v)|..] == t
  {
    hide GroupSum, VarintEnd, VarintBytes;
    var bs := VarintBytes(v);
    BytesAreVarint(v);
    EndOfVarint(bs, t, max);
    assert (bs + t)[..|bs|] == bs && (bs + t)[|bs|..] == t;
  }

  /** The 64-bit reader succeeds exactly when one of the first ten bytes ends the varint; it takes
      the bytes through that one and yields the sum of their 7-bit groups modulo 2^64. */
  lemma {:induction false} ReadMeaning(bs: seq<byte>)
    ensures ReadVarint(bs).Got? <==> exists k :: 0 <= k < |bs| && k < 10 && bs[k] < 0x80
    ensures ReadVarint(bs).Got? ==>
              var n := |bs| - |ReadVarint(bs).rest|;
              && 1 <= n <= 10 && IsVarint(bs[..n]) && ReadVarint(bs).rest == bs[n..]
              && ReadVarint(bs).value == GroupSum(bs[..n]) % U64
  {
    EndIffTerminator(bs, 10);
  }

  /** Decoding an encoded 64-bit value gives it back and stops right after it. */
  lemma {:induction false} VarintRoundTrip(v: nat, t: seq<byte>)
    requires v < U64
    ensures 1 <= |VarintBytes(v)| <= 10
    ensures ReadVarint(VarintBytes(v) + t) == Got(v, t)
  {
    hide GroupSum, VarintEnd, VarintBytes;
    ByteBounds(v);
    EndOfBytes(v, t, 10);
  }

  /** A varint read as `v` to its end. */
  predicate ReadsAs(bs: seq<byte>, v: nat) {
    ReadVarint(bs) == Got(v, [])
  }

  lemma {:induction false} ShortestRead(bs: seq<byte>, v: nat)
    requires ReadsAs(bs, v)
    ensures |VarintBytes(v)| <= |bs|
    ensures v < U64 / 2 && |VarintBytes(v)| == |bs| ==> bs == VarintBytes(v)
  {
    hide VarintEnd, VarintBytes, IsVarint;
    ReadMeaning(bs);
    assert bs[..|bs|] == bs;
    var g := GroupSum(bs);
    hide GroupSum;
    ShortestSum(bs);
    FewerBytes(v, g);
    if v < U64 / 2 && |VarintBytes(v)| == |bs| {
      SignBit();
      BytesLength(v, 9);
      BytesLength(g, 9);
    }
  }

  lemma {:induction false} SignBit()
    ensures Pow2(7 * 9) == U64 / 2
  {
    Pow2Values();
    assert Pow2(64) == 2 * Pow2(63);
  }

  lemma {:induction false} FewerBytes(v: nat, g: nat)
    requires v <= g
    ensures |VarintBytes(v)| <= |VarintBytes(g)|
  {
    hide VarintBytes, Pow2;
    BytesLength(v, |VarintBytes(g)|);
    BytesLength(g, |VarintBytes(g)|);
  }

  lemma {:induction false} TenBytes(v: nat)
    requires U64 / 2 <= v < 2 * U64
    ensures |VarintBytes(v)| == 10
  {
    SignBit();
    assert Pow2(7 * 10) == 0x80 * Pow2(7 * 9) by { Pow2Sum(7, 63); Pow2Values(); }
    hide VarintBytes, Pow2;
    BytesLength(v, 9);
    BytesLength(v, 10);
  }

  /** The tenth byte of a large value has room for a bit the reader drops. */
  lemma {:induction false} Ambiguous(v: nat) returns (bs: seq<byte>)
    requires U64 / 2 <= v < U64
    ensures ReadsAs(bs, v) && |bs| == |VarintBytes(v)| && bs != VarintBytes(v)
  {
    hide VarintBytes, VarintEnd, GroupSum;
    TenBytes(v);
    TenBytes(v + U64);
    bs := VarintBytes(v + U64);
    BytesAreVarint(v);
    EndOfBytes(v + U64, [], 10);
    assert bs + [] == bs && bs[..|bs|] == bs;
  }

  /** Nothing shorter than the encoder's output reads back as `v`, and nothing else of its length
      does exactly when `v` is below 2^63: the reader drops bits beyond the 64th. */
  lemma {:induction false} ShortestUnique(v: nat)
    requires v < U64
    ensures ReadsAs(VarintBytes(v), v)
    ensures forall bs :: ReadsAs(bs, v) ==> |VarintBytes(v)| <= |bs|
    ensures (forall bs :: ReadsAs(bs, v) && |bs| == |VarintBytes(v)| ==> bs == VarintBytes(v)) <==> v < U64 / 2
  {
    hide VarintBytes, ReadVarint;
    VarintRoundTrip(v, []);
    assert VarintBytes(v) + [] == VarintBytes(v);
    forall bs | ReadsAs(bs, v)
      ensures |VarintBytes(v)| <= |bs|
      ensures v < U64 / 2 && |VarintBytes(v)| == |bs| ==> bs == VarintBytes(v)
    {
      ShortestRead(bs, v);
    }
    if v >= U64 / 2 {
      var other := Ambiguous(v);
    }
  }

  lemma {:induction false} Varint32RoundTrip(v: nat, t: seq<byte>)
    requires v < U32
    ensures ReadVarint32(VarintBytes(v) + t) == Got(v, t)
  {
    hide GroupSum, VarintEnd, VarintBytes;
    ByteBounds(v);
    EndOfBytes(v, t, 5);
  }

  /** The 32-bit reader succeeds exactly on terminators within five bytes, and then it is the
      64-bit reader taken modulo 2^32. */
  lemma {:induction false} Read32RefinesRead64(bs: seq<byte>)
    ensures ReadVarint32(bs).Got? <==> exists k :: 0 <= k < |bs| && k < 5 && bs[k] < 0x80
    ensures ReadVarint32(bs).Got? ==>
              && ReadVarint(bs).Got?
              && ReadVarint(bs).rest == ReadVarint32(bs).rest
              && ReadVarint(bs).value % U32 == ReadVarint32(bs).value
  {
    EndIffTerminator(bs, 5);
    if ReadVarint32(bs).Got? {
      EndLater(bs, 5, 10);
      ModMod(GroupSum(bs[..VarintEnd(bs, 5).value]));
    }
  }

  lemma {:induction false} ModMod(x: nat)
    ensures (x % U64) % U32 == x % U32
  {
    assert U64 == U32 * U32;
  }

  lemma {:induction false} Pow2Monotone(a: nat, b: nat)
    requires a <= b
    ensures Pow2(a) <= Pow2(b)
  {
    Pow2Sum(a, b - a);
    assert Pow2(a) * Pow2(b - a) >= Pow2(a);
  }

  lemma {:induction false} ReadExtends(bs: seq<byte>, t: seq<byte>)
    ensures ReadVarint(bs).Got? ==>
              ReadVarint(bs + t) == Got(ReadVarint(bs).value, ReadVarint(bs).rest + t)
    ensures ReadVarint32(bs).Got? ==>
              ReadVarint32(bs + t) == Got(ReadVarint32(bs).value, ReadVarint32(bs).rest + t)
  {
    if VarintEnd(bs, 10).Some? {
      EndExtends(bs, t, 10);
      var n := VarintEnd(bs, 10).value;
      assert (bs + t)[..n] == bs[..n] && (bs + t)[n..] == bs[n..] + t;
    }
    if VarintEnd(bs, 5).Some? {
      EndExtends(bs, t, 5);
      var n := VarintEnd(bs, 5).value;
      assert (bs + t)[..n] == bs[..n] && (bs + t)[n..] == bs[n..] + t;
    }
  }

  lemma {:induction false} FrameExtends(bs: seq<byte>, t: seq<byte>)
    ensures ReadFrame(bs).Got? ==>
              ReadFrame(bs + t) == Got(ReadFrame(bs).value, ReadFrame(bs).rest + t)
  {
    ReadExtends(bs, t);
    match ReadVarint32(bs)
    case Fail =>
    case Got(n, rest) =>
      if n <= |rest| {
        assert (rest + t)[..n] == rest[..n] && (rest + t)[n..] == rest[n..] + t;
      }
  }

  lemma {:induction false} FrameRoundTrip(body: seq<byte>, t: seq<byte>)
    requires |body| < U32
    ensures ReadFrame(Framed(body) + t) == Got(body, t)
  {
    assert Framed(body) + t == VarintBytes(|body|) + (body + t);
    Varint32RoundTrip(|body|, body + t);
    assert (body + t)[..|body|] == body && (body + t)[|body|..] == t;
  }
}
