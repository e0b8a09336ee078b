/** The numeric field types: their stored ranges, wire forms and the decoder's narrowing casts. */
module Numbers {
  import opened Words
  import opened Varint

  datatype NumType = Signed | Unsigned | ZigZagged | Fixed32 | Fixed64

  /** 2^(8w) for the C integer widths; 0 for a width no C integer has. */
  function Top(w: nat): nat {
    match w
    case 1 => 0x100
    case 2 => 0x1_0000
    case 4 => U32
    case 8 => U64
    case _ => 0
  }

  /** C's conversion of an integer to the signed type with 2^(8w) values. */
  function Cast(x: int, top: nat): int
    requires top > 0
  {
    if x % top < top / 2 then x % top else x % top - top
  }

  function ZigZag(x: int): nat {
    if x < 0 then -2 * x - 1 else 2 * x
  }

  function UnZigZag(n: nat): int {
    if n % 2 == 1 then -(n / 2) - 1 else n / 2
  }

  /** The values a member of `w` bytes can hold. */
  predicate InRange(ty: NumType, w: nat, n: int) {
    match ty
    case Signed => -(Top(w) / 2) <= n < Top(w) / 2
    case ZigZagged => -(Top(w) / 2) <= n < Top(w) / 2
    case Unsigned => 0 <= n < Top(w)
    case Fixed32 => 0 <= n < U32
    case Fixed64 => 0 <= n < U64
  }

  function LittleEndian(n: nat, k: nat): (bs: seq<byte>)
    ensures |bs| == k
  {
    if k == 0 then [] else [n % 0x100] + LittleEndian(n / 0x100, k - 1)
  }

  function LittleEndianValue(bs: seq<byte>): nat {
    if bs == [] then 0 else bs[0] + 0x100 * LittleEndianValue(bs[1..])
  }

  function NumBytes(ty: NumType, n: int): (bs: seq<byte>)
    ensures |bs| >= 1
  {
    match ty
    case Signed => VarintBytes(n % U64)
    case Unsigned => VarintBytes(n % U64)
    case ZigZagged => VarintBytes(ZigZag(n))
    case Fixed32 => LittleEndian(n % U32, 4)
    case Fixed64 => LittleEndian(n % U64, 8)
  }

  function ReadFixed(k: nat, bs: seq<byte>): Read<nat> {
    if |bs| < k then Fail else Got(LittleEndianValue(bs[..k]), bs[k..])
  }

  /** Narrowing of a signed varint: through int32 first, unless the member has eight bytes. */
  function NarrowSigned(v: nat, w: nat): Option<int> {
    if Top(w) == 0 then None
    else
      var s := if w == 8 then Cast(v, U64) else Cast(v, U32);
      var clamped := Cast(s, Top(w));
      if clamped == s then Some(clamped) else None
  }

  function NarrowUnsigned(v: nat, w: nat): Option<int> {
    if Top(w) == 0 then None else if v % Top(w) == v then Some(v) else None
  }

  function NarrowZigZag(v: nat, w: nat): Option<int> {
    if Top(w) == 0 then None
    else
      var s := UnZigZag(v);
      if Cast(s, Top(w)) == s then Some(s) else None
  }

  function Narrow(ty: NumType, v: nat, w: nat): Option<int> {
    match ty
    case Signed => NarrowSigned(v, w)
    case Unsigned => NarrowUnsigned(v, w)
    case ZigZagged => NarrowZigZag(v, w)
    case Fixed32 => Some(v)
    case Fixed64 => Some(v)
  }

  /** The unread bytes after a numeric payload; the value itself does not matter for them. */
  function ReadRaw(ty: NumType, bs: seq<byte>): (r: Read<nat>)
    ensures r.Got? ==> |r.rest| < |bs|
  {
    match ty
    case Fixed32 => ReadFixed(4, bs)
    case Fixed64 => ReadFixed(8, bs)
    case _ => ReadVarint(bs)
  }

  function ReadNum(ty: NumType, w: nat, bs: seq<byte>): (r: Read<int>)
    ensures r.Got? ==> |r.rest| < |bs|
  {
    match ReadRaw(ty, bs)
    case Fail => Fail
    case Got(v, rest) =>
      match Narrow(ty, v, w)
      case None => Fail
      case Some(n) => Got(n, rest)
  }

  lemma {:induction false} UpperBytes(n: nat, k: nat)
    requires k > 0 && n < Pow2(8 * k)
    ensures n / 0x100 < Pow2(8 * (k - 1))
  {
    assert Pow2(8) == 0x100 by { Pow2Values(); }
    hide Pow2;
    Pow2Sum(8, 8 * (k - 1));
  }

  lemma {:induction false} LittleEndianRoundTrip(n: nat, k: nat)
    requires n < Pow2(8 * k)
    ensures LittleEndianValue(LittleEndian(n, k)) == n
  {
    assert Pow2(0) == 1;
    hide Pow2;
    if k > 0 {
      UpperBytes(n, k);
      LittleEndianRoundTrip(n / 0x100, k - 1);
      assert LittleEndian(n, k)[1..] == LittleEndian(n / 0x100, k - 1);
    }
  }

  lemma {:induction false} LittleEndianBound(bs: seq<byte>)
    ensures LittleEndianValue(bs) < Pow2(8 * |bs|)
  {
    if bs != [] {
      Pow2Sum(8, 8 * |bs[1..]|);
      Pow2Values();
      LittleEndianBound(bs[1..]);
    }
  }

  /** Zigzag is a bijection between the int64 and uint64 ranges. */
  lemma {:induction false} ZigZagBijection(x: int, n: nat)
    ensures UnZigZag(ZigZag(x)) == x
    ensures ZigZag(UnZigZag(n)) == n
    ensures ZigZag(x) < U64 <==> -(U64 / 2) <= x < U64 / 2
  {
  }

  /** Zigzag counts numbers by magnitude, a negative one before its opposite: 0, -1, 1, -2, 2, ... */
  lemma {:induction false} ZigZagOrder(x: int, y: int)
    ensures ZigZag(0) == 0
    ensures ZigZag(x) < ZigZag(y) <==>
              var a, b := if x < 0 then -x else x, if y < 0 then -y else y;
              a < b || (a == b && x < y)
  {}

  /** A zigzagged number takes at most k bytes exactly when it fits in 7k bits with sign. */
  lemma {:induction false} ZigZagLength(x: int, k: nat)
    requires 1 <= k <= 9
    ensures |NumBytes(ZigZagged, x)| <= k <==> -(Pow2(7 * k - 1) as int) <= x < Pow2(7 * k - 1)
  {
    BytesLength(ZigZag(x), k);
    assert Pow2(7 * k) == 2 * Pow2(7 * k - 1);
  }

  /** C's widths, and what a member of each can hold. */
  lemma {:induction false} WidthsAndRanges(w: nat, n: int)
    ensures Top(w) == if w == 1 || w == 2 || w == 4 || w == 8 then Pow2(8 * w) else 0
    ensures InRange(Fixed32, w, n) <==> 0 <= n < Pow2(32)
    ensures InRange(Fixed64, w, n) <==> 0 <= n < Pow2(64)
    ensures w == 1 || w == 2 || w == 4 || w == 8 ==>
              && (InRange(Unsigned, w, n) <==> 0 <= n < Pow2(8 * w))
              && (InRange(Signed, w, n) <==> -(Pow2(8 * w - 1) as int) <= n < Pow2(8 * w - 1))
              && (InRange(ZigZagged, w, n) <==> -(Pow2(8 * w - 1) as int) <= n < Pow2(8 * w - 1))
  {
    Pow2Values();
    if w == 1 || w == 2 || w == 4 || w == 8 {
      assert Pow2(8 * w) == 2 * Pow2(8 * w - 1);
    }
  }

  /** A cast gives the one number of the signed type that is congruent to its argument. */
  lemma {:induction false} CastIsCongruent(x: int, top: nat)
    requires top > 0 && top % 2 == 0
    ensures -(top / 2) <= Cast(x, top) < top / 2 && Cast(x, top) % top == x % top
  {
    var r := x % top;
    Representative(r, top);
  }

  lemma {:induction false} Representative(r: nat, top: nat)
    requires top > 0 && r < top
    ensures r % top == r && (r - top) % top == r
  {
    ModUnique(r, 0, top, r);
    ModUnique(r - top, -1, top, r);
  }

  /** A cast keeps exactly the values the signed type holds. */
  lemma {:induction false} CastKeeps(x: int, top: int)
    requires top > 0 && top % 2 == 0
    ensures Cast(x, top) == x <==> -(top / 2) <= x < top / 2
  {
    if 0 <= x < top {
      ModUnique(x, 0, top, x);
    } else if -top <= x < 0 {
      ModUnique(x, -1, top, x + top);
    }
  }

  /** A signed number written as a 64-bit pattern comes back, even when read through int32. */
  lemma {:induction false} SignThroughU64(n: int, w: nat)
    requires Top(w) > 0 && InRange(Signed, w, n)
    ensures NarrowSigned(n % U64, w) == Some(n)
  {
    CastKeeps(n, Top(w));
    assert n % U64 == if n < 0 then n + U64 else n;
    assert Top(w) <= U32 || w == 8;
    if w != 8 {
      assert (n % U64) % U32 == n % U32;
      CastKeeps(n, U32);
      assert Cast(n % U64, U32) == Cast(n, U32) == n;
    } else {
      CastKeeps(n, U64);
      assert Cast(n % U64, U64) == Cast(n, U64) == n;
    }
  }

  /** Values written by old encoders as five-byte varints (taken modulo 2^32) decode the same. */
  lemma {:induction false} LegacyNegatives(n: int, w: nat)
    requires w == 1 || w == 2 || w == 4
    requires InRange(Signed, w, n)
    ensures |VarintBytes(n % U32)| <= 5
    ensures NarrowSigned(n % U32, w) == Some(n) == NarrowSigned(n % U64, w)
  {
    SignThroughU64(n, w);
    CastKeeps(n, Top(w));
    CastKeeps(n, U32);
    assert Cast(n % U32, U32) == Cast(n, U32) == n;
    ByteBounds(n % U32);
  }

  /** Unsigned and zigzag members accept exactly the values that fit them; signed ones accept
      exactly the 64-bit patterns whose int32 (or int64) reading fits. */
  lemma {:induction false} NarrowAccepts(v: nat, w: nat)
    requires v < U64 && Top(w) > 0
    ensures NarrowUnsigned(v, w).Some? <==> v < Top(w)
    ensures NarrowZigZag(v, w).Some? <==> InRange(ZigZagged, w, UnZigZag(v))
    ensures NarrowSigned(v, w).Some? <==>
              InRange(Signed, w, if w == 8 then Cast(v, U64) else Cast(v, U32))
  {
    CastKeeps(UnZigZag(v), Top(w));
    CastKeeps(if w == 8 then Cast(v, U64) else Cast(v, U32), Top(w));
    if v < Top(w) {
      ModUnique(v, 0, Top(w), v);
    }
  }

  /** What is stored of a varint that is accepted: the value itself, its zigzag number, or the number
      congruent to it modulo 2^32 (2^64 for eight-byte members). */
  lemma {:induction false} NarrowMeaning(v: nat, w: nat)
    requires v < U64 && Top(w) > 0
    ensures NarrowUnsigned(v, w).Some? ==> NarrowUnsigned(v, w).value == v
    ensures NarrowZigZag(v, w).Some? ==> NarrowZigZag(v, w).value == UnZigZag(v)
    ensures NarrowSigned(v, w).Some? ==>
              var m := if w == 8 then Pow2(64) else Pow2(32);
              NarrowSigned(v, w).value % m == v % m
  {
    assert Pow2(64) == U64 && Pow2(32) == U32 by { Pow2Values(); }
    CastIsCongruent(v, if w == 8 then U64 else U32);
  }

  /** The wire number behind a stored value. */
  function WireNumber(ty: NumType, n: int): nat {
    match ty
    case Signed => n % U64
    case Unsigned => n % U64
    case ZigZagged => ZigZag(n)
    case Fixed32 => n % U32
    case Fixed64 => n % U64
  }

  lemma {:induction false} RawRoundTrip(ty: NumType, n: int, t: seq<byte>)
    requires WireNumber(ty, n) < U64
    ensures ReadRaw(ty, NumBytes(ty, n) + t) == Got(WireNumber(ty, n), t)
  {
    match ty
    case Fixed32 =>
      Pow2Values();
      FixedRoundTrip(n % U32, 4, t);
    case Fixed64 =>
      Pow2Values();
      FixedRoundTrip(n % U64, 8, t);
    case _ =>
      VarintRoundTrip(WireNumber(ty, n), t);
  }

  lemma {:induction false} NarrowRoundTrip(ty: NumType, w: nat, n: int)
    requires Top(w) > 0 && InRange(ty, w, n)
    ensures WireNumber(ty, n) < U64 && Narrow(ty, WireNumber(ty, n), w) == Some(n)
  {
    hide Cast, NarrowSigned;
    match ty
    case Signed =>
      SignThroughU64(n, w);
    case Unsigned =>
      assert Top(w) <= U64;
      NarrowAccepts(n, w);
      assert n % U64 == n;
    case ZigZagged =>
      assert Top(w) <= U64;
      ZigZagBijection(n, 0);
      CastKeeps(n, Top(w));
    case _ =>
  }

  /** Every representable value survives encoding and decoding, at every width. */
  lemma {:induction false} NumRoundTrip(ty: NumType, w: nat, n: int, t: seq<byte>)
    requires Top(w) > 0 && InRange(ty, w, n)
    ensures ReadNum(ty, w, NumBytes(ty, n) + t) == Got(n, t)
  {
    NarrowRoundTrip(ty, w, n);
    RawRoundTrip(ty, n, t);
  }

  lemma {:induction false} FixedRoundTrip(n: nat, k: nat, t: seq<byte>)
    requires n < Pow2(8 * k)
    ensures ReadFixed(k, LittleEndian(n, k) + t) == Got(n, t)
  {
    LittleEndianRoundTrip(n, k);
    var b := LittleEndian(n, k);
    assert (b + t)[..k] == b && (b + t)[k..] == t;
  }

  /** Whatever the decoder stores fits the member. */
  lemma {:induction false} ReadNumInRange(ty: NumType, w: nat, bs: seq<byte>)
    requires Top(w) > 0
    ensures ReadNum(ty, w, bs).Got? ==> InRange(ty, w, ReadNum(ty, w, bs).value)
  {
    assert Pow2(32) == U32 && Pow2(64) == U64 by { Pow2Values(); }
    hide Pow2, LittleEndianValue, ReadVarint;
    match ty
    case Fixed32 =>
      if |bs| >= 4 { LittleEndianBound(bs[..4]); }
    case Fixed64 =>
      if |bs| >= 8 { LittleEndianBound(bs[..8]); }
    case _ =>
      if ReadRaw(ty, bs).Got? {
        NarrowInRange(ty, ReadRaw(ty, bs).value, w);
      }
  }

  lemma {:induction false} NarrowInRange(ty: NumType, v: nat, w: nat)
    requires Top(w) > 0 && v < U64 && !ty.Fixed32? && !ty.Fixed64?
    ensures Narrow(ty, v, w).Some? ==> InRange(ty, w, Narrow(ty, v, w).value)
  {
    NarrowAccepts(v, w);
  }

  /** Bytes after a complete payload are left alone and do not change it. */
  lemma {:induction false} ReadNumExtends(ty: NumType, w: nat, bs: seq<byte>, t: seq<byte>)
    ensures ReadRaw(ty, bs).Got? ==>
              && ReadRaw(ty, bs + t) == Got(ReadRaw(ty, bs).value, ReadRaw(ty, bs).rest + t)
    ensures ReadNum(ty, w, bs).Got? ==>
              ReadNum(ty, w, bs + t) == Got(ReadNum(ty, w, bs).value, ReadNum(ty, w, bs).rest + t)
  {
    ReadExtends(bs, t);
    if ty.Fixed32? && |bs| >= 4 {
      assert (bs + t)[..4] == bs[..4] && (bs + t)[4..] == bs[4..] + t;
    }
    if ty.Fixed64? && |bs| >= 8 {
      assert (bs + t)[..8] == bs[..8] && (bs + t)[8..] == bs[8..] + t;
    }
  }
}
