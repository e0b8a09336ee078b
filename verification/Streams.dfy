/** Bounded input and output streams over byte buffers. */
module Streams {
  import opened Words
  import opened Varint
  import opened Numbers

  /** An input stream: a window of `bytesLeft` bytes at `state` over a read-only buffer. */
  class IStream {
    const data: seq<byte>
    var state: nat
    var bytesLeft: nat

    ghost predicate Valid()
      reads this
    {
      state + bytesLeft <= |data|
    }

    /** The bytes the stream may still read. */
    ghost function Rest(): (s: seq<byte>)
      requires Valid()
      reads this
      ensures |s| == bytesLeft
    {
      data[state..state + bytesLeft]
    }

    ghost function End(): nat
      reads this
    {
      state + bytesLeft
    }

    constructor FromBuffer(buf: seq<byte>)
      ensures Valid() && Rest() == buf == data && state == 0
    {
      data := buf;
      state := 0;
      bytesLeft := |buf|;
    }

    /** The structure copy made for a substream, cut to `size` bytes. */
    constructor Slice(buf: seq<byte>, start: nat, size: nat)
      requires start + size <= |buf|
      ensures Valid() && data == buf && state == start && bytesLeft == size
    {
      data := buf;
      state := start;
      bytesLeft := size;
    }

    method BufRead(count: nat) returns (buf: seq<byte>)
      requires Valid() && count <= bytesLeft
      modifies `state
      ensures buf == data[old(state)..old(state) + count]
      ensures state == old(state) + count
    {
      var source := state;
      state := state + count;
      buf := [];
      for i := 0 to count
        invariant buf == data[source..source + i]
      {
        buf := buf + [data[source + i]];
      }
    }

    method Read(count: nat) returns (ok: bool, buf: seq<byte>)
      requires Valid()
      modifies this
      ensures Valid()
      ensures ok <==> count <= old(bytesLeft)
      ensures ok ==> buf == old(Rest())[..count] && Rest() == old(Rest())[count..] && End() == old(End())
      ensures !ok ==> state == old(state) && bytesLeft == old(bytesLeft)
    {
      if bytesLeft < count {
        return false, [];
      }
      buf := BufRead(count);
      bytesLeft := bytesLeft - count;
      ok := true;
    }

    method ReadByte() returns (ok: bool, b: byte)
      requires Valid()
      modifies this
      ensures Valid()
      ensures ok <==> old(bytesLeft) > 0
      ensures ok ==> b == old(Rest())[0] && Rest() == old(Rest())[1..] && End() == old(End())
      ensures !ok ==> state == old(state) && bytesLeft == old(bytesLeft)
    {
      if bytesLeft == 0 {
        return false, 0;
      }
      b := data[state];
      state := state + 1;
      bytesLeft := bytesLeft - 1;
      ok := true;
    }

    method DecodeVarint() returns (ok: bool, dest: nat)
      requires Valid()
      modifies this
      ensures Valid() && End() == old(End())
      ensures match ReadVarint(old(Rest()))
              case Got(v, rest) => ok && dest == v && Rest() == rest
              case Fail => !ok
    {
      ghost var all := Rest();
      ghost var n := 0;
      var bitpos, result, more := 0, 0, true;
      while more
        invariant Valid() && End() == old(End())
        invariant n <= |all| && n <= 10 && Rest() == all[n..] && bitpos == 7 * n
        invariant result == GroupSum(all[..n]) % U64
        invariant if more then AllContinue(all, n) else Terminated(all, n)
        decreases more, bytesLeft
      {
        if bitpos >= 64 {
          NoTerminator(all, n, 10);
          return false, 0;
        }
        var got, b := ReadByte();
        if !got {
          NoTerminator(all, n, 10);
          return false, 0;
        }
        AppendGroup(all, n, 64, U64);
        result := BitOr(result, ((b % 0x80) * Pow2(bitpos)) % U64);
        bitpos := bitpos + 7;
        n := n + 1;
        more := b >= 0x80;
      }
      TerminatorAt(all, n, 10);
      return true, result;
    }

    /** On failure the stream has also lost the bytes looked at: all of them, or five. */
    method DecodeVarint32() returns (ok: bool, dest: nat)
      requires Valid()
      modifies this
      ensures Valid() && End() == old(End())
      ensures match ReadVarint32(old(Rest()))
              case Got(v, rest) => ok && dest == v && Rest() == rest
              case Fail => !ok && bytesLeft == if old(bytesLeft) <= 5 then 0 else old(bytesLeft) - 5
    {
      hide BitOr, Pow2, GroupSum, VarintEnd;
      ghost var all := Rest();
      var got, b := ReadByte();
      if !got {
        return false, 0;
      }
      assert all[..1] == [b];
      GroupSumOne(b);
      if b < 0x80 {
        TerminatorAt(all, 1, 5);
        return true, b;
      }
      var bitpos, result, more := 7, b % 0x80, true;
      ghost var n := 1;
      while more
        invariant Valid() && End() == old(End())
        invariant 1 <= n <= |all| && n <= 5 && Rest() == all[n..] && bitpos == 7 * n
        invariant result == GroupSum(all[..n]) % U32
        invariant if more then AllContinue(all, n) else Terminated(all, n)
        decreases more, bytesLeft
      {
        if bitpos >= 32 {
          NoTerminator(all, n, 5);
          return false, 0;
        }
        got, b := ReadByte();
        if !got {
          NoTerminator(all, n, 5);
          return false, 0;
        }
        AppendGroup(all, n, 32, U32);
        result := BitOr(result, ((b % 0x80) * Pow2(bitpos)) % U32);
        bitpos := bitpos + 7;
        n := n + 1;
        more := b >= 0x80;
      }
      TerminatorAt(all, n, 5);
      return true, result;
    }

    method DecodeSVarint() returns (ok: bool, dest: int)
      requires Valid()
      modifies this
      ensures Valid() && End() == old(End())
      ensures match ReadVarint(old(Rest()))
              case Got(v, rest) =>
                ok && dest == UnZigZag(v) == (if v % 2 == 1 then -(v / 2) - 1 else v / 2) && Rest() == rest
              case Fail => !ok
    {
      var value: nat;
      ok, value := DecodeVarint();
      if !ok {
        return false, 0;
      }
      if value % 2 == 1 {
        dest := Cast(U64 - 1 - value / 2, U64);
      } else {
        dest := Cast(value / 2, U64);
      }
    }

    method DecodeFixed32() returns (ok: bool, dest: nat)
      requires Valid()
      modifies this
      ensures Valid() && End() == old(End())
      ensures match ReadFixed(4, old(Rest()))
              case Got(v, rest) => ok && dest == v && Rest() == rest
              case Fail => !ok
    {
      var bytes: seq<byte>;
      ok, bytes := Read(4);
      if !ok {
        return false, 0;
      }
      Join4IsValue(bytes);
      dest := Join4(bytes);
    }

    method DecodeFixed64() returns (ok: bool, dest: nat)
      requires Valid()
      modifies this
      ensures Valid() && End() == old(End())
      ensures match ReadFixed(8, old(Rest()))
              case Got(v, rest) => ok && dest == v && Rest() == rest
              case Fail => !ok
    {
      var bytes: seq<byte>;
      ok, bytes := Read(8);
      if !ok {
        return false, 0;
      }
      Join8IsValue(bytes);
      dest := Join8(bytes);
    }

    method SkipVarint() returns (ok: bool)
      requires Valid()
      modifies this
      ensures Valid() && End() == old(End())
      ensures match VarintEnd(old(Rest()), old(bytesLeft))
              case Some(n) => ok && Rest() == old(Rest())[n..]
              case None => !ok
    {
      ghost var all := Rest();
      ghost var n := 0;
      var more := true;
      while more
        invariant Valid() && End() == old(End())
        invariant n <= |all| && Rest() == all[n..]
        invariant if more then AllContinue(all, n) else Terminated(all, n)
        decreases more, bytesLeft
      {
        var got, b := Read(1);
        if !got {
          NoTerminator(all, n, |all|);
          return false;
        }
        assert all[n..][1..] == all[n + 1..] && b == [all[n]];
        n := n + 1;
        more := b[0] >= 0x80;
      }
      TerminatorAt(all, n, |all|);
      return true;
    }

    method SkipString() returns (ok: bool)
      requires Valid()
      modifies this
      ensures Valid() && End() == old(End())
      ensures match ReadFrame(old(Rest()))
              case Got(_, rest) => ok && Rest() == rest
              case Fail => !ok
    {
      var length: nat;
      ok, length := DecodeVarint32();
      if !ok {
        return false;
      }
      var skipped;
      ok, skipped := Read(length);
    }

    /** Opens a length-limited window. Until it is closed, the parent has given up the window's
        bytes but still stands in front of them. */
    method MakeStringSubstream() returns (ok: bool, sub: IStream?)
      requires Valid()
      modifies this
      ensures Valid() && End() <= old(End())
      ensures ok <==> ReadFrame(old(Rest())).Got?
      ensures ok ==>
                && sub != null && fresh(sub) && sub.Valid() && sub.data == data
                && sub.Rest() == ReadFrame(old(Rest())).value
                && bytesLeft == |ReadFrame(old(Rest())).rest|
                && sub.End() + bytesLeft == old(End())
                && data[sub.End()..sub.End() + bytesLeft] == ReadFrame(old(Rest())).rest
    {
      var size: nat;
      sub := null;
      ok, size := DecodeVarint32();
      if !ok {
        return;
      }
      if bytesLeft < size {
        return false, null;
      }
      sub := new IStream.Slice(data, state, size);
      bytesLeft := bytesLeft - size;
    }

    /** Skips what the window's reader left over and moves the parent past the window. */
    method CloseStringSubstream(sub: IStream) returns (ok: bool)
      requires Valid() && sub != this && sub.Valid() && sub.data == data
      requires sub.End() + bytesLeft <= |data|
      modifies this, sub
      ensures ok && Valid()
      ensures state == old(sub.End()) && bytesLeft == old(bytesLeft)
      ensures Rest() == data[old(sub.End())..old(sub.End()) + old(bytesLeft)]
    {
      if sub.bytesLeft != 0 {
        var skipped;
        ok, skipped := sub.Read(sub.bytesLeft);
        if !ok {
          return false;
        }
      }
      state := sub.state;
      return true;
    }
  }

  datatype Window = Window(callback: bool, base: nat, maxSize: nat)

  /** An output stream's state at one moment, with the whole underlying buffer. */
  datatype Snapshot = Snapshot(window: Window, bytes: seq<byte>, state: nat, written: nat)
  {
    ghost predicate Valid() {
      if window.callback then
        && state == window.base + written
        && written <= window.maxSize
        && window.base + window.maxSize <= |bytes|
      else state == 0
    }
  }

  /** A write succeeds iff the data is acceptable and fits; success appends exactly `bs`. On every
      path the bytes before and everything beyond the limit stay, and so does, after a success,
      everything behind the new end. */
  ghost predicate Extends(s0: Snapshot, s1: Snapshot, acceptable: bool, bs: seq<byte>, ok: bool) {
    && s0.Valid() && s1.Valid() && s0.window == s1.window && |s0.bytes| == |s1.bytes|
    && ok == (acceptable && (s0.window.callback ==> s0.written + |bs| <= s0.window.maxSize))
    && s0.written <= s1.written
    && (ok ==> s1.written == s0.written + |bs|)
    && (if s0.window.callback then
          && s1.bytes[..s0.state] == s0.bytes[..s0.state]
          && (ok ==> s1.bytes[s0.state..s1.state] == bs && s1.bytes[s1.state..] == s0.bytes[s1.state..])
          && s1.bytes[s0.window.base + s0.window.maxSize..] == s0.bytes[s0.window.base + s0.window.maxSize..]
        else s1.bytes == s0.bytes)
  }

  /** Writing nothing. */
  lemma {:induction false} ExtendsNothing(s0: Snapshot)
    requires s0.Valid()
    ensures Extends(s0, s0, true, [], true)
  {}

  /** Two writes in a row are one write of both parts. */
  lemma {:induction false} ExtendsThen(s0: Snapshot, s1: Snapshot, s2: Snapshot, a: seq<byte>,
                                       acceptable: bool, b: seq<byte>, ok: bool)
    requires Extends(s0, s1, true, a, true) && Extends(s1, s2, acceptable, b, ok)
    ensures Extends(s0, s2, acceptable, a + b, ok)
  {
    if s0.window.callback {
      assert s2.bytes[..s0.state] == s2.bytes[..s1.state][..s0.state];
      assert s1.bytes[..s0.state] == s1.bytes[..s1.state][..s0.state];
      if ok {
        assert s2.bytes[s0.state..s1.state] == s2.bytes[..s1.state][s0.state..];
        assert s1.bytes[s0.state..s1.state] == s1.bytes[..s1.state][s0.state..];
        assert s2.bytes[s0.state..s2.state] == s2.bytes[s0.state..s1.state] + s2.bytes[s1.state..s2.state];
        assert s1.bytes[s2.state..] == s1.bytes[s1.state..][s2.state - s1.state..];
        assert s0.bytes[s2.state..] == s0.bytes[s1.state..][s2.state - s1.state..];
      }
    }
  }

  /** A failed first part is a failure of the whole. */
  lemma {:induction false} ExtendsStop(s0: Snapshot, s1: Snapshot, first: bool, a: seq<byte>, acceptable: bool,
                                       b: seq<byte>)
    requires Extends(s0, s1, first, a, false) && (acceptable ==> first)
    ensures Extends(s0, s1, acceptable, a + b, false)
  {}

  /** Data that is refused outright leaves everything as it was. */
  lemma {:induction false} ExtendsRefused(s0: Snapshot, bs: seq<byte>)
    requires s0.Valid()
    ensures Extends(s0, s0, false, bs, false)
  {}

  /** Data that does not fit fails whether or not anything of it was written. */
  lemma {:induction false} ExtendsFull(s0: Snapshot, acceptable: bool, bs: seq<byte>)
    requires s0.Valid() && s0.window.callback && s0.written + |bs| > s0.window.maxSize
    ensures Extends(s0, s0, acceptable, bs, false)
  {}

  lemma {:induction false} ExtendsFacts(s0: Snapshot, s1: Snapshot, acceptable: bool, bs: seq<byte>, ok: bool)
    requires Extends(s0, s1, acceptable, bs, ok)
    ensures s0.Valid() && s1.Valid() && s0.window == s1.window
    ensures ok == (acceptable && (s0.window.callback ==> s0.written + |bs| <= s0.window.maxSize))
    ensures ok ==> s1.written == s0.written + |bs|
  {}

  /** A body written through a window of exactly its size is a write of the parent stream. */
  lemma {:induction false} ExtendsSub(s0: Snapshot, s1: Snapshot, t0: Snapshot, t1: Snapshot, body: seq<byte>)
    requires s0.Valid() && s0.window.callback && s0.written + |body| <= s0.window.maxSize
    requires t0 == Snapshot(Window(true, s0.state, |body|), s0.bytes, s0.state, 0)
    requires Extends(t0, t1, true, body, true)
    requires s1 == Snapshot(s0.window, t1.bytes, t1.state, s0.written + t1.written)
    ensures Extends(s0, s1, true, body, true)
  {
    var limit, end := s0.window.base + s0.window.maxSize, s0.state + |body|;
    assert s1.bytes[limit..] == s1.bytes[end..][limit - end..];
    assert s0.bytes[limit..] == s0.bytes[end..][limit - end..];
  }

  /** An output stream: at most `maxSize` bytes from `base` on, or a counter of bytes only. */
  class OStream {
    const callback: bool
    const buf: array<byte>
    const maxSize: nat
    ghost const base: nat
    var state: nat
    var bytesWritten: nat

    ghost predicate Valid()
      reads this
    {
      if callback then
        && state == base + bytesWritten
        && bytesWritten <= maxSize
        && base + maxSize <= buf.Length
      else state == 0
    }

    constructor FromBuffer(buf: array<byte>, bufsize: nat)
      requires bufsize <= buf.Length
      ensures Valid() && callback && this.buf == buf && maxSize == bufsize
      ensures base == 0 && state == 0 && bytesWritten == 0
    {
      callback := true;
      this.buf := buf;
      maxSize := bufsize;
      base := 0;
      state := 0;
      bytesWritten := 0;
    }

    /** A stream that only counts. */
    constructor Sizing()
      ensures Valid() && !callback && bytesWritten == 0 && fresh(buf)
    {
      callback := false;
      buf := new byte[0];
      maxSize := 0;
      base := 0;
      state := 0;
      bytesWritten := 0;
    }

    /** A writing stream over the next `size` bytes of `parent`. */
    constructor Sub(parent: OStream, size: nat)
      requires parent.Valid() && parent.callback
      requires parent.bytesWritten + size <= parent.maxSize
      ensures Valid() && callback && buf == parent.buf && maxSize == size
      ensures base == state == parent.state && bytesWritten == 0
    {
      callback := true;
      buf := parent.buf;
      maxSize := size;
      base := parent.state;
      state := parent.state;
      bytesWritten := 0;
    }

    ghost function Snap(): Snapshot
      reads this, buf
    {
      Snapshot(Window(callback, base, maxSize), buf[..], state, bytesWritten)
    }

    /** What every writer guarantees about the state `s0` it started in. */
    ghost predicate Emitted(s0: Snapshot, acceptable: bool, bs: seq<byte>, ok: bool)
      reads this, buf
    {
      Valid() && Extends(s0, Snap(), acceptable, bs, ok)
    }

    method BufWrite(src: seq<byte>, count: nat)
      requires count == |src| && state + count <= buf.Length
      modifies `state, buf
      ensures state == old(state) + count
      ensures buf[old(state)..state] == src
      ensures buf[..old(state)] == old(buf[..state]) && buf[state..] == old(buf[..])[state..]
    {
      var dest := state;
      state := state + count;
      for i := 0 to count
        invariant state == dest + count
        invariant forall k :: 0 <= k < i ==> buf[dest + k] == src[k]
        invariant forall k :: 0 <= k < buf.Length && (k < dest || dest + i <= k) ==> buf[k] == old(buf[k])
      {
        buf[dest + i] := src[i];
      }
    }

    /** Writes `src`, or only counts `count` bytes; `bs` is the data meant in either case. */
    method Write(src: seq<byte>, count: nat, ghost bs: seq<byte>) returns (ok: bool)
      requires Valid() && count == |bs| && (callback ==> src == bs)
      modifies this, buf
      ensures Emitted(old(Snap()), true, bs, ok)
    {
      if callback {
        if bytesWritten + count > maxSize {
          return false;
        }
        BufWrite(src, count);
        ghost var limit := base + maxSize;
        assert buf[limit..] == buf[state..][limit - state..];
        assert old(buf[..])[limit..] == old(buf[..])[state..][limit - state..];
      }
      bytesWritten := bytesWritten + count;
      return true;
    }

    method EncodeVarint(v: nat) returns (ok: bool)
      requires Valid() && v < U64
      modifies this, buf
      ensures Emitted(old(Snap()), true, VarintBytes(v), ok)
    {
      hide BitOr, Pow2, Produced, VarintBytes, ReadVarint;
      var buffer := new byte[10];
      var i, value := 0, v;
      if value <= 0x7F {
        ShortVarint(v);
        ok := Write([value], 1, [value]);
        return;
      }
      NothingProduced(v);
      assert buffer[..0] == [];
      while value > 0
        invariant 0 <= i <= 10
        invariant Produced(buffer[..i], value, v)
        invariant Valid() && Snap() == old(Snap())
      {
        ProducedFits(buffer[..i], value, v);
        SetTopBit(value % 0x80);
        ghost var before := buffer[..i];
        buffer[i] := BitOr(value % 0x80, 0x80);
        assert buffer[..i + 1] == before + [buffer[i]];
        ProduceOne(before, value, v);
        value := value / 0x80;
        i := i + 1;
      }
      AllProduced(buffer[..i], v);
      ghost var body := buffer[..i - 1];
      assert buffer[..i][..i - 1] == body;
      buffer[i - 1] := buffer[i - 1] % 0x80;
      assert buffer[..i] == body + [buffer[i - 1]];
      ok := Write(buffer[..i], i, buffer[..i]);
    }

    method EncodeSVarint(value: int) returns (ok: bool)
      requires Valid() && -(U64 / 2) <= value < U64 / 2
      modifies this, buf
      ensures Emitted(old(Snap()), true, VarintBytes(ZigZag(value)), ok)
      ensures ZigZag(value) == if value < 0 then -2 * value - 1 else 2 * value
    {
      var pattern := value % U64;
      assert pattern == if value < 0 then value + U64 else value;
      var zigzagged := (pattern * 2) % U64;
      assert zigzagged == if value < 0 then 2 * value + U64 else 2 * value;
      if value < 0 {
        zigzagged := U64 - 1 - zigzagged;
      }
      ok := EncodeVarint(zigzagged);
    }

    method EncodeFixed32(val: nat) returns (ok: bool)
      requires Valid() && val < U32
      modifies this, buf
      ensures Emitted(old(Snap()), true, LittleEndian(val, 4), ok)
    {
      hide LittleEndian;
      var bytes := new byte[4];
      bytes[0] := val % 0x100;
      bytes[1] := (val / 0x100) % 0x100;
      bytes[2] := (val / 0x1_0000) % 0x100;
      bytes[3] := (val / 0x100_0000) % 0x100;
      FourBytes(val);
      assert bytes[..] == LittleEndian(val, 4);
      ok := Write(bytes[..], 4, bytes[..]);
    }

    method EncodeFixed64(val: nat) returns (ok: bool)
      requires Valid() && val < U64
      modifies this, buf
      ensures Emitted(old(Snap()), true, LittleEndian(val, 8), ok)
    {
      hide LittleEndian;
      var bytes := new byte[8];
      bytes[0] := val % 0x100;
      bytes[1] := (val / 0x100) % 0x100;
      bytes[2] := (val / 0x1_0000) % 0x100;
      bytes[3] := (val / 0x100_0000) % 0x100;
      bytes[4] := (val / 0x1_0000_0000) % 0x100;
      bytes[5] := (val / 0x100_0000_0000) % 0x100;
      bytes[6] := (val / 0x1_0000_0000_0000) % 0x100;
      bytes[7] := (val / 0x100_0000_0000_0000) % 0x100;
      EightBytes(val);
      assert bytes[..] == LittleEndian(val, 8);
      ok := Write(bytes[..], 8, bytes[..]);
    }

    method EncodeTag(wiretype: nat, fieldNumber: nat) returns (ok: bool)
      requires Valid() && wiretype < 8 && fieldNumber < U32
      modifies this, buf
      ensures Emitted(old(Snap()), true, VarintBytes(fieldNumber * 8 + wiretype), ok)
    {
      OrDisjoint(wiretype, fieldNumber, 3);
      OrCommutes(fieldNumber * 8, wiretype);
      var tag := BitOr(fieldNumber * 8, wiretype);
      ok := EncodeVarint(tag);
    }

    /** Length prefix and bytes. */
    method EncodeString(bytes: seq<byte>, size: nat) returns (ok: bool)
      requires Valid() && size == |bytes| < U64
      modifies this, buf
      ensures Emitted(old(Snap()), true, Framed(bytes), ok)
    {
      hide Extends;
      ghost var s0 := Snap();
      ok := EncodeVarint(size);
      if !ok {
        ExtendsStop(s0, Snap(), true, VarintBytes(size), true, bytes);
        return;
      }
      ghost var s1 := Snap();
      ok := Write(bytes, size, bytes);
      ExtendsThen(s0, s1, Snap(), VarintBytes(size), true, bytes, ok);
    }
  }

  lemma {:induction false} OrCommutes(x: nat, y: nat)
    ensures BitOr(x, y) == BitOr(y, x)
  {
    if x > 0 && y > 0 {
      OrCommutes(x / 2, y / 2);
    }
  }

  lemma {:induction false} DivDiv(n: nat, a: nat, b: nat)
    requires a > 0 && b > 0
    ensures a * b > 0
    ensures n / a / b == n / (a * b)
  {
    var x, y := n / a, n % a;
    var q, z := x / b, x % b;
    Distribute(a, b * q, z);
    Distribute(a, z, 1);
    Distribute(a, b, -1);
    NoMore(a, z + 1, b);
    Swap(a, q, b);
    ModUnique(n, q, a * b, a * z + y);
  }

  lemma {:induction false} Swap(a: int, b: int, c: int)
    ensures a * (b * c) == b * (a * c)
  {}

  lemma {:induction false} Distribute(a: int, u: int, v: int)
    ensures a * (u + v) == a * u + a * v
  {}

  lemma {:induction false} NoMore(a: nat, u: nat, v: nat)
    requires u <= v
    ensures a * u <= a * v
  {}

  lemma {:induction false} LittleEndianAt(n: nat, k: nat, j: nat)
    requires j < k
    ensures LittleEndian(n, k)[j] == (n / Pow2(8 * j)) % 0x100
  {
    if j > 0 {
      LittleEndianAt(n / 0x100, k - 1, j - 1);
      Pow2Sum(8, 8 * (j - 1));
      assert Pow2(8) == 0x100;
      DivDiv(n, 0x100, Pow2(8 * (j - 1)));
    }
  }

  lemma {:induction false} Pow2Bytes()
    ensures Pow2(0) == 1 && Pow2(8) == 0x100 && Pow2(16) == 0x1_0000 && Pow2(24) == 0x100_0000
    ensures Pow2(32) == 0x1_0000_0000 && Pow2(40) == 0x100_0000_0000
    ensures Pow2(48) == 0x1_0000_0000_0000 && Pow2(56) == 0x100_0000_0000_0000
  {
    Pow2Values();
    Pow2Sum(32, 8);
    Pow2Sum(32, 16);
    Pow2Sum(32, 24);
  }

  lemma {:induction false} FourBytes(n: nat)
    ensures LittleEndian(n, 4)
            == [n % 0x100, n / 0x100 % 0x100, n / 0x1_0000 % 0x100, n / 0x100_0000 % 0x100]
  {
    Pow2Bytes();
    hide LittleEndian, Pow2;
    LittleEndianAt(n, 4, 0);
    LittleEndianAt(n, 4, 1);
    LittleEndianAt(n, 4, 2);
    LittleEndianAt(n, 4, 3);
  }

  lemma {:induction false} EightBytes(n: nat)
    ensures LittleEndian(n, 8)
            == [n % 0x100, n / 0x100 % 0x100, n / 0x1_0000 % 0x100, n / 0x100_0000 % 0x100,
                n / 0x1_0000_0000 % 0x100, n / 0x100_0000_0000 % 0x100,
                n / 0x1_0000_0000_0000 % 0x100, n / 0x100_0000_0000_0000 % 0x100]
  {
    Pow2Bytes();
    hide LittleEndian, Pow2;
    LittleEndianAt(n, 8, 0);
    LittleEndianAt(n, 8, 1);
    LittleEndianAt(n, 8, 2);
    LittleEndianAt(n, 8, 3);
    LittleEndianAt(n, 8, 4);
    LittleEndianAt(n, 8, 5);
    LittleEndianAt(n, 8, 6);
    LittleEndianAt(n, 8, 7);
  }

  /** `out`, all with the top bit set, followed by what is left of `value`, is the varint of `v`. */
  ghost predicate Produced(out: seq<byte>, value: nat, v: nat) {
    if value > 0 then out + VarintBytes(value) == VarintBytes(v)
    else |out| > 0 && out[|out| - 1] >= 0x80 && out[..|out| - 1] + [out[|out| - 1] - 0x80] == VarintBytes(v)
  }

  lemma {:induction false} SetTopBit(x: nat)
    requires x < 0x80
    ensures BitOr(x, 0x80) == x + 0x80
  {
    OrDisjoint(x, 1, 7);
    assert Pow2(7) == 0x80;
  }

  lemma {:induction false} ShortVarint(v: nat)
    ensures v < 0x80 ==> VarintBytes(v) == [v]
  {}

  lemma {:induction false} NothingProduced(v: nat)
    requires v > 0
    ensures Produced([], v, v)
  {
    assert [] + VarintBytes(v) == VarintBytes(v);
  }

  lemma {:induction false} ProducedFits(out: seq<byte>, value: nat, v: nat)
    requires Produced(out, value, v) && value > 0 && v < U64
    ensures |out| < 10
  {
    VarintRoundTrip(v, []);
  }

  lemma {:induction false} ProduceOne(out: seq<byte>, value: nat, v: nat)
    requires Produced(out, value, v) && value > 0
    ensures Produced(out + [value % 0x80 + 0x80], value / 0x80, v)
  {
    var b: byte := value % 0x80 + 0x80;
    if value >= 0x80 {
      assert out + VarintBytes(value) == (out + [b]) + VarintBytes(value / 0x80);
    } else {
      assert (out + [b])[..|out|] == out;
      assert VarintBytes(value) == [b - 0x80];
    }
  }

  lemma {:induction false} AllProduced(out: seq<byte>, v: nat)
    requires Produced(out, 0, v)
    ensures |out| > 0 && out[|out| - 1] % 0x80 == out[|out| - 1] - 0x80
    ensures out[..|out| - 1] + [out[|out| - 1] % 0x80] == VarintBytes(v)
  {}

  ghost predicate AllContinue(all: seq<byte>, n: nat) {
    n <= |all| && forall k :: 0 <= k < n ==> all[k] >= 0x80
  }

  ghost predicate Terminated(all: seq<byte>, n: nat) {
    1 <= n <= |all| && all[n - 1] < 0x80 && AllContinue(all, n - 1)
  }

  lemma {:induction false} NoTerminator(all: seq<byte>, n: nat, max: nat)
    requires AllContinue(all, n) && n <= max && (n == max || n == |all|)
    ensures VarintEnd(all, max) == None
  {
    EndIffTerminator(all, max);
  }

  lemma {:induction false} TerminatorAt(all: seq<byte>, n: nat, max: nat)
    requires Terminated(all, n) && n <= max
    ensures VarintEnd(all, max) == Some(n)
  {
    EndOfVarint(all[..n], all[n..], max);
    assert all[..n] + all[n..] == all;
  }

  lemma {:induction false} GroupSumOne(b: byte)
    ensures GroupSum([b]) == b % 0x80
  {
    assert [b][1..] == [];
  }

  /** The two readers' accumulation step on the group sum. */
  lemma {:induction false} AppendGroup(all: seq<byte>, n: nat, bits: nat, top: int)
    requires n < |all| && 7 * n <= bits
    requires (bits == 32 && top == U32) || (bits == 64 && top == U64)
    ensures (all[n] % 0x80) * Pow2(7 * n) >= 0
    ensures BitOr(GroupSum(all[..n]) % top, ((all[n] % 0x80) * Pow2(7 * n)) % top)
            == GroupSum(all[..n + 1]) % top
  {
    assert Pow2(bits) == top by { Pow2Values(); }
    hide BitOr, Pow2, GroupSum;
    AppendBits(all[..n], all[n], bits);
    assert all[..n + 1] == all[..n] + [all[n]];
  }

  lemma {:induction false} AppendBits(prefix: seq<byte>, b: byte, bits: nat)
    requires 7 * |prefix| <= bits
    ensures (b % 0x80) * Pow2(7 * |prefix|) >= 0
    ensures BitOr(GroupSum(prefix) % Pow2(bits), ((b % 0x80) * Pow2(7 * |prefix|)) % Pow2(bits))
            == GroupSum(prefix + [b]) % Pow2(bits)
  {
    hide BitOr, Pow2, GroupSum;
    GroupSumBound(prefix);
    GroupSumAppend(prefix, b);
    Pow2Monotone(7 * |prefix|, bits);
    ModUnique(GroupSum(prefix), 0, Pow2(bits), GroupSum(prefix));
    OrShift(bits, GroupSum(prefix), b % 0x80, 7 * |prefix|);
  }

  /** The shifts and ORs of the fixed-width readers. */
  function Join4(bs: seq<byte>): nat
    requires |bs| == 4
  {
    hide BitOr, Pow2;
    BitOr(BitOr(BitOr(bs[0], bs[1] * Pow2(8)), bs[2] * Pow2(16)), bs[3] * Pow2(24))
  }

  function Join8(bs: seq<byte>): nat
    requires |bs| == 8
  {
    hide BitOr, Pow2;
    BitOr(BitOr(BitOr(BitOr(Join4(bs[..4]),
      bs[4] * Pow2(32)), bs[5] * Pow2(40)), bs[6] * Pow2(48)), bs[7] * Pow2(56))
  }

  lemma {:induction false} LittleEndianAppend(bs: seq<byte>, b: byte)
    ensures b * Pow2(8 * |bs|) >= 0
    ensures LittleEndianValue(bs + [b]) == LittleEndianValue(bs) + b * Pow2(8 * |bs|)
            == BitOr(LittleEndianValue(bs), b * Pow2(8 * |bs|))
  {
    hide BitOr;
    assert Pow2(8) == 0x100;
    hide Pow2;
    LittleEndianBound(bs);
    OrDisjoint(LittleEndianValue(bs), b, 8 * |bs|);
    if bs == [] {
      assert [b][1..] == [];
      Pow2Values();
      assert Pow2(0) == 1 by { Pow2Bytes(); }
    } else {
      assert (bs + [b])[1..] == bs[1..] + [b];
      LittleEndianAppend(bs[1..], b);
      Pow2Sum(8, 8 * |bs[1..]|);
      Swap(0x100, b, Pow2(8 * |bs[1..]|));
    }
  }

  /** One more byte of a number, shifted and OR-ed in. */
  lemma {:induction false} JoinByte(bs: seq<byte>, k: nat)
    requires k < |bs|
    ensures bs[k] * Pow2(8 * k) >= 0
    ensures LittleEndianValue(bs[..k + 1]) == BitOr(LittleEndianValue(bs[..k]), bs[k] * Pow2(8 * k))
  {
    hide BitOr, Pow2, LittleEndianValue;
    LittleEndianAppend(bs[..k], bs[k]);
    assert bs[..k + 1] == bs[..k] + [bs[k]];
  }

  lemma {:induction false} FirstByte(bs: seq<byte>)
    requires bs != []
    ensures LittleEndianValue(bs[..1]) == bs[0]
  {
    assert bs[..1][1..] == [];
  }

  lemma {:induction false} Join4IsValue(bs: seq<byte>)
    requires |bs| == 4
    ensures Join4(bs) == LittleEndianValue(bs)
  {
    hide BitOr, Pow2, LittleEndianValue;
    FirstByte(bs);
    JoinByte(bs, 1);
    JoinByte(bs, 2);
    JoinByte(bs, 3);
    assert bs[..4] == bs;
  }

  lemma {:induction false} Join8IsValue(bs: seq<byte>)
    requires |bs| == 8
    ensures Join8(bs) == LittleEndianValue(bs)
  {
    hide BitOr, Pow2, Join4, LittleEndianValue;
    Join4IsValue(bs[..4]);
    JoinByte(bs, 4);
    JoinByte(bs, 5);
    JoinByte(bs, 6);
    JoinByte(bs, 7);
    assert bs[..8] == bs;
  }
}
