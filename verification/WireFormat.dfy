/** The bytes of records, spelled out, and how far a reader that does not know a field skips. */
module WireFormat {
  import opened Words
  import opened Varint
  import opened Numbers
  import opened Descriptor
  import opened FieldIterator
  import opened Encoding
  import opened Decoding
  import opened RoundTrip
  import opened Records

  // ---- What is emitted ----

  lemma {:induction false} NumberBytes(ty: NumType, w: nat, n: int)
    requires Top(w) > 0 && InRange(ty, w, n)
    ensures ty.Unsigned? ==> NumBytes(ty, n) == VarintBytes(n)
    ensures ty.Signed? && n >= 0 ==> NumBytes(ty, n) == VarintBytes(n)
    ensures ty.Signed? && n < 0 ==> n + 0x1_0000_0000_0000_0000 > 0
                                    && NumBytes(ty, n) == VarintBytes(n + 0x1_0000_0000_0000_0000)
    ensures ty.ZigZagged? ==> NumBytes(ty, n) == VarintBytes(if n < 0 then -2 * n - 1 else 2 * n)
    ensures ty.Fixed64? ==> NumBytes(ty, n) == LittleEndian(n, 8)
    ensures ty.Fixed32? ==> NumBytes(ty, n) == LittleEndian(n, 4)
  {
    hide VarintBytes, LittleEndian;
    assert Top(w) <= U64;
    if ty.Fixed32? {
      ModUnique(n, 0, U32, n);
    } else if n < 0 {
      ModUnique(n, -1, U64, n + U64);
    } else if !ty.ZigZagged? {
      ModUnique(n, 0, U64, n);
    }
  }

  /** Number records: key with wire type 0, 1 or 5, then the number: a varint of the value, of its
      64-bit two's complement or of its zigzag number, or four or eight little-endian bytes. */
  lemma {:induction false} NumberRecordBytes(f: Field, v: Value)
    requires GoodField(f) && f.ltype.Number? && ShapeValue(f, v)
    ensures f.ltype.ty.Unsigned? ==> EncRecord(f, v) == VarintBytes(8 * f.tag) + VarintBytes(v.n)
    ensures f.ltype.ty.Signed? && v.n >= 0 ==> EncRecord(f, v) == VarintBytes(8 * f.tag) + VarintBytes(v.n)
    ensures f.ltype.ty.Signed? && v.n < 0 ==>
              v.n + 0x1_0000_0000_0000_0000 > 0
              && EncRecord(f, v) == VarintBytes(8 * f.tag) + VarintBytes(v.n + 0x1_0000_0000_0000_0000)
    ensures f.ltype.ty.ZigZagged? ==>
              EncRecord(f, v) == VarintBytes(8 * f.tag) + VarintBytes(if v.n < 0 then -2 * v.n - 1 else 2 * v.n)
    ensures f.ltype.ty.Fixed64? ==> EncRecord(f, v) == VarintBytes(8 * f.tag + 1) + LittleEndian(v.n, 8)
    ensures f.ltype.ty.Fixed32? ==> EncRecord(f, v) == VarintBytes(8 * f.tag + 5) + LittleEndian(v.n, 4)
  {
    NumberBytes(f.ltype.ty, f.dataSize, v.n);
    hide VarintBytes, LittleEndian, NumBytes, InRange;
  }

  /** Length-delimited records: key with wire type 2, length, bytes. A string goes out up to its
      first zero, or whole if its buffer has none. */
  lemma {:induction false} DelimitedRecordBytes(f: Field, v: Value, n: nat)
    requires GoodField(f) && ShapeValue(f, v)
    ensures f.ltype.Bytes? && v.size <= |v.buf| ==>
              EncRecord(f, v) == VarintBytes(8 * f.tag + 2) + (VarintBytes(v.size) + v.buf[..v.size])
    ensures f.ltype.String? && n <= |v.buf| && (n < |v.buf| ==> v.buf[n] == 0)
            && (forall k :: 0 <= k < n ==> v.buf[k] != 0) ==>
              EncRecord(f, v) == VarintBytes(8 * f.tag + 2) + (VarintBytes(n) + v.buf[..n])
    ensures f.ltype.FixedLengthBytes? ==>
              EncRecord(f, v) == VarintBytes(8 * f.tag + 2) + (VarintBytes(f.dataSize) + v.buf)
    ensures f.ltype.Submessage? ==>
              var body := EncMsg(f.sub, v.m);
              EncRecord(f, v) == VarintBytes(8 * f.tag + 2) + (VarintBytes(|body|) + body)
  {
    hide VarintBytes, EncMsg;
    if f.ltype.String? {
      TextEnds(v.buf);
      hide TextBytes;
      if n <= |v.buf| && (n < |v.buf| ==> v.buf[n] == 0) && forall k :: 0 <= k < n ==> v.buf[k] != 0 {
        assert n == |TextBytes(v.buf)|;
      }
    }
  }

  /** A number array is always one packed record: key with wire type 2, length, and the numbers, in
      order and without keys. Other arrays are one record an entry, in order. */
  lemma {:induction false} ArrayBytes(f: Field, s: Slot, n: nat)
    requires GoodField(f) && ShapeSlot(f, s) && n < |s.items|
    ensures EncArray(f, s, 0) == [] == EncPacked(f, s, 0) == EncRecords(f, s, 0)
    ensures f.ltype.Number? ==>
              var body := EncPacked(f, s, n + 1);
              EncArray(f, s, n + 1) == VarintBytes(8 * f.tag + 2) + (VarintBytes(|body|) + body)
    ensures f.ltype.Number? ==>
              s.items[n].Num? && EncPacked(f, s, n + 1) == EncPacked(f, s, n) + NumBytes(f.ltype.ty, s.items[n].n)
    ensures !f.ltype.Number? ==> EncArray(f, s, n + 1) == EncArray(f, s, n) + EncRecord(f, s.items[n])
  {
    hide VarintBytes, EncRecord, NumBytes;
    assert ShapeValue(f, s.items[n]);
  }

  /** When a field is sent, in terms of the raw structure: a required one always, an optional one by
      its has-flag or, without one, unless its content counts as zero, an array if it has entries,
      a union's member if the which-tag is its tag. */
  lemma {:induction false} WhenSent(fields: seq<Field>, m: Msg, i: nat)
    requires GoodFields(fields) && Shape(fields, m) && i < |fields| && !fields[i].ltype.Extension?
    ensures var f, s, v := fields[i], m.slots[i], m.Item(i, 0);
            && (f.htype.Required? ==> EncField(fields, m, i) == EncRecord(f, v))
            && (f.htype.Optional? && HasFlag(f) ==>
                  EncField(fields, m, i) == if s.size != 0 then EncRecord(f, v) else [])
            && (f.htype.Optional? && !HasFlag(f) ==>
                  EncField(fields, m, i) == if ZeroValue(f, v) then [] else EncRecord(f, v))
            && (f.htype.Repeated? ==> EncField(fields, m, i) == EncArray(f, s, s.size))
            && (f.htype.Oneof? ==>
                  EncField(fields, m, i)
                  == if m.Size(Leader(fields, i)) == f.tag then EncRecord(f, v) else [])
  {
    ShapesAt(fields, i, m);
    hide EncRecord, EncArray, ZeroValue;
  }

  /** What counts as zero: in a submessage, only the first item of every member is looked at. */
  lemma {:induction false} WhatIsZero(f: Field, v: Value)
    requires GoodField(f) && ShapeValue(f, v)
    ensures f.ltype.Number? ==> (ZeroValue(f, v) <==> v.n == 0)
    ensures f.ltype.Bytes? ==> (ZeroValue(f, v) <==> v.size == 0)
    ensures f.ltype.String? ==> (ZeroValue(f, v) <==> v.buf[0] == 0)
    ensures f.ltype.FixedLengthBytes? ==> (ZeroValue(f, v) <==> v.buf == [])
    ensures f.ltype.Submessage? ==>
              (ZeroValue(f, v) <==> forall i :: 0 <= i < |f.sub| ==> ZeroValue(f.sub[i], v.m.Item(i, 0)))
  {}

  /** What the encoder refuses: bytes larger than their member, arrays longer than theirs, and
      messages with something refused in what they send. */
  lemma {:induction false} WhatIsRefused(f: Field, v: Value)
    requires GoodField(f) && ShapeValue(f, v)
    ensures f.ltype.Bytes? ==> (OkValue(false, f, v) <==> v.size + 4 <= f.dataSize)
    ensures f.ltype.Submessage? ==> (OkValue(false, f, v) <==> OkMsg(false, f.sub, v.m))
    ensures !f.ltype.Bytes? && !f.ltype.Submessage? ==> OkValue(false, f, v)
  {}

  lemma {:induction false} WhichFieldsAreRefused(fields: seq<Field>, m: Msg, i: nat)
    requires GoodFields(fields) && Shape(fields, m) && i < |fields| && !fields[i].ltype.Extension?
    ensures var f, s, v := fields[i], m.slots[i], m.Item(i, 0);
            && (f.htype.Required? ==> (OkField(false, fields, m, i) <==> OkValue(false, f, v)))
            && (f.htype.Optional? && HasFlag(f) ==>
                  (OkField(false, fields, m, i) <==> s.size == 0 || OkValue(false, f, v)))
            && (f.htype.Optional? && !HasFlag(f) ==>
                  (OkField(false, fields, m, i) <==> ZeroValue(f, v) || OkValue(false, f, v)))
            && (f.htype.Oneof? ==>
                  (OkField(false, fields, m, i) <==> m.Size(Leader(fields, i)) != f.tag || OkValue(false, f, v)))
            && (f.htype.Repeated? ==>
                  (OkField(false, fields, m, i) <==>
                     s.size <= |s.items| && forall k :: 0 <= k < s.size ==> OkValue(false, f, s.items[k])))
  {
    ShapesAt(fields, i, m);
    hide OkValue, ZeroValue;
    assert m.slots[i].items != [] ==> m.slots[i].items[0] == m.Item(i, 0);
  }

  /** What a reader needs on top of that: strings that end inside their buffer, and nested and packed
      bodies whose length fits the 32 bits it is read with. */
  lemma {:induction false} WhatIsStrict(f: Field, v: Value)
    requires GoodField(f) && ShapeValue(f, v)
    ensures f.ltype.String? ==> (OkValue(true, f, v) <==> exists k :: 0 <= k < |v.buf| && v.buf[k] == 0)
    ensures f.ltype.Submessage? ==>
              (OkValue(true, f, v) <==> OkMsg(true, f.sub, v.m) && |EncMsg(f.sub, v.m)| < Pow2(32))
    ensures !f.ltype.String? && !f.ltype.Submessage? ==> (OkValue(true, f, v) <==> OkValue(false, f, v))
  {
    assert Pow2(32) == U32 by { Pow2Values(); }
    hide Pow2;
    if f.ltype.String? {
      TextEnds(v.buf);
    }
  }

  lemma {:induction false} WhichFieldsAreStrict(fields: seq<Field>, m: Msg, i: nat)
    requires GoodFields(fields) && Shape(fields, m) && i < |fields|
    requires OkField(false, fields, m, i)
    requires fields[i].htype.Repeated? && fields[i].ltype.Number? ==>
               |EncPacked(fields[i], m.slots[i], m.Size(i))| < Pow2(32)
    requires forall k :: 0 <= k < |m.slots[i].items| ==>
               OkValue(false, fields[i], m.slots[i].items[k]) ==> OkValue(true, fields[i], m.slots[i].items[k])
    ensures OkField(true, fields, m, i)
  {
    assert Pow2(32) == U32 by { Pow2Values(); }
    hide Pow2, OkValue;
    ShapesAt(fields, i, m);
  }

  // ---- Frames and keys ----

  /** The length in front of a frame is the number of bytes behind it. */
  lemma {:induction false} FrameLength(bs: seq<byte>, n: nat, rest: seq<byte>)
    requires ReadVarint32(bs) == Got(n, rest)
    ensures ReadFrame(bs) == if n <= |rest| then Got(rest[..n], rest[n..]) else Fail
    ensures Framed(rest) == VarintBytes(|rest|) + rest
  {}

  /** A key is 8 times the tag plus the wire type; zero ends a message. */
  lemma {:induction false} KeyMeaning(bs: seq<byte>)
    ensures ReadKey(bs).Key? ==>
              ReadVarint32(bs) == Got(8 * ReadKey(bs).tag + ReadKey(bs).wireType, ReadKey(bs).rest)
    ensures ReadVarint32(bs).Got? && ReadVarint32(bs).value != 0 ==> ReadKey(bs).Key?
    ensures ReadVarint32(bs).Got? && ReadVarint32(bs).value == 0 ==> ReadKey(bs) == Eof(ReadVarint32(bs).rest)
  {}

  // ---- Skipping ----

  /** How many bytes each wire type takes. */
  lemma {:induction false} SkipLengths(bs: seq<byte>, t: seq<byte>)
    ensures IsVarint(bs) ==> SkipField(0, bs + t) == Some(t)
    ensures |bs| == 8 ==> SkipField(1, bs + t) == Some(t)
    ensures |bs| < U32 ==> SkipField(2, (VarintBytes(|bs|) + bs) + t) == Some(t)
    ensures |bs| == 4 ==> SkipField(5, bs + t) == Some(t)
  {
    assert (bs + t)[|bs|..] == t;
    if IsVarint(bs) {
      EndOfVarint(bs, t, |bs + t|);
    }
    if |bs| < U32 {
      FrameRoundTrip(bs, t);
    }
  }

  /** Too short a payload, and any other wire type, is an error. */
  lemma {:induction false} SkipFails(bs: seq<byte>, wireType: nat)
    ensures |bs| < 8 ==> SkipField(1, bs) == None
    ensures |bs| < 4 ==> SkipField(5, bs) == None
    ensures (forall k :: 0 <= k < |bs| ==> bs[k] >= 0x80) ==> SkipField(0, bs) == None
    ensures ReadFrame(bs).Fail? ==> SkipField(2, bs) == None
    ensures wireType !in {0, 1, 2, 5} ==> SkipField(wireType, bs) == None
  {
    EndIffTerminator(bs, |bs|);
  }

  /** A sent payload is exactly what a reader that does not know the field skips. */
  lemma {:induction false} SentIsSkipped(f: Field, v: Value, t: seq<byte>)
    requires GoodField(f) && !f.ltype.Extension? && ShapeValue(f, v) && OkValue(true, f, v)
    ensures SkipField(WireType(f.ltype), EncValue(f, v) + t) == Some(t)
  {
    hide EncMsg, VarintBytes, ReadVarint32, LittleEndian, IsVarint, VarintEnd;
    match f.ltype
    case Number(ty) =>
      NumberIsSkipped(ty, v.n, t);
    case Bytes =>
      SkipLengths(BlobBytes(v.size, v.buf), t);
    case String =>
      TextEnds(v.buf);
      SkipLengths(TextBytes(v.buf), t);
    case FixedLengthBytes =>
      SkipLengths(v.buf, t);
    case Submessage =>
      SkipLengths(EncMsg(f.sub, v.m), t);
  }

  lemma {:induction false} NumberIsSkipped(ty: NumType, n: int, t: seq<byte>)
    ensures SkipField(WireType(Number(ty)), NumBytes(ty, n) + t) == Some(t)
  {
    hide VarintBytes, LittleEndian, IsVarint, VarintEnd, SkipField;
    SkipLengths(NumBytes(ty, n), t);
    match ty
    case Signed => BytesAreVarint(n % U64);
    case Unsigned => BytesAreVarint(n % U64);
    case ZigZagged => BytesAreVarint(ZigZag(n));
    case _ =>
  }

  /** A record sent for a field the reader does not know changes nothing. */
  lemma {:induction false} UnknownSent(fields: seq<Field>, f: Field, v: Value, t: seq<byte>, m: Msg, seen: set<nat>)
    requires GoodField(f) && !f.ltype.Extension? && ShapeValue(f, v) && OkValue(true, f, v)
    requires FindField(fields, f.tag).None?
    ensures DecLoop(fields, EncRecord(f, v) + t, m, seen) == DecLoop(fields, t, m, seen)
    ensures UnknownRecords(fields, EncRecord(f, v))
  {
    hide EncValue, SkipField;
    SentIsSkipped(f, v, []);
    assert EncValue(f, v) + [] == EncValue(f, v);
    OneUnknown(fields, f.tag, WireType(f.ltype), EncValue(f, v));
    UnknownVanishes(fields, EncRecord(f, v), t, m, seen);
  }

  lemma {:induction false} OneUnknown(fields: seq<Field>, tag: nat, wireType: nat, payload: seq<byte>)
    requires 0 < tag < 0x2000_0000 && wireType < 8 && FindField(fields, tag).None?
    requires SkipField(wireType, payload) == Some([])
    ensures UnknownRecords(fields, KeyBytes(tag, wireType) + payload)
  {
    hide SkipField, KeyBytes, ReadKey;
    KeyRoundTrip(tag, wireType, payload);
    assert UnknownRecords(fields, []);
  }

  lemma {:induction false} UnknownConcat(fields: seq<Field>, a: seq<byte>, b: seq<byte>)
    requires UnknownRecords(fields, a) && UnknownRecords(fields, b)
    ensures UnknownRecords(fields, a + b)
    decreases |a|
  {
    hide SkipField;
    if a == [] {
      assert a + b == b;
    } else {
      var Key(tag, wireType, rest) := ReadKey(a);
      KeyExtends(a, b);
      SkipExtends(wireType, rest, b);
      UnknownConcat(fields, SkipField(wireType, rest).value, b);
    }
  }
}
