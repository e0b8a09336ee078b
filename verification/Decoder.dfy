/** The decoder: a loop over keys that finds each field with the circular iterator, decodes it into
    the structure in place, and checks at the end that every required field was seen. */
module Decoder {
  import opened Words
  import opened Varint
  import opened Numbers
  import opened Descriptor
  import opened FieldIterator
  import opened Encoding
  import opened Decoding
  import opened Streams

  /** A message structure in memory. Writes are bounds-checked. */
  class Struct {
    var m: Msg

    constructor (m: Msg)
      ensures this.m == m
    {
      this.m := m;
    }

    method SetSize(i: nat, n: nat)
      requires i < |m.slots|
      modifies this
      ensures m == old(m).WithSize(i, n)
    {
      m := Msg(m.slots[i := m.slots[i].(size := n)]);
    }

    method SetItem(i: nat, k: nat, v: Value)
      requires i < |m.slots| && k < |m.slots[i].items|
      modifies this
      ensures m == old(m).WithItem(i, k, v)
    {
      m := Msg(m.slots[i := m.slots[i].(items := m.slots[i].items[k := v])]);
    }
  }

  // ---- Initialisation ----

  /** One field's part of the initialisation: clear its size field and, unless it is an array or a
      union, set its content to the default. */
  method FieldSetToDefault(dest: Struct, fields: seq<Field>, i: nat)
    requires GoodFields(fields) && Shape(fields, dest.m) && i < |fields|
    modifies dest
    ensures |dest.m.slots| == |fields|
    ensures fields[i].htype.Oneof? ==> dest.m == old(dest.m).WithSize(Leader(fields, i), 0)
    ensures !fields[i].htype.Oneof? ==>
              dest.m.slots == old(dest.m.slots)[i := DefaultSlot(fields[i], false, old(dest.m.slots[i]))]
    decreases fields, 0
  {
    var f := fields[i];
    assert GoodField(f) && ShapeSlot(f, dest.m.slots[i]);
    ghost var m0 := dest.m;
    DefaultSlotIs(f, m0.slots[i]);
    hide DefaultSlot, Leader, DefaultValue, ZeroOf;
    if f.ltype.Extension? {
      assert m0.slots[i].items == [m0.slots[i].items[0]];
      return;
    }
    var initData := true;
    if f.htype.Optional? && f.sizeOffset != 0 {
      dest.SetSize(i, 0);
    } else if f.htype.Repeated? || f.htype.Oneof? {
      dest.SetSize(Leader(fields, i), 0);
      initData := false;
    }
    if initData {
      ghost var v := DefaultValue(f, m0.slots[i].items[0]);
      StoreBoth(m0, i, 0, v);
      DefaultValueIs(f, m0.slots[i].items[0]);
      if f.ltype.Submessage? {
        var sub := new Struct(dest.m.Item(i, 0).m);
        MessageSetToDefaults(sub, f.sub);
        dest.SetItem(i, 0, Sub(sub.m));
      } else if f.default.Some? {
        dest.SetItem(i, 0, f.default.value);
      } else {
        dest.SetItem(i, 0, ZeroOf(f));
      }
    }
  }

  lemma {:induction false} DefaultSlotIs(f: Field, s: Slot)
    requires GoodField(f) && ShapeSlot(f, s)
    ensures f.htype.Repeated? ==> DefaultSlot(f, false, s) == s.(size := 0)
    ensures f.htype.Required? || f.htype.Optional? ==>
              DefaultSlot(f, false, s)
              == Slot(if f.htype.Optional? && HasFlag(f) then 0 else s.size, [DefaultValue(f, s.items[0])])
    ensures f.ltype.Extension? ==> DefaultValue(f, s.items[0]) == s.items[0]
  {}

  lemma {:induction false} DefaultValueIs(f: Field, v: Value)
    requires GoodField(f) && ShapeValue(f, v) && !f.ltype.Extension?
    ensures f.ltype.Submessage? ==> DefaultValue(f, v) == Sub(Defaults(f.sub, v.m))
    ensures !f.ltype.Submessage? ==> DefaultValue(f, v) == if f.default.Some? then f.default.value else ZeroOf(f)
  {}

  /** Storing a single item, with and without its size field. */
  lemma {:induction false} StoreBoth(m: Msg, i: nat, n: nat, v: Value)
    requires i < |m.slots| && |m.slots[i].items| == 1
    ensures m.WithItem(i, 0, v).slots == m.slots[i := Slot(m.slots[i].size, [v])]
    ensures m.WithSize(i, n).WithItem(i, 0, v).slots == m.slots[i := Slot(n, [v])]
  {
    assert m.slots[i].items[0 := v] == [v];
  }

  method MessageSetToDefaults(dest: Struct, fields: seq<Field>)
    requires GoodFields(fields) && Shape(fields, dest.m)
    modifies dest
    ensures dest.m == Defaults(fields, old(dest.m)) && Shape(fields, dest.m)
    decreases fields, 1
  {
    hide GoodField, DefaultSlot, ShapeSlot, DataAddress, SizeAddress, RequiredBefore;
    TagsNonzero(fields);
    DefaultsShape(fields, dest.m);
    ghost var m0 := dest.m;
    var iter := new FieldIter(fields, 0);
    var more := iter.Begin();
    if !more {
      return;
    }
    ghost var i := 0;
    MixedStart(fields, m0);
    while more
      invariant iter.Valid() && iter.start == fields && fresh(iter)
      invariant i <= |fields| && (if more then i == iter.pos < |fields| else i == |fields|)
      invariant dest.m == Mixed(fields, m0, i)
      decreases |fields| - i
    {
      MixedStep(fields, m0, i);
      FieldSetToDefault(dest, fields, iter.pos);
      i := i + 1;
      more := iter.Next();
    }
  }

  /** The structure when the fields before `i` have been initialised. */
  ghost function Mixed(fields: seq<Field>, m: Msg, i: nat): Msg
    requires |m.slots| == |fields|
  {
    Msg(seq(|fields|, j requires 0 <= j < |fields| =>
      if j < i then DefaultSlot(fields[j], Continues(fields, j), m.slots[j]) else m.slots[j]))
  }

  lemma {:induction false} MixedStart(fields: seq<Field>, m: Msg)
    requires |m.slots| == |fields|
    ensures Mixed(fields, m, 0) == m && Mixed(fields, m, |fields|) == Defaults(fields, m)
  {
    assert Mixed(fields, m, 0).slots == m.slots;
    assert Mixed(fields, m, |fields|).slots == Defaults(fields, m).slots;
  }

  lemma {:induction false} MixedStep(fields: seq<Field>, m: Msg, i: nat)
    requires GoodFields(fields) && Shape(fields, m) && i < |fields|
    ensures Shape(fields, Mixed(fields, m, i))
    ensures fields[i].htype.Oneof? ==>
              Mixed(fields, m, i + 1) == Mixed(fields, m, i).WithSize(Leader(fields, i), 0)
    ensures !fields[i].htype.Oneof? ==>
              Mixed(fields, m, i + 1).slots
              == Mixed(fields, m, i).slots[i := DefaultSlot(fields[i], false, Mixed(fields, m, i).slots[i])]
  {
    MixedShape(fields, m, i);
    MixedNext(fields, m, i);
  }

  lemma {:induction false} MixedShape(fields: seq<Field>, m: Msg, i: nat)
    requires GoodFields(fields) && Shape(fields, m) && i <= |fields|
    ensures Shape(fields, Mixed(fields, m, i))
  {
    hide GoodField, ShapeSlot, DefaultSlot;
    forall j | 0 <= j < |fields|
      ensures ShapeSlot(fields[j], Mixed(fields, m, i).slots[j])
    {
      assert GoodField(fields[j]) && ShapeSlot(fields[j], m.slots[j]);
      DefaultSlotShape(fields[j], Continues(fields, j), m.slots[j]);
    }
  }

  lemma {:induction false} MixedNext(fields: seq<Field>, m: Msg, i: nat)
    requires |m.slots| == |fields| && i < |fields|
    ensures fields[i].htype.Oneof? ==>
              Mixed(fields, m, i + 1) == Mixed(fields, m, i).WithSize(Leader(fields, i), 0)
    ensures !fields[i].htype.Oneof? ==>
              Mixed(fields, m, i + 1).slots
              == Mixed(fields, m, i).slots[i := DefaultSlot(fields[i], false, Mixed(fields, m, i).slots[i])]
  {
    var a, b, f := Mixed(fields, m, i), Mixed(fields, m, i + 1), fields[i];
    var l := Leader(fields, i);
    OneofDefault(fields[l], m.slots[l]);
    OneofDefault(f, m.slots[i]);
    hide DefaultSlot, Leader;
    if f.htype.Oneof? {
      var c := a.slots[l := a.slots[l].(size := 0)];
      forall j | 0 <= j < |fields|
        ensures b.slots[j] == c[j]
      {}
      assert b.slots == c;
    } else {
      var c := a.slots[i := DefaultSlot(f, false, a.slots[i])];
      forall j | 0 <= j < |fields|
        ensures b.slots[j] == c[j]
      {}
      assert b.slots == c;
    }
  }

  lemma {:induction false} OneofDefault(f: Field, s: Slot)
    ensures f.htype.Oneof? ==> DefaultSlot(f, true, s) == s && DefaultSlot(f, false, s) == s.(size := 0)
  {}

  // ---- Payloads ----

  method DecSigned(stream: IStream, f: Field) returns (ok: bool, n: int)
    requires stream.Valid()
    modifies stream
    ensures stream.Valid() && stream.End() == old(stream.End())
    ensures match ReadNum(Signed, f.dataSize, old(stream.Rest()))
            case Got(x, rest) => ok && n == x && stream.Rest() == rest
            case Fail => !ok
  {
    hide ReadVarint;
    var value: nat;
    ok, value := stream.DecodeVarint();
    if !ok {
      return false, 0;
    }
    var svalue := if f.dataSize == 8 then Cast(value, U64) else Cast(value, U32);
    var clamped;
    if f.dataSize == 8 {
      clamped := Cast(svalue, U64);
    } else if f.dataSize == 4 {
      clamped := Cast(svalue, U32);
    } else if f.dataSize == 2 {
      clamped := Cast(svalue, 0x1_0000);
    } else if f.dataSize == 1 {
      clamped := Cast(svalue, 0x100);
    } else {
      return false, 0;
    }
    if clamped != svalue {
      return false, 0;
    }
    return true, clamped;
  }

  method DecUnsigned(stream: IStream, f: Field) returns (ok: bool, n: int)
    requires stream.Valid()
    modifies stream
    ensures stream.Valid() && stream.End() == old(stream.End())
    ensures match ReadNum(Unsigned, f.dataSize, old(stream.Rest()))
            case Got(x, rest) => ok && n == x && stream.Rest() == rest
            case Fail => !ok
  {
    hide ReadVarint;
    var value: nat;
    ok, value := stream.DecodeVarint();
    if !ok {
      return false, 0;
    }
    var clamped;
    if f.dataSize == 8 {
      clamped := value % U64;
    } else if f.dataSize == 4 {
      clamped := value % U32;
    } else if f.dataSize == 2 {
      clamped := value % 0x1_0000;
    } else if f.dataSize == 1 {
      clamped := value % 0x100;
    } else {
      return false, 0;
    }
    if clamped != value {
      return false, 0;
    }
    return true, clamped;
  }

  method DecZigZag(stream: IStream, f: Field) returns (ok: bool, n: int)
    requires stream.Valid()
    modifies stream
    ensures stream.Valid() && stream.End() == old(stream.End())
    ensures match ReadNum(ZigZagged, f.dataSize, old(stream.Rest()))
            case Got(x, rest) => ok && n == x && stream.Rest() == rest
            case Fail => !ok
  {
    hide ReadVarint;
    var value: int;
    ok, value := stream.DecodeSVarint();
    if !ok {
      return false, 0;
    }
    var clamped;
    if f.dataSize == 8 {
      clamped := Cast(value, U64);
    } else if f.dataSize == 4 {
      clamped := Cast(value, U32);
    } else if f.dataSize == 2 {
      clamped := Cast(value, 0x1_0000);
    } else if f.dataSize == 1 {
      clamped := Cast(value, 0x100);
    } else {
      return false, 0;
    }
    if clamped != value {
      return false, 0;
    }
    return true, clamped;
  }

  method DecNumber(stream: IStream, f: Field) returns (ok: bool, n: int)
    requires stream.Valid() && f.ltype.Number?
    modifies stream
    ensures stream.Valid() && stream.End() == old(stream.End())
    ensures match ReadNum(f.ltype.ty, f.dataSize, old(stream.Rest()))
            case Got(x, rest) => ok && n == x && stream.Rest() == rest
            case Fail => !ok
  {
    match f.ltype.ty {
      case Signed => ok, n := DecSigned(stream, f);
      case Unsigned => ok, n := DecUnsigned(stream, f);
      case ZigZagged => ok, n := DecZigZag(stream, f);
      case Fixed32 => ok, n := stream.DecodeFixed32();
      case Fixed64 => ok, n := stream.DecodeFixed64();
    }
  }

  /** The terminator's byte added in a 32-bit register. */
  function WithTerminator(size: nat): (n: nat)
    requires size < U32
    ensures n == if size == U32 - 1 then 0 else size + 1
  {
    (size + 1) % U32
  }

  /** What becomes of a string's length prefix and bytes. */
  lemma {:induction false} StringValue(f: Field, bs: seq<byte>, v: Value)
    requires f.ltype.String? && GoodField(f) && ShapeValue(f, v)
    ensures v.Text? && |v.buf| == f.dataSize < U32
    ensures match ReadVarint32(bs)
            case Fail => DecValue(f, bs, v) == Fail
            case Got(n, rest) =>
              DecValue(f, bs, v)
              == if n + 1 > f.dataSize || |rest| < n then Fail
                 else Got(Text(rest[..n] + [0] + v.buf[n + 1..]), rest[n..])
  {
    hide ReadVarint32;
  }

  method DecBytes(stream: IStream, f: Field, v: Value) returns (ok: bool, r: Value)
    requires stream.Valid() && f.ltype.Bytes? && GoodField(f) && ShapeValue(f, v)
    modifies stream
    ensures stream.Valid() && stream.End() == old(stream.End())
    ensures match DecValue(f, old(stream.Rest()), v)
            case Got(x, rest) => ok && r == x && stream.Rest() == rest
            case Fail => !ok
  {
    var size: nat;
    ok, size := stream.DecodeVarint32();
    r := v;
    if !ok {
      return;
    }
    var allocSize := size + BYTES_OFFSET;
    if allocSize > f.dataSize {
      return false, v;
    }
    var bytes;
    ok, bytes := stream.Read(size);
    if ok {
      r := Blob(size, bytes + v.buf[size..]);
    }
  }

  method DecString(stream: IStream, f: Field, v: Value) returns (ok: bool, r: Value)
    requires stream.Valid() && f.ltype.String? && GoodField(f) && ShapeValue(f, v)
    modifies stream
    ensures stream.Valid() && stream.End() == old(stream.End())
    ensures match DecValue(f, old(stream.Rest()), v)
            case Got(x, rest) => ok && r == x && stream.Rest() == rest
            case Fail => !ok
  {
    StringValue(f, stream.Rest(), v);
    hide DecValue, ReadVarint32, GoodField, ShapeValue, WithTerminator;
    var size: nat;
    ok, size := stream.DecodeVarint32();
    r := v;
    if !ok {
      return;
    }
    var allocSize := WithTerminator(size);
    if allocSize < size {
      return false, v;
    }
    if allocSize > f.dataSize {
      return false, v;
    }
    var bytes;
    ok, bytes := stream.Read(size);
    if ok {
      r := Text(bytes + [0] + v.buf[size + 1..]);
    }
  }

  method DecFixedLengthBytes(stream: IStream, f: Field, v: Value) returns (ok: bool, r: Value)
    requires stream.Valid() && f.ltype.FixedLengthBytes? && GoodField(f) && ShapeValue(f, v)
    modifies stream
    ensures stream.Valid() && stream.End() == old(stream.End())
    ensures match DecValue(f, old(stream.Rest()), v)
            case Got(x, rest) => ok && r == x && stream.Rest() == rest
            case Fail => !ok
  {
    var size: nat;
    ok, size := stream.DecodeVarint32();
    r := v;
    if !ok {
      return;
    }
    if size == 0 {
      assert stream.Rest()[..0] == [] && stream.Rest()[0..] == stream.Rest();
      return true, Raw(Zeros(f.dataSize));
    }
    if size != f.dataSize {
      return false, v;
    }
    var bytes;
    ok, bytes := stream.Read(f.dataSize);
    if ok {
      r := Raw(bytes);
    }
  }

  // ---- Keys and unknown fields ----

  method DecodeTag(stream: IStream) returns (ok: bool, wireType: nat, tag: nat, eof: bool)
    requires stream.Valid()
    modifies stream
    ensures stream.Valid() && stream.End() == old(stream.End())
    ensures match ReadKey(old(stream.Rest()))
            case Eof(rest) => !ok && eof && stream.Rest() == rest
            case BadKey => !ok && !eof
            case Key(t, w, rest) => ok && !eof && tag == t && wireType == w && stream.Rest() == rest
  {
    eof, wireType, tag := false, 0, 0;
    var temp: nat;
    ok, temp := stream.DecodeVarint32();
    if !ok {
      if stream.bytesLeft == 0 {
        eof := true;
      }
      return;
    }
    if temp == 0 {
      return false, 0, 0, true;
    }
    tag := temp / 8;
    wireType := temp % 8;
  }

  method SkipUnknown(stream: IStream, wireType: nat) returns (ok: bool)
    requires stream.Valid()
    modifies stream
    ensures stream.Valid() && stream.End() == old(stream.End())
    ensures match SkipField(wireType, old(stream.Rest()))
            case Some(rest) => ok && stream.Rest() == rest
            case None => !ok
    ensures wireType == 1 ==> (ok <==> old(stream.bytesLeft) >= 8)
    ensures wireType == 1 && ok ==> stream.Rest() == old(stream.Rest())[8..]
    ensures wireType == 5 ==> (ok <==> old(stream.bytesLeft) >= 4)
    ensures wireType == 5 && ok ==> stream.Rest() == old(stream.Rest())[4..]
    ensures wireType != 0 && wireType != 1 && wireType != 2 && wireType != 5 ==> !ok
  {
    var skipped;
    if wireType == WT_VARINT {
      ok := stream.SkipVarint();
    } else if wireType == WT_64BIT {
      ok, skipped := stream.Read(8);
    } else if wireType == WT_STRING {
      ok := stream.SkipString();
    } else if wireType == WT_32BIT {
      ok, skipped := stream.Read(4);
    } else {
      ok := false;
    }
  }

  // ---- Fields ----

  /** The payload decoder a row's data type selects. */
  method DecodeValue(stream: IStream, f: Field, v: Value) returns (ok: bool, r: Value)
    requires stream.Valid() && !f.ltype.Extension?
    requires f == LAST_FIELD || (GoodField(f) && TrackableField(f) && ShapeValue(f, v))
    modifies stream
    ensures stream.Valid() && stream.End() <= old(stream.End())
    ensures match DecValue(f, old(stream.Rest()), v)
            case Got(x, rest) => ok && r == x && stream.Rest() == rest && stream.End() == old(stream.End())
            case Fail => !ok
    decreases stream.bytesLeft, 0
  {
    if f.ltype.Number? {
      var n;
      ok, n := DecNumber(stream, f);
      r := Num(n);
    } else if f.ltype.Bytes? {
      ok, r := DecBytes(stream, f, v);
    } else if f.ltype.String? {
      ok, r := DecString(stream, f, v);
    } else if f.ltype.FixedLengthBytes? {
      ok, r := DecFixedLengthBytes(stream, f, v);
    } else {
      ok, r := DecodeSubmessage(stream, f, v);
    }
  }

  /** Decodes a nested message to the end of its window. An array entry is initialised first; other
      submessages are decoded over what they hold. */
  method DecodeNested(stream: IStream, f: Field, m: Msg) returns (ok: bool, r: Msg)
    requires stream.Valid() && f.ltype.Submessage? && GoodFields(f.sub) && Trackable(f.sub) && Shape(f.sub, m)
    modifies stream
    ensures stream.Valid() && stream.End() <= old(stream.End())
    ensures match DecMsg(f.sub, old(stream.Rest()), if f.htype.Repeated? then Defaults(f.sub, m) else m)
            case Got(x, _) => ok && r == x && stream.End() == old(stream.End())
            case Fail => !ok
    decreases stream.bytesLeft, 6
  {
    hide DecMsg, Defaults, GoodFields, Trackable, Shape;
    var dest := new Struct(m);
    if f.htype.Repeated? {
      ok := Decode(stream, f.sub, dest);
    } else {
      ok := DecodeNoInit(stream, f.sub, dest);
    }
    r := dest.m;
  }

  /** A nested message behind its length: whatever of its window is left over is skipped. */
  method DecodeSubmessage(stream: IStream, f: Field, v: Value) returns (ok: bool, r: Value)
    requires stream.Valid() && f.ltype.Submessage? && GoodField(f) && TrackableField(f) && ShapeValue(f, v)
    modifies stream
    ensures stream.Valid() && stream.End() <= old(stream.End())
    ensures match DecValue(f, old(stream.Rest()), v)
            case Got(x, rest) => ok && r == x && stream.Rest() == rest && stream.End() == old(stream.End())
            case Fail => !ok
    decreases stream.bytesLeft, 0, 0
  {
    SubmessageValue(f, stream.Rest(), v);
    hide DecMsg, Defaults, GoodField, GoodFields, TrackableField, Trackable, Shape, ShapeValue, DecValue, ReadFrame;
    var framed, substream := stream.MakeStringSubstream();
    if !framed {
      return false, v;
    }
    var m;
    ok, m := DecodeNested(substream, f, v.m);
    var closed := stream.CloseStringSubstream(substream);
    r := Sub(m);
  }

  lemma {:induction false} SubmessageValue(f: Field, bs: seq<byte>, v: Value)
    requires f.ltype.Submessage? && GoodField(f) && TrackableField(f) && ShapeValue(f, v)
    ensures v.Sub? && GoodFields(f.sub) && Trackable(f.sub) && Shape(f.sub, v.m)
    ensures ReadFrame(bs).Fail? ==> DecValue(f, bs, v) == Fail
    ensures ReadFrame(bs).Got? ==>
              var r := DecMsg(f.sub, ReadFrame(bs).value, if f.htype.Repeated? then Defaults(f.sub, v.m) else v.m);
              DecValue(f, bs, v) == if r.Fail? then Fail else Got(Sub(r.value), ReadFrame(bs).rest)
  {
    hide DecMsg, Defaults;
  }

  /** A packed record: numbers are appended until the window is empty or the array is full. */
  method DecodePacked(stream: IStream, f: Field, i: nat, dest: Struct) returns (ok: bool)
    requires stream.Valid() && GoodField(f) && f.ltype.Number? && f.htype.Repeated?
    requires i < |dest.m.slots| && ShapeSlot(f, dest.m.slots[i])
    modifies stream, dest
    ensures stream.Valid() && stream.End() <= old(stream.End())
    ensures match ReadFrame(old(stream.Rest()))
            case Fail => !ok
            case Got(body, rest) =>
              match DecPacked(f, body, old(dest.m).slots[i])
              case None => !ok
              case Some(s) => ok && dest.m == PutSlot(old(dest.m), i, s)
                              && stream.Rest() == rest && stream.End() == old(stream.End())
  {
    hide ReadNum, GoodField;
    var status := true;
    var framed, substream := stream.MakeStringSubstream();
    if !framed {
      return false;
    }
    ghost var m0, body, s := dest.m, substream.Rest(), dest.m.slots[i];
    while substream.bytesLeft > 0 && dest.m.slots[i].size < f.arraySize
      invariant stream.Valid() && stream.End() <= old(stream.End())
      invariant substream.Valid() && substream.data == stream.data
      invariant substream.End() + stream.bytesLeft == old(stream.End())
      invariant stream.bytesLeft == |ReadFrame(old(stream.Rest())).rest|
      invariant i < |dest.m.slots| && dest.m == PutSlot(m0, i, s) && |s.items| == f.arraySize
      invariant DecPacked(f, substream.Rest(), s) == DecPacked(f, body, m0.slots[i])
      decreases substream.bytesLeft
    {
      ghost var before := substream.Rest();
      var got, n := DecNumber(substream, f);
      if !got {
        status := false;
        break;
      }
      s := Slot(s.size + 1, s.items[s.size := Num(n)]);
      dest.SetItem(i, dest.m.slots[i].size, Num(n));
      dest.SetSize(i, dest.m.slots[i].size + 1);
    }
    if substream.bytesLeft != 0 {
      return false;
    }
    var closed := stream.CloseStringSubstream(substream);
    return status;
  }

  /** Makes place for one payload: sets the field's has-flag, count or which-tag and resets a
      union's submessage. Fails on a full array. */
  method MakePlace(fields: seq<Field>, pos: nat, dest: Struct) returns (ok: bool, k: nat)
    requires GoodFields(fields) && Shape(fields, dest.m) && pos < |fields|
    modifies dest
    ensures |dest.m.slots| == |fields|
    ensures match Target(fields, pos, old(dest.m))
            case None => !ok
            case Some(t) =>
              && ok && k == t.k && k < |dest.m.slots[pos].items| && dest.m.slots[pos].items[k] == t.v
              && (dest.m == t.m || dest.m == t.m.WithItem(pos, k, t.v))
    ensures ok && fields[pos].htype.Oneof? ==> dest.m.Size(Leader(fields, pos)) == fields[pos].tag
    ensures ok && fields[pos].htype.Optional? && HasFlag(fields[pos]) ==> dest.m.Size(pos) == 1
    ensures ok && fields[pos].htype.Repeated? ==> dest.m.Size(pos) == old(dest.m).Size(pos) + 1
  {
    hide Defaults, ZeroMsg, Shape, GoodFields, ShapeValue;
    var f := fields[pos];
    ShapesAt(fields, pos, dest.m);
    ok, k := true, 0;
    match f.htype {
      case Required =>
      case Optional =>
        if f.sizeOffset != 0 {
          dest.SetSize(pos, 1);
        }
      case Repeated =>
        k := dest.m.slots[pos].size;
        if k >= f.arraySize {
          return false, k;
        }
        dest.SetSize(pos, k + 1);
      case Oneof =>
        dest.SetSize(Leader(fields, pos), f.tag);
        if f.ltype.Submessage? {
          var member := new Struct(ZeroMsg(f.sub));
          ZeroMsgShape(f.sub);
          MessageSetToDefaults(member, f.sub);
          dest.SetItem(pos, 0, Sub(member.m));
        }
    }
  }

  /** A known field. `pos` is the iterator's position; on an empty message it stands on the
      terminator row, whose decoding always fails. */
  method DecodeStaticField(stream: IStream, wireType: nat, fields: seq<Field>, pos: nat, dest: Struct)
    returns (ok: bool)
    requires stream.Valid() && GoodFields(fields) && Trackable(fields) && Shape(fields, dest.m)
    requires pos < Positions(fields) && !FieldAt(fields, pos).ltype.Extension?
    modifies stream, dest
    ensures stream.Valid() && stream.End() <= old(stream.End())
    ensures match DecField(fields, pos, wireType, old(stream.Rest()), old(dest.m))
            case Got(m, rest) => ok && dest.m == m && stream.Rest() == rest && stream.End() == old(stream.End())
            case Fail => !ok
    decreases stream.bytesLeft, 1
  {
    hide ReadFrame, DecPacked, DecValue, Target, Shape, GoodFields, GoodField, ShapeSlot, ShapeValue;
    ghost var m0, bs := dest.m, stream.Rest();
    if fields == [] {
      var r;
      ok, r := DecodeValue(stream, LAST_FIELD, Num(0));
      EmptyRejects(wireType, bs, m0);
      return;
    }
    var f := fields[pos];
    ShapesAt(fields, pos, m0);
    if f.htype.Repeated? && wireType == WT_STRING && Packable(f) {
      ok := DecodePacked(stream, f, pos, dest);
      return;
    }
    TargetShape(fields, pos, m0);
    var k;
    ok, k := MakePlace(fields, pos, dest);
    if !ok {
      return;
    }
    var v;
    ghost var t := Target(fields, pos, m0).value;
    ok, v := DecodeValue(stream, f, dest.m.slots[pos].items[k]);
    if ok {
      StoreTwice(t.m, pos, k, t.v, v);
      dest.SetItem(pos, k, v);
    }
  }

  // ---- Required fields ----

  /** Two words of seen-bits, and the set of required-field indices they stand for. */
  ghost predicate MaskIs(words: seq<nat>, bits: set<nat>) {
    && |words| == 2 && words[0] < U32 && words[1] < U32
    && forall k: nat | k < 32 :: (Bit(words[0], k) <==> k in bits) && (Bit(words[1], k) <==> k + 32 in bits)
  }

  /** The bits set so far are the indices of the required rows seen so far. */
  ghost predicate Tracks(fields: seq<Field>, seen: set<nat>, bits: set<nat>) {
    && (forall b :: b in bits ==> b < RequiredCount(fields))
    && forall i :: 0 <= i < |fields| && fields[i].htype.Required? ==> (i in seen <==> RequiredBefore(fields, i) in bits)
  }

  lemma {:induction false} RequiredMonotone(fields: seq<Field>, i: nat, j: nat)
    requires i <= j <= |fields|
    ensures RequiredBefore(fields, i) <= RequiredBefore(fields, j)
    ensures i < j && fields[i].htype.Required? ==> RequiredBefore(fields, i) < RequiredBefore(fields, j)
  {
    if i < j {
      RequiredMonotone(fields, i, j - 1);
    }
  }

  /** Every index below a row's count belongs to some earlier required row. */
  lemma {:induction false} RequiredRow(fields: seq<Field>, n: nat, k: nat) returns (i: nat)
    requires n <= |fields| && k < RequiredBefore(fields, n)
    ensures i < n && fields[i].htype.Required? && RequiredBefore(fields, i) == k
  {
    if k == RequiredBefore(fields, n - 1) {
      i := n - 1;
    } else {
      i := RequiredRow(fields, n - 1, k);
    }
  }

  /** All required rows have been seen exactly when all the bits below their count are set. */
  lemma {:induction false} AllSeenIsAllBits(fields: seq<Field>, seen: set<nat>, bits: set<nat>)
    requires Tracks(fields, seen, bits)
    ensures forall b :: b in bits ==> b < RequiredCount(fields)
    ensures AllSeen(fields, seen) <==> forall k: nat | k < RequiredCount(fields) :: k in bits
  {
    if AllSeen(fields, seen) {
      forall k: nat | k < RequiredCount(fields)
        ensures k in bits
      {
        var i := RequiredRow(fields, |fields|, k);
      }
    }
    if forall k: nat | k < RequiredCount(fields) :: k in bits {
      forall i | 0 <= i < |fields| && fields[i].htype.Required?
        ensures i in seen
      {
        RequiredMonotone(fields, i, |fields|);
      }
    }
  }

  lemma {:induction false} TrackMore(fields: seq<Field>, seen: set<nat>, bits: set<nat>, i: nat)
    requires Tracks(fields, seen, bits) && i < |fields| && fields[i].htype.Required?
    ensures RequiredBefore(fields, i) < RequiredCount(fields)
    ensures Tracks(fields, seen + {i}, bits + {RequiredBefore(fields, i)})
  {
    RequiredMonotone(fields, i, |fields|);
    forall j | 0 <= j < |fields| && fields[j].htype.Required?
      ensures j in seen + {i} <==> RequiredBefore(fields, j) in bits + {RequiredBefore(fields, i)}
    {
      if i < j {
        RequiredMonotone(fields, i, j);
      } else {
        RequiredMonotone(fields, j, i);
      }
    }
  }

  /** `fields_seen[index >> 5] |= 1 << (index & 31)`. */
  method SetSeen(words: array<nat>, index: nat, ghost bits: set<nat>)
    requires words.Length == 2 && MaskIs(words[..], bits) && index < 64
    modifies words
    ensures MaskIs(words[..], bits + {index})
  {
    var tmp := Pow2(index % 32);
    var w := index / 32;
    OrOneBit(words[w], index % 32);
    words[w] := BitOr(words[w], tmp);
  }

  lemma {:induction false} OrOneBit(x: nat, p: nat)
    requires x < U32 && p < 32
    ensures BitOr(x, Pow2(p)) < U32
    ensures forall k: nat :: Bit(BitOr(x, Pow2(p)), k) == (Bit(x, k) || k == p)
  {
    assert Pow2(32) == U32 by { Pow2Values(); }
    hide BitOr, Bit;
    BitFits(p);
    hide Pow2;
    OrBound(x, Pow2(p), 32);
    forall k: nat
      ensures Bit(BitOr(x, Pow2(p)), k) == (Bit(x, k) || k == p)
    {
      OrBit(x, Pow2(p), k);
      Pow2Bits(p, k);
    }
  }

  lemma {:induction false} BitFits(p: nat)
    requires p < 32
    ensures Pow2(p) < Pow2(32)
  {
    Pow2Monotone(p, 31);
    assert Pow2(32) == 2 * Pow2(31);
  }

  /** Steps to the end of the descriptor to find the number of required fields, wherever the
      iterator stands. */
  method CountRequired(iter: FieldIter) returns (count: nat)
    requires iter.Valid() && GoodFields(iter.start)
    modifies iter
    ensures count == RequiredCount(iter.start)
  {
    hide GoodField, DataAddress, SizeAddress;
    TagsNonzero(iter.start);
    ghost var fields := iter.start;
    count := 0;
    var lastType, more := Required, true;
    while more
      invariant iter.Valid()
      invariant more || |fields| == 0 ||
                (lastType == fields[|fields| - 1].htype && count == RequiredBefore(fields, |fields| - 1))
      invariant more || iter.pos == 0
      invariant !more && |fields| == 0 ==> count == 0
      decreases more, |fields| - iter.pos
    {
      count := iter.requiredFieldIndex;
      lastType := iter.Current().htype;
      more := iter.Next();
    }
    if lastType.Required? && iter.Current().tag != 0 {
      count := count + 1;
    }
  }

  lemma {:induction false} AllBitsShifted(r: nat)
    requires 0 < r < 32
    ensures (U32 - 1) / Pow2(32 - r) == Pow2(r) - 1
  {
    assert Pow2(32) == U32 by { Pow2Values(); }
    hide Pow2;
    Pow2Sum(r, 32 - r);
    OneLess(Pow2(r), Pow2(32 - r));
  }

  lemma {:induction false} OneLess(a: nat, b: nat)
    requires a > 0 && b > 0
    ensures a * b > 0 && (a * b - 1) / b == a - 1
  {
    assert (a - 1) * b == a * b - b;
    ModUnique(a * b - 1, a - 1, b, b - 1);
  }

  lemma {:induction false} WholeWord(words: seq<nat>, bits: set<nat>)
    requires MaskIs(words, bits)
    ensures words[0] == U32 - 1 <==> forall k: nat | k < 32 :: k in bits
  {
    assert Pow2(32) == U32 by { Pow2Values(); }
    hide Pow2, Bit;
    LowOnes(words[0], 32, 32);
    assert IsRun(words[0], 32, 32) <==> forall k: nat | k < 32 :: k in bits by {
      if IsRun(words[0], 32, 32) {
        forall k: nat | k < 32
          ensures k in bits
        {
          assert Bit(words[0], k);
        }
      }
    }
  }

  lemma {:induction false} PartWord(words: seq<nat>, bits: set<nat>, count: nat)
    requires MaskIs(words, bits) && 0 < count < 64 && count % 32 != 0
    requires forall b :: b in bits ==> b < count
    ensures words[count / 32] == Pow2(count % 32) - 1
            <==> forall k: nat | k < count && k >= 32 * (count / 32) :: k in bits
  {
    var base, r, x := 32 * (count / 32), count % 32, words[count / 32];
    assert Pow2(32) == U32 by { Pow2Values(); }
    hide Pow2, Bit;
    LowOnes(x, r, 32);
    assert forall k: nat | k < 32 :: Bit(x, k) <==> k + base in bits;
    if IsRun(x, r, 32) {
      forall k: nat | k < count && k >= base
        ensures k in bits
      {
        assert Bit(x, k - base);
      }
    }
    if forall k: nat | k < count && k >= base :: k in bits {
      forall k: nat | k < 32
        ensures Bit(x, k) == (k < r)
      {
        assert k + base in bits <==> k + base < count;
      }
    }
  }

  /** The presence check: whole words against all ones, then the remaining bits. */
  method CheckSeen(words: array<nat>, count: nat, ghost bits: set<nat>) returns (ok: bool)
    requires words.Length == 2 && MaskIs(words[..], bits)
    requires count == 0 || (count < MAX_REQUIRED_FIELDS && count % 32 != 0)
    requires forall b :: b in bits ==> b < count
    ensures ok <==> forall k: nat | k < count :: k in bits
  {
    hide MaskIs, Pow2;
    var allbits := U32 - 1;
    if count > 0 {
      for i := 0 to count / 32
        invariant forall k: nat | k < 32 * i :: k in bits
      {
        WholeWord(words[..], bits);
        if words[i] != allbits {
          return false;
        }
      }
      PartWord(words[..], bits, count);
      AllBitsShifted(count % 32);
      if words[count / 32] != allbits / Pow2(32 - count % 32) {
        return false;
      }
    }
    return true;
  }

  // ---- Messages ----

  /** A key no field answers to: looks up, once, where the extension range starts, and skips the
      payload. The slot's chain of registered extensions is empty here, so nothing is handled. */
  method DecodeUnknown(stream: IStream, iter: FieldIter, tag: nat, wireType: nat, rangeStart: nat)
    returns (ok: bool, extensionRangeStart: nat)
    requires stream.Valid() && iter.Valid() && GoodFields(iter.start)
    modifies stream, iter
    ensures iter.Valid() && stream.Valid() && stream.End() == old(stream.End())
    ensures match SkipField(wireType, old(stream.Rest()))
            case Some(rest) => ok && stream.Rest() == rest
            case None => !ok
  {
    hide GoodField, DataAddress, SizeAddress, RequiredBefore, SkipField;
    TagsNonzero(iter.start);
    extensionRangeStart := rangeStart;
    if tag >= extensionRangeStart {
      var slot := iter.FindExtension();
      if !slot {
        extensionRangeStart := U32 - 1;
      } else {
        extensionRangeStart := iter.Current().tag;
      }
    }
    ok := SkipUnknown(stream, wireType);
  }

  lemma {:induction false} CountIsDefined(fields: seq<Field>)
    requires Trackable(fields)
    ensures RequiredCount(fields) == 0
            || (RequiredCount(fields) < MAX_REQUIRED_FIELDS && RequiredCount(fields) % 32 != 0)
  {}

  /** Records the iterator's row, if required, in the mask. */
  method MarkSeen(iter: FieldIter, words: array<nat>, ghost seen0: set<nat>, ghost bits0: set<nat>)
    returns (ghost seen: set<nat>, ghost bits: set<nat>)
    requires iter.Valid() && GoodFields(iter.start) && Trackable(iter.start) && words.Length == 2
    requires MaskIs(words[..], bits0) && Tracks(iter.start, seen0, bits0)
    modifies words
    ensures MaskIs(words[..], bits)
    ensures iter.start != [] ==> Tracks(iter.start, seen, bits)
    ensures seen == if iter.Current().htype.Required? then seen0 + {iter.pos} else seen0
  {
    hide GoodField, DataAddress, SizeAddress, RequiredBefore, MaskIs, Tracks;
    FewRequired(iter.start);
    seen, bits := seen0, bits0;
    if iter.start != [] && iter.Current().htype.Required? {
      TrackMore(iter.start, seen, bits, iter.pos);
    }
    if iter.Current().htype.Required? && iter.requiredFieldIndex < MAX_REQUIRED_FIELDS {
      SetSeen(words, iter.requiredFieldIndex, bits);
      seen, bits := seen + {iter.pos}, bits + {iter.requiredFieldIndex};
    }
  }

  /** A known field's turn: records the row, if required, and decodes its payload in place. */
  method DecodeKnown(stream: IStream, wireType: nat, iter: FieldIter, dest: Struct, words: array<nat>,
                     ghost tag: nat, ghost seen0: set<nat>, ghost bits0: set<nat>)
    returns (ok: bool, ghost seen: set<nat>, ghost bits: set<nat>)
    requires stream.Valid() && iter.Valid() && GoodFields(iter.start) && Trackable(iter.start)
    requires Shape(iter.start, dest.m) && Matches(iter.Current(), tag)
    requires words.Length == 2 && MaskIs(words[..], bits0) && Tracks(iter.start, seen0, bits0)
    modifies stream, dest, words
    ensures stream.Valid() && stream.End() <= old(stream.End())
    ensures match DecRecord(iter.start, tag, wireType, old(stream.Rest()), old(dest.m))
            case Got(m, rest) => ok && dest.m == m && stream.Rest() == rest && stream.End() == old(stream.End())
            case Fail => !ok
    ensures ok ==> seen == Note(iter.start, tag, seen0) && MaskIs(words[..], bits) && Tracks(iter.start, seen, bits)
    decreases stream.bytesLeft, 2
  {
    hide GoodFields, Trackable, Shape, DataAddress, SizeAddress, DecField, MaskIs, Tracks, RequiredBefore;
    FoundField(iter.start, tag, iter.pos);
    hide DecRecord, Note, FieldAt, Matches;
    if iter.start == [] {
      EmptyRejects(wireType, stream.Rest(), dest.m);
    }
    seen, bits := MarkSeen(iter, words, seen0, bits0);
    ok := DecodeStaticField(stream, wireType, iter.start, iter.pos, dest);
  }

  /** One record after its key: finds the field from where the iterator stands. */
  method DecodeRecord(stream: IStream, tag: nat, wireType: nat, iter: FieldIter, dest: Struct, words: array<nat>,
                      rangeStart: nat, ghost seen0: set<nat>, ghost bits0: set<nat>)
    returns (ok: bool, extensionRangeStart: nat, ghost seen: set<nat>, ghost bits: set<nat>)
    requires stream.Valid() && iter.Valid() && GoodFields(iter.start) && Trackable(iter.start)
    requires Shape(iter.start, dest.m)
    requires words.Length == 2 && MaskIs(words[..], bits0) && Tracks(iter.start, seen0, bits0)
    modifies stream, iter, dest, words
    ensures iter.Valid() && stream.Valid() && stream.End() <= old(stream.End())
    ensures match DecRecord(iter.start, tag, wireType, old(stream.Rest()), old(dest.m))
            case Got(m, rest) => ok && dest.m == m && stream.Rest() == rest && stream.End() == old(stream.End())
            case Fail => !ok
    ensures ok ==> seen == Note(iter.start, tag, seen0) && MaskIs(words[..], bits) && Tracks(iter.start, seen, bits)
    decreases stream.bytesLeft, 3
  {
    hide GoodFields, Trackable, Shape, DataAddress, SizeAddress, MaskIs, Tracks, RequiredBefore, SkipField;
    hide DecRecord, Note, FieldAt, Matches;
    TagsNonzero(iter.start);
    extensionRangeStart, seen, bits := rangeStart, seen0, bits0;
    var found := iter.Find(tag);
    if found {
      ok, seen, bits := DecodeKnown(stream, wireType, iter, dest, words, tag, seen0, bits0);
    } else {
      UnknownField(iter.start, tag, seen);
      ok, extensionRangeStart := DecodeUnknown(stream, iter, tag, wireType, rangeStart);
    }
  }

  /** The record loop. The iterator keeps its position from field to field, and the first tag at
      which extension handling starts is looked up once. */
  method DecodeNoInit(stream: IStream, fields: seq<Field>, dest: Struct) returns (ok: bool)
    requires stream.Valid() && GoodFields(fields) && Trackable(fields) && Shape(fields, dest.m)
    modifies stream, dest
    ensures stream.Valid() && stream.End() <= old(stream.End())
    ensures match DecMsg(fields, old(stream.Rest()), old(dest.m))
            case Got(m, rest) => ok && dest.m == m && Shape(fields, m)
                                 && stream.Rest() == rest && stream.End() == old(stream.End())
            case Fail => !ok
    decreases stream.bytesLeft, 4
  {
    hide GoodFields, Trackable, Shape, DataAddress, SizeAddress, ReadKey, BitOr, MaskIs, Tracks;
    hide DecLoop, DecRecord, Note, RequiredBefore, AllSeen, FieldAt;
    ghost var all, m0 := stream.Rest(), dest.m;
    ghost var seen: set<nat>, bits: set<nat> := {}, {};
    var fieldsSeen := new nat[2](_ => 0);
    NothingSeen(fields, fieldsSeen[..]);
    FewRequired(fields);
    var extensionRangeStart := 0;
    var iter := new FieldIter(fields, 0);
    var nonEmpty := iter.Begin();
    var eof := false;
    while stream.bytesLeft > 0 && !eof
      invariant stream.Valid() && stream.End() == old(stream.End())
      invariant stream.bytesLeft <= old(stream.bytesLeft)
      invariant iter.Valid() && iter.start == fields && fresh(iter) && fresh(fieldsSeen)
      invariant Shape(fields, dest.m)
      invariant MaskIs(fieldsSeen[..], bits) && Tracks(fields, seen, bits)
      invariant DecLoop(fields, all, m0, {})
                == if eof then Done(dest.m, seen, stream.Rest()) else DecLoop(fields, stream.Rest(), dest.m, seen)
      decreases !eof, stream.bytesLeft
    {
      LoopStep(fields, stream.Rest(), dest.m, seen);
      var got, wireType, tag;
      got, wireType, tag, eof := DecodeTag(stream);
      if !got {
        if eof {
          continue;
        } else {
          return false;
        }
      }
      DecRecordShape(fields, tag, wireType, stream.Rest(), dest.m);
      var decoded;
      decoded, extensionRangeStart, seen, bits :=
        DecodeRecord(stream, tag, wireType, iter, dest, fieldsSeen, extensionRangeStart, seen, bits);
      if !decoded {
        return false;
      }
    }
    LoopStep(fields, stream.Rest(), dest.m, seen);
    var count := CountRequired(iter);
    AllSeenIsAllBits(fields, seen, bits);
    CountIsDefined(fields);
    ok := CheckSeen(fieldsSeen, count, bits);
  }

  method Decode(stream: IStream, fields: seq<Field>, dest: Struct) returns (ok: bool)
    requires stream.Valid() && GoodFields(fields) && Trackable(fields) && Shape(fields, dest.m)
    modifies stream, dest
    ensures stream.Valid() && stream.End() <= old(stream.End())
    ensures match DecMsg(fields, old(stream.Rest()), Defaults(fields, old(dest.m)))
            case Got(m, rest) => ok && dest.m == m && Shape(fields, m)
                                 && stream.Rest() == rest && stream.End() == old(stream.End())
            case Fail => !ok
    decreases stream.bytesLeft, 5
  {
    MessageSetToDefaults(dest, fields);
    ok := DecodeNoInit(stream, fields, dest);
  }

  method DecodeDelimited(stream: IStream, fields: seq<Field>, dest: Struct) returns (ok: bool)
    requires stream.Valid() && GoodFields(fields) && Trackable(fields) && Shape(fields, dest.m)
    modifies stream, dest
    ensures stream.Valid() && stream.End() <= old(stream.End())
    ensures match DecDelimited(fields, old(stream.Rest()), old(dest.m))
            case Got(m, rest) => ok && dest.m == m && Shape(fields, m)
                                 && stream.Rest() == rest && stream.End() == old(stream.End())
            case Fail => !ok
  {
    var framed, substream := stream.MakeStringSubstream();
    if !framed {
      return false;
    }
    var status := Decode(substream, fields, dest);
    ok := stream.CloseStringSubstream(substream);
    return status;
  }

  lemma {:induction false} NothingSeen(fields: seq<Field>, words: seq<nat>)
    requires words == [0, 0]
    ensures MaskIs(words, {}) && Tracks(fields, {}, {})
  {
    forall k: nat
      ensures !Bit(0, k)
    {
      ZeroBits(k);
    }
  }

  /** One turn of the record loop. */
  lemma {:induction false} LoopStep(fields: seq<Field>, bs: seq<byte>, m: Msg, seen: set<nat>)
    ensures bs == [] ==> DecLoop(fields, bs, m, seen) == Done(m, seen, [])
    ensures bs != [] && ReadKey(bs).Eof? ==> DecLoop(fields, bs, m, seen) == Done(m, seen, ReadKey(bs).rest)
    ensures bs != [] && ReadKey(bs).BadKey? ==> DecLoop(fields, bs, m, seen) == Stuck
    ensures bs != [] && ReadKey(bs).Key? ==>
              var k := ReadKey(bs);
              var r := DecRecord(fields, k.tag, k.wireType, k.rest, m);
              DecLoop(fields, bs, m, seen)
              == if r.Fail? then Stuck else DecLoop(fields, r.rest, r.value, Note(fields, k.tag, seen))
  {}

  lemma {:induction false} FoundField(fields: seq<Field>, tag: nat, pos: nat)
    requires GoodFields(fields) && pos < Positions(fields) && Matches(FieldAt(fields, pos), tag)
    ensures FindField(fields, tag) == Some(pos)
    ensures forall w: nat, bs, m :: DecRecord(fields, tag, w, bs, m) == DecField(fields, pos, w, bs, m)
    ensures forall seen ::
              Note(fields, tag, seen) == if FieldAt(fields, pos).htype.Required? then seen + {pos} else seen
  {
    FindUnique(fields, tag, pos);
  }

  lemma {:induction false} UnknownField(fields: seq<Field>, tag: nat, seen: set<nat>)
    requires !exists i: nat :: i < Positions(fields) && Matches(FieldAt(fields, i), tag)
    ensures Note(fields, tag, seen) == seen
    ensures forall w: nat, bs, m ::
              DecRecord(fields, tag, w, bs, m)
              == if SkipField(w, bs).None? then Fail else Got(m, SkipField(w, bs).value)
  {}

  lemma {:induction false} FewRequired(fields: seq<Field>)
    requires Trackable(fields)
    ensures RequiredBefore(fields, 0) == 0 && RequiredCount(fields) < MAX_REQUIRED_FIELDS
  {}
}
