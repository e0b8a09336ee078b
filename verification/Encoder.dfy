/** The encoder: walks a descriptor over a message and writes to a stream, sizing packed arrays
    and submessages on a counting stream first. Ghost results count the runs on nested messages. */
module Encoder {
  import opened Words
  import opened Varint
  import opened Numbers
  import opened Descriptor
  import opened FieldIterator
  import opened Encoding
  import opened Streams

  method EncodeTagForField(stream: OStream, f: Field) returns (ok: bool)
    requires stream.Valid() && GoodField(f) && !f.ltype.Extension?
    modifies stream, stream.buf
    ensures stream.Emitted(old(stream.Snap()), true, KeyBytes(f.tag, WireType(f.ltype)), ok)
  {
    var wiretype: nat;
    match f.ltype {
      case Number(Fixed32) => wiretype := WT_32BIT;
      case Number(Fixed64) => wiretype := WT_64BIT;
      case Number(_) => wiretype := WT_VARINT;
      case _ => wiretype := WT_STRING;
    }
    ok := stream.EncodeTag(wiretype, f.tag);
  }

  method EncodeNumber(stream: OStream, f: Field, n: int) returns (ok: bool)
    requires stream.Valid() && GoodField(f) && f.ltype.Number? && InRange(f.ltype.ty, f.dataSize, n)
    modifies stream, stream.buf
    ensures stream.Emitted(old(stream.Snap()), true, NumBytes(f.ltype.ty, n), ok)
  {
    match f.ltype.ty {
      case Signed =>
        ok := stream.EncodeVarint(n % U64);
      case Unsigned =>
        ok := stream.EncodeVarint(n % U64);
      case ZigZagged =>
        ok := stream.EncodeSVarint(n);
      case Fixed32 =>
        ok := stream.EncodeFixed32(n % U32);
      case Fixed64 =>
        ok := stream.EncodeFixed64(n % U64);
    }
  }

  /** Length of the string in a buffer, looking no further than its end. */
  method StringLength(buf: seq<byte>) returns (size: nat)
    ensures size <= |buf| && buf[..size] == TextBytes(buf)
    ensures (size < |buf| ==> buf[size] == 0) && forall k :: 0 <= k < size ==> buf[k] != 0
  {
    size := 0;
    while size < |buf| && buf[size] != 0
      invariant size <= |buf| && TextBytes(buf) == buf[..size] + TextBytes(buf[size..])
      invariant forall k :: 0 <= k < size ==> buf[k] != 0
    {
      assert buf[size..][1..] == buf[size + 1..];
      assert buf[..size + 1] == buf[..size] + [buf[size]];
      size := size + 1;
    }
    assert TextBytes(buf[size..]) == [];
  }

  /** The zero test for has-less fields. */
  method CheckDefaultValue(f: Field, v: Value) returns (zero: bool)
    requires GoodField(f) && ShapeValue(f, v)
    ensures zero == ZeroValue(f, v)
    decreases f
  {
    match f.ltype {
      case Bytes => zero := v.size == 0;
      case String => zero := v.buf[0] == 0;
      case FixedLengthBytes => zero := f.dataSize == 0;
      case Submessage =>
        TagsNonzero(f.sub);
        var iter := new FieldIter(f.sub, 0);
        var more := iter.Begin();
        var i := 0;
        while more
          invariant iter.Valid() && iter.start == f.sub
          invariant more ==> iter.pos < |f.sub| && i == iter.pos
          invariant !more ==> i == |f.sub|
          invariant forall j :: 0 <= j < i ==> ZeroValue(f.sub[j], v.m.Item(j, 0))
          decreases |f.sub| - i
        {
          assert GoodField(f.sub[i]) && ShapeSlot(f.sub[i], v.m.slots[i]);
          var item := CheckDefaultValue(iter.Current(), v.m.Item(iter.pos, 0));
          if !item {
            assert !ZeroFields(f.sub, v.m);
            return false;
          }
          i := i + 1;
          more := iter.Next();
        }
        assert ZeroFields(f.sub, v.m);
        zero := true;
      case Number(_) => zero := v.n == 0;
      case Extension => zero := true;
    }
  }

  lemma {:induction false} FixedPackedSize(f: Field, s: Slot, n: nat)
    requires GoodField(f) && f.ltype.Number? && (f.ltype.ty.Fixed32? || f.ltype.ty.Fixed64?)
    requires ShapeSlot(f, s) && n <= |s.items|
    ensures |EncPacked(f, s, n)| == (if f.ltype.ty.Fixed32? then 4 else 8) * n
  {
    if n > 0 {
      FixedPackedSize(f, s, n - 1);
      assert ShapeValue(f, s.items[n - 1]);
      assert EncValue(f, s.items[n - 1]) == NumBytes(f.ltype.ty, s.items[n - 1].n);
    }
  }

  /** Both forms of an array start with the forms of its prefixes. */
  lemma {:induction false} PackedRest(f: Field, s: Slot, i: nat, n: nat) returns (rest: seq<byte>)
    requires i <= n <= |s.items|
    ensures EncPacked(f, s, n) == EncPacked(f, s, i) + rest
  {
    rest := [];
    if i < n {
      rest := PackedRest(f, s, i, n - 1);
      rest := rest + EncValue(f, s.items[n - 1]);
    }
  }

  lemma {:induction false} RecordsRest(f: Field, s: Slot, i: nat, n: nat) returns (rest: seq<byte>)
    requires i <= n <= |s.items|
    ensures EncRecords(f, s, n) == EncRecords(f, s, i) + rest
  {
    rest := [];
    if i < n {
      rest := RecordsRest(f, s, i, n - 1);
      rest := rest + EncRecord(f, s.items[n - 1]);
    }
  }

  /** Adds up the sizes of the first `count` items on a counting stream. */
  method PackedSize(f: Field, s: Slot, count: nat) returns (size: nat)
    requires GoodField(f) && Packable(f) && ShapeSlot(f, s) && count <= |s.items|
    ensures size == |EncPacked(f, s, count)|
  {
    if f.ltype.ty.Fixed32? {
      FixedPackedSize(f, s, count);
      return 4 * count;
    } else if f.ltype.ty.Fixed64? {
      FixedPackedSize(f, s, count);
      return 8 * count;
    }
    var sizestream := new OStream.Sizing();
    for i := 0 to count
      invariant sizestream.Valid() && !sizestream.callback && fresh(sizestream) && fresh(sizestream.buf)
      invariant sizestream.bytesWritten == |EncPacked(f, s, i)|
    {
      assert ShapeValue(f, s.items[i]);
      var ok := EncodeNumber(sizestream, f, s.items[i].n);
    }
    return sizestream.bytesWritten;
  }

  /** The items of a packed record, one after the other. */
  method EncodeItems(stream: OStream, f: Field, s: Slot, count: nat) returns (ok: bool)
    requires stream.Valid() && GoodField(f) && Packable(f) && ShapeSlot(f, s) && count <= |s.items|
    modifies stream, stream.buf
    ensures stream.Emitted(old(stream.Snap()), true, EncPacked(f, s, count), ok)
  {
    hide Extends, NumBytes;
    ghost var s0 := stream.Snap();
    ExtendsNothing(s0);
    for i := 0 to count
      invariant stream.Emitted(s0, true, EncPacked(f, s, i), true)
    {
      ghost var s1, item := stream.Snap(), NumBytes(f.ltype.ty, s.items[i].n);
      assert ShapeValue(f, s.items[i]);
      ok := EncodeNumber(stream, f, s.items[i].n);
      assert EncPacked(f, s, i + 1) == EncPacked(f, s, i) + item;
      ExtendsThen(s0, s1, stream.Snap(), EncPacked(f, s, i), true, item, ok);
      if !ok {
        ghost var rest := PackedRest(f, s, i + 1, count);
        ExtendsStop(s0, stream.Snap(), true, EncPacked(f, s, i + 1), true, rest);
        return;
      }
    }
    ok := true;
  }

  /** Tag, size and items of a packed record; a counting stream only adds the size. */
  method EncodePacked(stream: OStream, f: Field, s: Slot, count: nat) returns (ok: bool)
    requires stream.Valid() && GoodField(f) && Packable(f) && ShapeSlot(f, s) && count <= |s.items|
    requires |EncPacked(f, s, count)| < U64
    modifies stream, stream.buf
    ensures stream.Emitted(old(stream.Snap()), true, KeyBytes(f.tag, WT_STRING) + Framed(EncPacked(f, s, count)), ok)
  {
    hide Extends, EncPacked, VarintBytes, ShapeSlot;
    ghost var s0 := stream.Snap();
    ghost var key, body := KeyBytes(f.tag, WT_STRING), EncPacked(f, s, count);
    ghost var head := key + VarintBytes(|body|);
    assert key + Framed(body) == head + body;
    ok := stream.EncodeTag(WT_STRING, f.tag);
    if !ok {
      ExtendsStop(s0, stream.Snap(), true, key, true, Framed(body));
      return;
    }
    ghost var s1 := stream.Snap();
    var size := PackedSize(f, s, count);
    ok := stream.EncodeVarint(size);
    ExtendsThen(s0, s1, stream.Snap(), key, true, VarintBytes(|body|), ok);
    if !ok {
      ExtendsStop(s0, stream.Snap(), true, head, true, body);
      return;
    }
    ghost var s2 := stream.Snap();
    if !stream.callback {
      ok := stream.Write([], size, body);
    } else {
      ok := EncodeItems(stream, f, s, count);
    }
    ExtendsThen(s0, s2, stream.Snap(), head, true, body, ok);
  }

  /** What the array encoder checks of an array's items. */
  ghost predicate ArrayOk(f: Field, s: Slot, count: nat) {
    count <= f.arraySize && forall k :: 0 <= k < count && k < |s.items| ==> OkValue(false, f, s.items[k])
  }

  ghost function ArrayCalls(writing: bool, f: Field, s: Slot, i: nat, count: nat, p: Option<Path>): nat {
    if p.Some? && p.value != [] && p.value[0].0 == i && p.value[0].1 < count && p.value[0].1 < |s.items|
    then ValueCalls(writing, f, s.items[p.value[0].1], Some(p.value[1..]))
    else 0
  }

  /** One tag and value. */
  method EncodeRecord(stream: OStream, f: Field, v: Value, ghost p: Option<Path>)
    returns (ok: bool, ghost calls: nat)
    requires stream.Valid() && GoodField(f) && ShapeValue(f, v) && !f.ltype.Extension?
    requires |EncValue(f, v)| < U64
    modifies stream, stream.buf
    ensures stream.Emitted(old(stream.Snap()), OkValue(false, f, v), EncRecord(f, v), ok)
    ensures ok ==> calls == ValueCalls(stream.callback, f, v, p)
    decreases f, 1
  {
    hide Extends, ValueCalls;
    ghost var s0 := stream.Snap();
    ghost var key := KeyBytes(f.tag, WireType(f.ltype));
    assert EncRecord(f, v) == key + EncValue(f, v);
    ok := EncodeTagForField(stream, f);
    if !ok {
      ExtendsStop(s0, stream.Snap(), true, key, OkValue(false, f, v), EncValue(f, v));
      calls := 0;
      return;
    }
    ghost var s1 := stream.Snap();
    ok, calls := EncodeValue(stream, f, v, p);
    ExtendsThen(s0, s1, stream.Snap(), key, OkValue(false, f, v), EncValue(f, v), ok);
  }

  /** The payload encoder a row's data type selects. */
  method EncodeValue(stream: OStream, f: Field, v: Value, ghost p: Option<Path>)
    returns (ok: bool, ghost calls: nat)
    requires stream.Valid() && GoodField(f) && ShapeValue(f, v) && !f.ltype.Extension?
    requires |EncValue(f, v)| < U64
    modifies stream, stream.buf
    ensures stream.Emitted(old(stream.Snap()), OkValue(false, f, v), EncValue(f, v), ok)
    ensures ok ==> calls == ValueCalls(stream.callback, f, v, p)
    decreases f, 0
  {
    hide Extends;
    calls := 0;
    match f.ltype {
      case Number(_) =>
        ok := EncodeNumber(stream, f, v.n);
      case Bytes =>
        if v.size + BYTES_OFFSET > f.dataSize {
          ExtendsRefused(stream.Snap(), EncValue(f, v));
          return false, 0;
        }
        ok := stream.EncodeString(v.buf[..v.size], v.size);
      case String =>
        var size := StringLength(v.buf);
        ok := stream.EncodeString(v.buf[..size], size);
      case FixedLengthBytes =>
        ok := stream.EncodeString(v.buf, f.dataSize);
      case Submessage =>
        assert EncValue(f, v) == Framed(EncMsg(f.sub, v.m));
        ok, calls := EncodeSubmessage(stream, f.sub, v.m, p);
    }
  }

  /** Sizes the message on a counting stream, writes the length, then writes the message through a
      window of just that size; so the size can never turn out different the second time. */
  method EncodeSubmessage(stream: OStream, fields: seq<Field>, m: Msg, ghost p: Option<Path>)
    returns (ok: bool, ghost calls: nat)
    requires stream.Valid() && GoodFields(fields) && Shape(fields, m)
    requires |EncMsg(fields, m)| < U64
    modifies stream, stream.buf
    ensures stream.Emitted(old(stream.Snap()), OkMsg(false, fields, m), Framed(EncMsg(fields, m)), ok)
    ensures ok ==> calls == CallsAlong(false, fields, m, p)
                            + if stream.callback then CallsAlong(true, fields, m, p) else 0
    decreases fields, 10
  {
    hide Extends, OkMsg, EncMsg, CallsAlong;
    ghost var s0, body := stream.Snap(), EncMsg(fields, m);
    ghost var head := VarintBytes(|body|);
    var sizer := new OStream.Sizing();
    ghost var z0 := sizer.Snap();
    ok, calls := Encode(sizer, fields, m, p);
    ExtendsFacts(z0, sizer.Snap(), OkMsg(false, fields, m), body, ok);
    if !ok {
      ExtendsRefused(s0, Framed(body));
      return false, 0;
    }
    var size := sizer.bytesWritten;
    ok := stream.EncodeVarint(size);
    if !ok {
      ExtendsStop(s0, stream.Snap(), true, head, true, body);
      return;
    }
    ghost var s1 := stream.Snap();
    ExtendsFacts(s0, s1, true, head, true);
    if !stream.callback {
      ok := stream.Write([], size, body);
      ExtendsThen(s0, s1, stream.Snap(), head, true, body, ok);
      return;
    }
    if stream.bytesWritten + size > stream.maxSize {
      ExtendsFull(s1, true, body);
      ExtendsThen(s0, s1, s1, head, true, body, false);
      return false, 0;
    }
    var substream := new OStream.Sub(stream, size);
    ghost var t0 := substream.Snap();
    ghost var c2;
    ok, c2 := Encode(substream, fields, m, p);
    calls := calls + c2;
    ExtendsFacts(t0, substream.Snap(), true, body, ok);
    stream.bytesWritten := stream.bytesWritten + substream.bytesWritten;
    stream.state := substream.state;
    ExtendsSub(s1, stream.Snap(), t0, substream.Snap(), body);
    ExtendsThen(s0, s1, stream.Snap(), head, true, body, true);
    ExtendsFacts(s0, stream.Snap(), true, Framed(body), true);
    if substream.bytesWritten != size {
      assert false;
      ok := false;
    }
  }

  /** An array's items as separate records. */
  method EncodeSeparately(stream: OStream, f: Field, s: Slot, count: nat, ghost i: nat, ghost p: Option<Path>)
    returns (ok: bool, ghost calls: nat)
    requires stream.Valid() && GoodField(f) && ShapeSlot(f, s) && !f.ltype.Extension?
    requires count <= |s.items| && count <= f.arraySize && |EncRecords(f, s, count)| < U64
    modifies stream, stream.buf
    ensures stream.Emitted(old(stream.Snap()), ArrayOk(f, s, count), EncRecords(f, s, count), ok)
    ensures ok ==> calls == ArrayCalls(stream.callback, f, s, i, count, p)
    decreases f, 2
  {
    hide Extends, EncValue, OkValue, ShapeValue, ValueCalls;
    ghost var s0 := stream.Snap();
    calls := 0;
    ExtendsNothing(s0);
    for k := 0 to count
      invariant stream.Emitted(s0, true, EncRecords(f, s, k), true)
      invariant ArrayOk(f, s, k)
      invariant calls == ArrayCalls(stream.callback, f, s, i, k, p)
    {
      ghost var s1, v := stream.Snap(), s.items[k];
      ghost var rest := NextRecord(f, s, k, count);
      NextCalls(stream.callback, f, s, i, k, p);
      ghost var c;
      ok, c := EncodeRecord(stream, f, s.items[k], Into(p, i, k));
      calls := calls + c;
      RecordDone(s0, s1, stream.Snap(), f, s, k, count, rest, ok);
      if !ok {
        return false, 0;
      }
    }
    ok := true;
  }

  lemma {:induction false} NextRecord(f: Field, s: Slot, k: nat, n: nat) returns (rest: seq<byte>)
    requires k < n <= |s.items|
    ensures EncRecords(f, s, k + 1) == EncRecords(f, s, k) + EncRecord(f, s.items[k])
    ensures EncRecords(f, s, n) == EncRecords(f, s, k + 1) + rest
    ensures |EncValue(f, s.items[k])| <= |EncRecords(f, s, n)|
  {
    rest := RecordsRest(f, s, k + 1, n);
  }

  /** An array's work grows by that of its next item. */
  lemma {:induction false} NextCalls(writing: bool, f: Field, s: Slot, i: nat, k: nat, p: Option<Path>)
    requires k < |s.items|
    ensures ArrayCalls(writing, f, s, i, k + 1, p)
            == ArrayCalls(writing, f, s, i, k, p) + ValueCalls(writing, f, s.items[k], Into(p, i, k))
  {
    assert ValueCalls(writing, f, s.items[k], None) == 0;
  }

  /** One record more; a record that is refused or does not fit makes the array fail. */
  lemma {:induction false} RecordDone(s0: Snapshot, s1: Snapshot, s2: Snapshot, f: Field, s: Slot, k: nat,
                                      n: nat, rest: seq<byte>, ok: bool)
    requires k < n <= |s.items| && n <= f.arraySize && ArrayOk(f, s, k)
    requires EncRecords(f, s, k + 1) == EncRecords(f, s, k) + EncRecord(f, s.items[k])
    requires EncRecords(f, s, n) == EncRecords(f, s, k + 1) + rest
    requires Extends(s0, s1, true, EncRecords(f, s, k), true)
    requires Extends(s1, s2, OkValue(false, f, s.items[k]), EncRecord(f, s.items[k]), ok)
    ensures ok ==> ArrayOk(f, s, k + 1) && Extends(s0, s2, true, EncRecords(f, s, k + 1), true)
    ensures !ok ==> Extends(s0, s2, ArrayOk(f, s, n), EncRecords(f, s, n), false)
  {
    hide Extends, EncRecord, EncRecords, OkValue;
    var good := OkValue(false, f, s.items[k]);
    ExtendsFacts(s1, s2, good, EncRecord(f, s.items[k]), ok);
    ExtendsThen(s0, s1, s2, EncRecords(f, s, k), good, EncRecord(f, s.items[k]), ok);
    if !ok {
      ExtendsStop(s0, s2, good, EncRecords(f, s, k + 1), ArrayOk(f, s, n), rest);
    }
  }

  method EncodeArray(stream: OStream, f: Field, s: Slot, count: nat, ghost i: nat, ghost p: Option<Path>)
    returns (ok: bool, ghost calls: nat)
    requires stream.Valid() && GoodField(f) && ShapeSlot(f, s) && f.htype.Repeated?
    requires |EncArray(f, s, count)| < U64
    modifies stream, stream.buf
    ensures stream.Emitted(old(stream.Snap()), ArrayOk(f, s, count), EncArray(f, s, count), ok)
    ensures ok ==> calls == ArrayCalls(stream.callback, f, s, i, count, p)
    decreases f, 3
  {
    hide Extends, EncRecords, EncPacked;
    ghost var s0 := stream.Snap();
    calls := 0;
    if count == 0 {
      ExtendsNothing(s0);
      return true, 0;
    }
    if count > f.arraySize {
      ExtendsRefused(s0, EncArray(f, s, count));
      return false, 0;
    }
    if Packable(f) {
      ok := EncodePacked(stream, f, s, count);
    } else {
      ok, calls := EncodeSeparately(stream, f, s, count, i, p);
    }
  }

  method EncodeBasicField(stream: OStream, fields: seq<Field>, m: Msg, i: nat, ghost p: Option<Path>)
    returns (ok: bool, ghost calls: nat)
    requires stream.Valid() && GoodFields(fields) && Shape(fields, m)
    requires i < |fields| && !fields[i].ltype.Extension?
    requires |EncField(fields, m, i)| < U64
    modifies stream, stream.buf
    ensures stream.Emitted(old(stream.Snap()), OkField(false, fields, m, i), EncField(fields, m, i), ok)
    ensures ok ==> calls == FieldCalls(stream.callback, fields, m, i, p)
    decreases fields, 0
  {
    hide Extends, FieldCalls, ValueCalls, ArrayCalls;
    var f, s := fields[i], m.slots[i];
    assert GoodField(f) && ShapeSlot(f, s);
    ghost var s0 := stream.Snap();
    SplitCalls(stream.callback, fields, m, i, p);
    calls := 0;
    match f.htype {
      case Required =>
        ok, calls := EncodeRecord(stream, f, s.items[0], Into(p, i, 0));
      case Optional =>
        var has := s.size != 0;
        if f.sizeOffset == 0 {
          var zero := CheckDefaultValue(f, s.items[0]);
          has := !zero;
        }
        if has {
          ok, calls := EncodeRecord(stream, f, s.items[0], Into(p, i, 0));
        } else {
          ExtendsNothing(s0);
          ok := true;
        }
      case Repeated =>
        assert EncField(fields, m, i) == EncArray(f, s, s.size);
        ok, calls := EncodeArray(stream, f, s, s.size, i, p);
        ExtendsFacts(s0, stream.Snap(), ArrayOk(f, s, s.size), EncArray(f, s, s.size), ok);
      case Oneof =>
        if m.slots[Leader(fields, i)].size == f.tag {
          ok, calls := EncodeRecord(stream, f, s.items[0], Into(p, i, 0));
        } else {
          ExtendsNothing(s0);
          ok := true;
        }
    }
  }

  /** A field's work is that of the items it sends. */
  lemma {:induction false} SplitCalls(writing: bool, fields: seq<Field>, m: Msg, i: nat, p: Option<Path>)
    requires Shape(fields, m) && i < |fields|
    ensures SentCount(fields, m, i) == 0 ==> FieldCalls(writing, fields, m, i, p) == 0
    ensures SentCount(fields, m, i) == 1 && !fields[i].htype.Repeated? ==>
              FieldCalls(writing, fields, m, i, p) == ValueCalls(writing, fields[i], m.Item(i, 0), Into(p, i, 0))
    ensures fields[i].htype.Repeated? && SentCount(fields, m, i) <= fields[i].arraySize ==>
              FieldCalls(writing, fields, m, i, p)
              == ArrayCalls(writing, fields[i], m.slots[i], i, SentCount(fields, m, i), p)
  {
    hide SentCount;
    assert ShapeSlot(fields[i], m.slots[i]);
    assert ValueCalls(writing, fields[i], m.Item(i, 0), None) == 0;
  }

  /** One row of the descriptor. An extension slot's chain is empty and sends nothing. */
  method EncodeField(stream: OStream, fields: seq<Field>, m: Msg, i: nat, ghost p: Option<Path>)
    returns (ok: bool, ghost calls: nat)
    requires stream.Valid() && GoodFields(fields) && Shape(fields, m)
    requires i < |fields| && |EncField(fields, m, i)| < U64
    modifies stream, stream.buf
    ensures stream.Emitted(old(stream.Snap()), OkField(false, fields, m, i), EncField(fields, m, i), ok)
    ensures ok ==> calls == FieldCalls(stream.callback, fields, m, i, p)
    decreases fields, 1
  {
    hide Extends;
    if fields[i].ltype.Extension? {
      ExtensionSendsNothing(fields, m, i, stream.callback, p);
      ExtendsNothing(stream.Snap());
      return true, 0;
    }
    hide OkField, EncField, FieldCalls;
    ok, calls := EncodeBasicField(stream, fields, m, i, p);
  }

  /** Encodes a message: every field in descriptor order. */
  method Encode(stream: OStream, fields: seq<Field>, m: Msg, ghost p: Option<Path>)
    returns (ok: bool, ghost calls: nat)
    requires stream.Valid() && GoodFields(fields) && Shape(fields, m)
    requires |EncMsg(fields, m)| < U64
    modifies stream, stream.buf
    ensures stream.Emitted(old(stream.Snap()), OkMsg(false, fields, m), EncMsg(fields, m), ok)
    ensures ok ==> calls == CallsAlong(stream.callback, fields, m, p)
    decreases fields, 2
  {
    hide Extends, EncFrom, EncField, OkField, FieldCalls, EarlierCalls, CallsAlong, EncMsg, GoodFields, Shape;
    hide RequiredBefore, DataAddress, SizeAddress, Continues;
    TagsNonzero(fields);
    ghost var s0 := stream.Snap();
    ExtendsNothing(s0);
    EncodeSteps(stream.callback, fields, m, p);
    calls := if p == Some([]) then 1 else 0;
    var iter := new FieldIter(fields, 0);
    var more := iter.Begin();
    if !more {
      return true, calls;
    }
    ghost var i, done := 0, [];
    while more
      invariant iter.Valid() && iter.start == fields && fresh(iter)
      invariant i <= |fields| && (if more then i == iter.pos < |fields| else i == |fields|)
      invariant stream.Emitted(s0, true, done, true)
      invariant EncMsg(fields, m) == done + EncFrom(fields, m, i)
      invariant forall j :: 0 <= j < i ==> OkField(false, fields, m, j)
      invariant calls == (if p == Some([]) then 1 else 0) + EarlierCalls(stream.callback, fields, m, i, p)
      decreases |fields| - i
    {
      ghost var s1, part := stream.Snap(), EncField(fields, m, i);
      assert EncMsg(fields, m) == done + (part + EncFrom(fields, m, i + 1));
      ghost var c;
      ok, c := EncodeField(stream, fields, m, iter.pos, p);
      FieldDone(s0, s1, stream.Snap(), fields, m, i, done, ok);
      if !ok {
        return false, 0;
      }
      done := done + part;
      calls := calls + c;
      i := i + 1;
      more := iter.Next();
    }
    assert done + [] == done;
    ok := true;
  }

  /** Work below the fields before `i`. */
  ghost function EarlierCalls(writing: bool, fields: seq<Field>, m: Msg, i: nat, p: Option<Path>): nat
    requires i <= |fields|
  {
    if p.Some? && p.value != [] && p.value[0].0 < i then FieldCalls(writing, fields, m, p.value[0].0, p) else 0
  }

  /** The recurrences the field loop follows. */
  lemma {:induction false} EncodeSteps(writing: bool, fields: seq<Field>, m: Msg, p: Option<Path>)
    ensures EncMsg(fields, m) == EncFrom(fields, m, 0) && EncFrom(fields, m, |fields|) == []
    ensures forall i :: 0 <= i < |fields| ==>
              EncFrom(fields, m, i) == EncField(fields, m, i) + EncFrom(fields, m, i + 1)
    ensures EarlierCalls(writing, fields, m, 0, p) == 0
    ensures forall i :: 0 <= i < |fields| ==>
              EarlierCalls(writing, fields, m, i + 1, p)
              == EarlierCalls(writing, fields, m, i, p) + FieldCalls(writing, fields, m, i, p)
    ensures CallsAlong(writing, fields, m, p)
            == (if p == Some([]) then 1 else 0) + EarlierCalls(writing, fields, m, |fields|, p)
  {
    if p.Some? && p.value != [] {
      var (i, k) := p.value[0];
      if i < |fields| && Sends(fields, m, i, k) {
        assert FieldCalls(writing, fields, m, i, p) == ValueCalls(writing, fields[i], m.Item(i, k), Some(p.value[1..]));
      }
    }
  }

  lemma {:induction false} ExtensionSendsNothing(fields: seq<Field>, m: Msg, i: nat, w: bool, p: Option<Path>)
    requires i < |fields| && fields[i].ltype.Extension? && GoodField(fields[i])
    ensures EncField(fields, m, i) == [] && OkField(false, fields, m, i)
    ensures FieldCalls(w, fields, m, i, p) == 0
  {}

  /** One field more; a field that is refused or does not fit makes its message fail. */
  lemma {:induction false} FieldDone(s0: Snapshot, s1: Snapshot, s2: Snapshot, fields: seq<Field>, m: Msg,
                                     i: nat, done: seq<byte>, ok: bool)
    requires i < |fields| && EncMsg(fields, m) == done + EncFrom(fields, m, i)
    requires Extends(s0, s1, true, done, true)
    requires Extends(s1, s2, OkField(false, fields, m, i), EncField(fields, m, i), ok)
    ensures EncMsg(fields, m) == (done + EncField(fields, m, i)) + EncFrom(fields, m, i + 1)
    ensures ok ==> OkField(false, fields, m, i) && Extends(s0, s2, true, done + EncField(fields, m, i), true)
    ensures !ok ==> Extends(s0, s2, OkMsg(false, fields, m), EncMsg(fields, m), false)
  {
    var part, rest, good := EncField(fields, m, i), EncFrom(fields, m, i + 1), OkField(false, fields, m, i);
    assert EncFrom(fields, m, i) == part + rest;
    hide Extends, EncField, EncFrom, EncMsg, OkField;
    assert done + (part + rest) == (done + part) + rest;
    ExtendsFacts(s1, s2, good, part, ok);
    ExtendsThen(s0, s1, s2, done, good, part, ok);
    if !ok {
      ExtendsStop(s0, s2, good, done + part, OkMsg(false, fields, m), rest);
    }
  }

  method EncodeDelimited(stream: OStream, fields: seq<Field>, m: Msg) returns (ok: bool)
    requires stream.Valid() && GoodFields(fields) && Shape(fields, m)
    requires |EncMsg(fields, m)| < U64
    modifies stream, stream.buf
    ensures stream.Emitted(old(stream.Snap()), OkMsg(false, fields, m), Framed(EncMsg(fields, m)), ok)
  {
    ghost var calls;
    ok, calls := EncodeSubmessage(stream, fields, m, None);
  }

  /** The size is reported exactly for the messages the encoder accepts, and is the length of
      what a writing encoder with room for it writes. */
  method GetEncodedSize(fields: seq<Field>, m: Msg) returns (ok: bool, size: nat)
    requires GoodFields(fields) && Shape(fields, m) && |EncMsg(fields, m)| < U64
    ensures ok <==> OkMsg(false, fields, m)
    ensures ok ==> size == |EncMsg(fields, m)|
  {
    var stream := new OStream.Sizing();
    ghost var calls;
    ok, calls := Encode(stream, fields, m, None);
    size := stream.bytesWritten;
  }

  /** Sizing refines writing: with the size in hand, a writing run into `room` bytes succeeds
      exactly when the message is accepted and the size is at most `room`. */
  method EncodeIntoBuffer(buf: array<byte>, room: nat, fields: seq<Field>, m: Msg)
    returns (sized: bool, size: nat, ok: bool, written: nat)
    requires GoodFields(fields) && Shape(fields, m) && |EncMsg(fields, m)| < U64 && room <= buf.Length
    modifies buf
    ensures sized <==> OkMsg(false, fields, m)
    ensures sized ==> size == |EncMsg(fields, m)|
    ensures ok <==> sized && size <= room
    ensures ok ==> written == size && buf[..written] == EncMsg(fields, m)
    ensures buf[room..] == old(buf[..])[room..]
  {
    sized, size := GetEncodedSize(fields, m);
    var stream := new OStream.FromBuffer(buf, room);
    ghost var calls;
    ok, calls := Encode(stream, fields, m, None);
    written := stream.bytesWritten;
    assert ok ==> buf[..written] == buf[0..written];
  }
}
