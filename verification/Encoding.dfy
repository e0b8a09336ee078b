/** What the encoder emits for a message, when it refuses one, and how often it visits each part. */
module Encoding {
  import opened Words
  import opened Varint
  import opened Numbers
  import opened Descriptor

  const WT_VARINT: nat := 0
  const WT_64BIT: nat := 1
  const WT_STRING: nat := 2
  const WT_32BIT: nat := 5

  function WireType(l: DataType): (w: nat)
    ensures w < 8
  {
    match l
    case Number(Fixed32) => WT_32BIT
    case Number(Fixed64) => WT_64BIT
    case Number(_) => WT_VARINT
    case _ => WT_STRING
  }

  function KeyBytes(tag: nat, wireType: nat): seq<byte> {
    VarintBytes(tag * 8 + wireType)
  }

  /** The bytes of a string buffer before its terminator. */
  function TextBytes(buf: seq<byte>): (s: seq<byte>)
    ensures |s| <= |buf|
  {
    if buf == [] || buf[0] == 0 then [] else [buf[0]] + TextBytes(buf[1..])
  }

  /** A string ends at its first zero, or at the end of its buffer if there is none. */
  lemma {:induction false} TextEnds(buf: seq<byte>)
    ensures var n := |TextBytes(buf)|;
            && n <= |buf| && TextBytes(buf) == buf[..n]
            && (n < |buf| ==> buf[n] == 0) && forall k :: 0 <= k < n ==> buf[k] != 0
  {
    if buf != [] && buf[0] != 0 {
      TextEnds(buf[1..]);
      assert forall k :: 1 <= k < |buf| ==> buf[k] == buf[1..][k - 1];
    }
  }

  function BlobBytes(size: nat, buf: seq<byte>): seq<byte> {
    if size <= |buf| then buf[..size] else buf
  }

  function MsgOf(v: Value): Msg {
    if v.Sub? then v.m else Msg([])
  }

  /** The zero test behind has-less fields. Inside a submessage it looks only at each member's
      first item: counts and has-flags do not matter to it. */
  predicate ZeroValue(f: Field, v: Value)
    decreases f, 0
  {
    match f.ltype
    case Number(_) => v.Num? && v.n == 0
    case Bytes => v.Blob? && v.size == 0
    case String => v.Text? && |v.buf| > 0 && v.buf[0] == 0
    case FixedLengthBytes => f.dataSize == 0
    case Submessage => ZeroFields(f.sub, MsgOf(v))
    case Extension => true
  }

  predicate ZeroFields(fields: seq<Field>, m: Msg)
    decreases fields
  {
    forall i :: 0 <= i < |fields| ==> ZeroValue(fields[i], m.Item(i, 0))
  }

  /** Whether an optional field counts as present. */
  predicate Present(f: Field, s: Slot)
    decreases f, 1
  {
    if HasFlag(f) then s.size != 0
    else |s.items| > 0 && !ZeroValue(f, s.items[0])
  }

  predicate Active(fields: seq<Field>, m: Msg, i: nat)
    requires i < |fields|
  {
    m.Size(Leader(fields, i)) == fields[i].tag
  }

  /** Number of items of field `i` that go out. */
  function SentCount(fields: seq<Field>, m: Msg, i: nat): nat
    requires i < |fields|
    decreases fields
  {
    var f := fields[i];
    if f.ltype.Extension? then 0
    else
      match f.htype
      case Required => 1
      case Optional => if Present(f, m.At(i)) then 1 else 0
      case Repeated => m.Size(i)
      case Oneof => if Active(fields, m, i) then 1 else 0
  }

  function EncValue(f: Field, v: Value): seq<byte>
    decreases f, 0
  {
    match f.ltype
    case Number(ty) => if v.Num? then NumBytes(ty, v.n) else []
    case Bytes => if v.Blob? then Framed(BlobBytes(v.size, v.buf)) else []
    case String => if v.Text? then Framed(TextBytes(v.buf)) else []
    case FixedLengthBytes => if v.Raw? then Framed(v.buf) else []
    case Submessage => Framed(EncMsg(f.sub, MsgOf(v)))
    case Extension => []
  }

  function EncRecord(f: Field, v: Value): seq<byte>
    decreases f, 1
  {
    KeyBytes(f.tag, WireType(f.ltype)) + EncValue(f, v)
  }

  /** The first `n` items as separate records, and as the body of a packed record. */
  function EncRecords(f: Field, s: Slot, n: nat): seq<byte>
    decreases f, 2, n
  {
    if n == 0 || |s.items| < n then [] else EncRecords(f, s, n - 1) + EncRecord(f, s.items[n - 1])
  }

  function EncPacked(f: Field, s: Slot, n: nat): seq<byte>
    decreases f, 2, n
  {
    if n == 0 || |s.items| < n then [] else EncPacked(f, s, n - 1) + EncValue(f, s.items[n - 1])
  }

  function EncArray(f: Field, s: Slot, n: nat): seq<byte>
    decreases f, 3
  {
    if n == 0 then []
    else if Packable(f) then KeyBytes(f.tag, WT_STRING) + Framed(EncPacked(f, s, n))
    else EncRecords(f, s, n)
  }

  function EncField(fields: seq<Field>, m: Msg, i: nat): seq<byte>
    requires i < |fields|
    decreases fields, 0
  {
    var f, n := fields[i], SentCount(fields, m, i);
    if f.htype.Repeated? then EncArray(f, m.At(i), n)
    else if n == 0 then []
    else EncRecord(f, m.Item(i, 0))
  }

  /** Fields from `i` on. */
  function EncFrom(fields: seq<Field>, m: Msg, i: nat): seq<byte>
    requires i <= |fields|
    decreases fields, 1 + |fields| - i
  {
    if i == |fields| then [] else EncField(fields, m, i) + EncFrom(fields, m, i + 1)
  }

  function EncMsg(fields: seq<Field>, m: Msg): seq<byte>
    decreases fields, 2 + |fields|
  {
    EncFrom(fields, m, 0)
  }

  /** What must hold of a value that goes out. The encoder itself checks counts and bytes sizes;
      a `strict` reader also needs strings to be terminated inside their buffer and the length of
      every nested body to fit the 32 bits it is read with. */
  predicate OkValue(strict: bool, f: Field, v: Value)
    decreases f, 0
  {
    match f.ltype
    case Bytes => v.Blob? && v.size + BYTES_OFFSET <= f.dataSize
    case String => v.Text? && (strict ==> |TextBytes(v.buf)| < |v.buf|)
    case Submessage => OkMsg(strict, f.sub, MsgOf(v)) && (strict ==> |EncMsg(f.sub, MsgOf(v))| < U32)
    case _ => true
  }

  predicate OkField(strict: bool, fields: seq<Field>, m: Msg, i: nat)
    requires i < |fields|
    decreases fields, 0
  {
    var f, s, n := fields[i], m.At(i), SentCount(fields, m, i);
    && (f.htype.Repeated? ==> n <= f.arraySize)
    && (forall k :: 0 <= k < n && k < |s.items| ==> OkValue(strict, f, s.items[k]))
    && (strict && f.htype.Repeated? && Packable(f) ==> |EncPacked(f, s, n)| < U32)
  }

  predicate OkMsg(strict: bool, fields: seq<Field>, m: Msg)
    decreases fields, 1
  {
    forall i :: 0 <= i < |fields| ==> OkField(strict, fields, m, i)
  }

  /** A strict message is one the encoder takes. */
  lemma {:induction false} StrictIsOk(fields: seq<Field>, m: Msg)
    requires OkMsg(true, fields, m)
    ensures OkMsg(false, fields, m)
    decreases fields
  {
    forall i | 0 <= i < |fields|
      ensures OkField(false, fields, m, i)
    {
      assert OkField(true, fields, m, i);
      var f, s, n := fields[i], m.At(i), SentCount(fields, m, i);
      forall k | 0 <= k < n && k < |s.items|
        ensures OkValue(false, f, s.items[k])
      {
        StrictValueIsOk(f, s.items[k]);
      }
    }
  }

  lemma {:induction false} StrictValueIsOk(f: Field, v: Value)
    requires OkValue(true, f, v)
    ensures OkValue(false, f, v)
    decreases f, 0
  {
    if f.ltype.Submessage? {
      StrictIsOk(f.sub, MsgOf(v));
    }
  }

  // ---- Work: how many times the encoder runs on each nested message ----

  /** Which item of which field to enter, from the top message down. */
  type Path = seq<(nat, nat)>

  predicate Sends(fields: seq<Field>, m: Msg, i: nat, k: nat) {
    i < |fields| && k < SentCount(fields, m, i)
  }

  /** The path leads through submessages that are encoded. */
  predicate IsEncoded(fields: seq<Field>, m: Msg, p: Path)
    decreases |p|
  {
    p == [] ||
    var (i, k) := p[0];
    Sends(fields, m, i, k) && fields[i].ltype.Submessage? && IsEncoded(fields[i].sub, MsgOf(m.Item(i, k)), p[1..])
  }

  /** Runs of the message encoder on the message at `p`, caused by one run on `m`: every encoded
      submessage is sized once and, when writing, then written once. */
  function Calls(writing: bool, fields: seq<Field>, m: Msg, p: Path): nat
    decreases |p|
  {
    if p == [] then 1
    else
      var (i, k) := p[0];
      if Sends(fields, m, i, k) && fields[i].ltype.Submessage? then
        var sub, child := fields[i].sub, MsgOf(m.Item(i, k));
        Calls(false, sub, child, p[1..]) + if writing then Calls(true, sub, child, p[1..]) else 0
      else 0
  }

  /** The same along an optional path, and split by the field and item entered first. */
  function CallsAlong(writing: bool, fields: seq<Field>, m: Msg, p: Option<Path>): nat {
    if p.None? then 0 else Calls(writing, fields, m, p.value)
  }

  function ValueCalls(writing: bool, f: Field, v: Value, p: Option<Path>): nat {
    if !f.ltype.Submessage? then 0
    else CallsAlong(false, f.sub, MsgOf(v), p) + if writing then CallsAlong(true, f.sub, MsgOf(v), p) else 0
  }

  function Into(p: Option<Path>, i: nat, k: nat): Option<Path> {
    if p.Some? && p.value != [] && p.value[0] == (i, k) then Some(p.value[1..]) else None
  }

  function FieldCalls(writing: bool, fields: seq<Field>, m: Msg, i: nat, p: Option<Path>): nat
    requires i < |fields|
  {
    if p.Some? && p.value != [] && p.value[0].0 == i && Sends(fields, m, i, p.value[0].1)
    then ValueCalls(writing, fields[i], m.Item(i, p.value[0].1), Some(p.value[1..]))
    else 0
  }

  /** A sizing run visits each encoded message once; a writing run visits a message at nesting
      depth d exactly d + 1 times. Messages that are not encoded are never visited. */
  lemma {:induction false} WorkByDepth(fields: seq<Field>, m: Msg, p: Path)
    ensures IsEncoded(fields, m, p) ==> Calls(false, fields, m, p) == 1
                                        && Calls(true, fields, m, p) == |p| + 1
    ensures !IsEncoded(fields, m, p) ==> Calls(false, fields, m, p) == 0 == Calls(true, fields, m, p)
    decreases |p|
  {
    if p != [] {
      var (i, k) := p[0];
      if Sends(fields, m, i, k) && fields[i].ltype.Submessage? {
        WorkByDepth(fields[i].sub, MsgOf(m.Item(i, k)), p[1..]);
      }
    }
  }
}
