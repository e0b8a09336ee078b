/** The structure's raw contents: what initialisation and decoding store, and what the round trip
    preserves, without any notion of a view. */
module Contents {
  import opened Words
  import opened Varint
  import opened Descriptor
  import opened FieldIterator
  import opened Encoding
  import opened Decoding
  import opened Views
  import opened Records
  import opened RoundTrip
  import opened Fidelity
  import opened Acceptance

  // ---- What is stored ----

  predicate AllZero(bs: seq<byte>) {
    forall k :: 0 <= k < |bs| ==> bs[k] == 0
  }

  /** A union's submessage is reset to zeroed memory before it is initialised. */
  lemma {:induction false} ZeroContents(f: Field, i: nat)
    requires GoodField(f)
    ensures f.ltype.Number? ==> ZeroOf(f) == Num(0)
    ensures f.ltype.Bytes? ==> ZeroOf(f).Blob? && ZeroOf(f).size == 0 && AllZero(ZeroOf(f).buf)
    ensures f.ltype.String? ==> ZeroOf(f).Text? && AllZero(ZeroOf(f).buf)
    ensures f.ltype.FixedLengthBytes? ==> ZeroOf(f).Raw? && AllZero(ZeroOf(f).buf)
    ensures f.ltype.Submessage? && i < |f.sub| ==>
              var s := MsgOf(ZeroOf(f)).At(i);
              s.size == 0 && forall k :: 0 <= k < |s.items| ==> s.items[k] == ZeroOf(f.sub[i])
  {
    if f.ltype.Submessage? && i < |f.sub| {
      assert MsgOf(ZeroOf(f)).slots[i] == ZeroSlot(f.sub[i]);
    }
  }

  /** What initialisation leaves in a member that is neither an array entry nor in a union: its
      default, or zeros; a submessage is initialised in place. */
  lemma {:induction false} InitialValue(f: Field, v: Value)
    requires GoodField(f) && ShapeValue(f, v)
    ensures f.default.Some? ==> DefaultValue(f, v) == f.default.value
    ensures f.default.None? && f.ltype.Number? ==> DefaultValue(f, v) == Num(0)
    ensures f.default.None? && f.ltype.Bytes? ==>
              DefaultValue(f, v).Blob? && DefaultValue(f, v).size == 0 && AllZero(DefaultValue(f, v).buf)
    ensures f.default.None? && f.ltype.String? ==> DefaultValue(f, v).Text? && AllZero(DefaultValue(f, v).buf)
    ensures f.default.None? && f.ltype.FixedLengthBytes? ==> DefaultValue(f, v).Raw? && AllZero(DefaultValue(f, v).buf)
    ensures f.ltype.Submessage? ==> DefaultValue(f, v) == Sub(Defaults(f.sub, v.m))
  {
    hide Defaults;
  }

  /** Initialisation clears has-flags, counts and which-tags, leaves array entries and union members
      alone, and sets other members. */
  lemma {:induction false} InitialContents(fields: seq<Field>, prior: Msg, i: nat)
    requires GoodFields(fields) && Shape(fields, prior) && i < |fields|
    ensures var f, d, s := fields[i], Defaults(fields, prior), prior.At(i);
            && (f.htype.Repeated? ==> d.At(i) == Slot(0, s.items))
            && (f.htype.Oneof? ==> d.Size(Leader(fields, i)) == 0 && d.At(i).items == s.items)
            && (f.htype.Optional? && HasFlag(f) ==> d.Size(i) == 0)
            && (f.htype.Required? || f.htype.Optional? ==> d.Item(i, 0) == DefaultValue(f, prior.Item(i, 0)))
  {
    ShapesAt(fields, i, prior);
    hide GoodField, GoodFields, Shape, ShapeSlot, DefaultValue;
    var d, l := Defaults(fields, prior), Leader(fields, i);
    assert |prior.slots| == |fields|;
    assert d.slots[i] == DefaultSlot(fields[i], Continues(fields, i), prior.slots[i]);
    assert d.slots[l] == DefaultSlot(fields[l], Continues(fields, l), prior.slots[l]);
  }

  /** Decoding a payload into a field marks it as present: the has-flag is set, a count grows by one
      for a single entry, and a union's which-tag becomes the member's tag. */
  lemma {:induction false} MarkedPresent(fields: seq<Field>, i: nat, wireType: nat, bs: seq<byte>, m: Msg)
    requires GoodFields(fields) && Shape(fields, m) && i < |fields| && DecField(fields, i, wireType, bs, m).Got?
    ensures var f, r := fields[i], DecField(fields, i, wireType, bs, m).value;
            && (f.htype.Oneof? ==> r.Size(Leader(fields, i)) == f.tag)
            && (f.htype.Optional? && HasFlag(f) ==> r.Size(i) == 1)
            && (f.htype.Optional? && !HasFlag(f) ==> r.Size(i) == m.Size(i))
            && (f.htype.Repeated? && !(f.ltype.Number? && wireType == 2) ==> r.Size(i) == m.Size(i) + 1)
  {
    hide DecValue, DecPacked, InitValue;
    ShapesAt(fields, i, m);
  }

  /** Bytes and strings are stored in front of what the buffer held, fixed-length bytes as a whole;
      an empty payload gives fixed-length bytes that are all zero. */
  lemma {:induction false} StoredBytes(f: Field, body: seq<byte>, t: seq<byte>, v: Value)
    requires GoodField(f) && ShapeValue(f, v) && |body| < U32
    ensures f.ltype.Bytes? ==>
              DecValue(f, Framed(body) + t, v)
              == if |body| + 4 > f.dataSize then Fail else Got(Blob(|body|, body + v.buf[|body|..]), t)
    ensures f.ltype.String? ==>
              DecValue(f, Framed(body) + t, v)
              == if |body| + 1 > f.dataSize then Fail else Got(Text(body + [0] + v.buf[|body| + 1..]), t)
    ensures f.ltype.FixedLengthBytes? ==>
              var r := DecValue(f, Framed(body) + t, v);
              && (r.Got? <==> |body| == 0 || |body| == f.dataSize)
              && (r.Got? ==> r.rest == t && r.value.Raw? && |r.value.buf| == f.dataSize
                             && (|body| == 0 ==> AllZero(r.value.buf)) && (|body| > 0 ==> r.value.buf == body))
  {
    hide Framed, ReadFrame;
    FrameRoundTrip(body, t);
  }

  /** A delimited message that ends early at a zero key leaves the stream behind its frame all the
      same: what follows the zero key inside the frame is skipped. */
  lemma {:induction false} DelimitedSkipsTail(fields: seq<Field>, a: seq<byte>, b: seq<byte>, t: seq<byte>, m: Msg)
    requires WholeRecords(fields, a) && DecMsg(fields, a, Defaults(fields, m)).Got?
    requires |a + ([0] + b)| < U32
    ensures DecDelimited(fields, Framed(a + ([0] + b)) + t, m)
            == Got(DecMsg(fields, a, Defaults(fields, m)).value, t)
  {
    hide DecMsg, Framed, ReadFrame, Defaults;
    FrameRoundTrip(a + ([0] + b), t);
    ZeroKeyStopsMerge(fields, a, b, Defaults(fields, m));
  }

  // ---- Agreement of raw contents ----

  /** Equal through the first zero of `a`. */
  predicate SameText(a: seq<byte>, b: seq<byte>) {
    forall k :: 0 <= k < |a| && k < |b| && (forall j :: 0 <= j < k ==> a[j] != 0) ==> a[k] == b[k]
  }

  predicate AgreeValue(f: Field, v: Value, w: Value)
    decreases f, 0
  {
    match f.ltype
    case Number(_) => v.Num? && w.Num? && v.n == w.n
    case Bytes => v.Blob? && w.Blob? && v.size == w.size && v.size <= |v.buf| && w.size <= |w.buf|
                  && v.buf[..v.size] == w.buf[..w.size]
    case String => v.Text? && w.Text? && SameText(v.buf, w.buf)
    case FixedLengthBytes => v.Raw? && w.Raw? && v.buf == w.buf
    case Submessage => Agree(f.sub, MsgOf(v), MsgOf(w))
    case Extension => true
  }

  /** Same has-flag, count or selection by the which-tag, and same content where there is any. */
  predicate AgreeField(fields: seq<Field>, m: Msg, d: Msg, i: nat)
    requires i < |fields|
    decreases fields, 0
  {
    var f, s, r, l := fields[i], m.At(i), d.At(i), Leader(fields, i);
    if f.htype.Repeated? then
      && s.size == r.size
      && forall k :: 0 <= k < s.size && k < |s.items| && k < |r.items| ==> AgreeValue(f, s.items[k], r.items[k])
    else if f.htype.Oneof? then
      && (m.Size(l) == f.tag <==> d.Size(l) == f.tag)
      && (m.Size(l) == f.tag ==> AgreeValue(f, m.Item(i, 0), d.Item(i, 0)))
    else if f.htype.Optional? && HasFlag(f) then
      && (s.size == 0 <==> r.size == 0)
      && (s.size != 0 ==> AgreeValue(f, m.Item(i, 0), d.Item(i, 0)))
    else
      AgreeValue(f, m.Item(i, 0), d.Item(i, 0))
  }

  predicate Agree(fields: seq<Field>, m: Msg, d: Msg)
    decreases fields, 1
  {
    forall i :: 0 <= i < |fields| ==> AgreeField(fields, m, d, i)
  }

  lemma {:induction false} SameTextIsSameString(a: seq<byte>, b: seq<byte>)
    requires |a| == |b|
    ensures SameText(a, b) <==> TextBytes(a) == TextBytes(b)
  {
    TextEnds(a);
    TextEnds(b);
    var n, n' := |TextBytes(a)|, |TextBytes(b)|;
    hide TextBytes;
    if SameText(a, b) {
      assert forall k :: 0 <= k < n ==> b[k] == a[k] && b[k] != 0;
      assert n < |a| ==> b[n] == a[n];
      assert n == n';
      assert a[..n] == b[..n];
    }
    if TextBytes(a) == TextBytes(b) {
      forall k | 0 <= k < |a| && (forall j :: 0 <= j < k ==> a[j] != 0)
        ensures a[k] == b[k]
      {
        assert n < |a| ==> k <= n;
        if k < n {
          assert a[k] == TextBytes(a)[k] && b[k] == TextBytes(b)[k];
        }
      }
    }
  }

  lemma {:induction false} ValueContents(f: Field, v: Value, w: Value)
    requires GoodField(f) && ShapeValue(f, v) && ShapeValue(f, w) && ReadyValue(f, v) && ReadyValue(f, w)
    ensures ViewValue(false, f, v) == ViewValue(false, f, w) <==> AgreeValue(f, v, w)
    decreases f, 0
  {
    match f.ltype
    case String => SameTextIsSameString(v.buf, w.buf);
    case Submessage => VisibleIsContents(f.sub, v.m, w.m);
    case Bytes =>
      assert |BlobBytes(v.size, v.buf)| == v.size && |BlobBytes(w.size, w.buf)| == w.size;
    case _ =>
  }

  lemma {:induction false} FieldContents(fields: seq<Field>, m: Msg, d: Msg, i: nat)
    requires GoodFields(fields) && Shape(fields, m) && Shape(fields, d) && i < |fields|
    requires ReadyField(fields, m, i) && ReadyField(fields, d, i)
    ensures ViewField(false, fields, m, i) == ViewField(false, fields, d, i) <==> AgreeField(fields, m, d, i)
    decreases fields, 0
  {
    hide ViewValue, AgreeValue, ReadyValue, ShapeValue;
    var f, s, r := fields[i], m.slots[i], d.slots[i];
    ShapesAt(fields, i, m);
    ShapesAt(fields, i, d);
    if f.htype.Repeated? {
      EntryContents(f, s, r);
    } else {
      var v, w := s.items[0], r.items[0];
      assert v == m.Item(i, 0) && w == d.Item(i, 0) && ShapeValue(f, v) && ShapeValue(f, w);
      if ReadyValue(f, v) && ReadyValue(f, w) {
        ValueContents(f, v, w);
      }
    }
  }

  lemma {:induction false} EntryContents(f: Field, s: Slot, r: Slot)
    requires GoodField(f) && ShapeSlot(f, s) && ShapeSlot(f, r) && s.size <= |s.items| && r.size <= |r.items|
    requires forall k :: 0 <= k < s.size ==> ReadyValue(f, s.items[k])
    requires forall k :: 0 <= k < r.size ==> ReadyValue(f, r.items[k])
    ensures ViewItems(false, f, s) == ViewItems(false, f, r) <==>
              s.size == r.size && forall k :: 0 <= k < s.size ==> AgreeValue(f, s.items[k], r.items[k])
    decreases f, 1
  {
    hide ViewValue, AgreeValue, ReadyValue, ViewItems;
    var a, b := ViewItems(false, f, s), ViewItems(false, f, r);
    assert |a| == s.size && |b| == r.size;
    if s.size == r.size {
      forall k | 0 <= k < s.size
        ensures a[k] == b[k] <==> AgreeValue(f, s.items[k], r.items[k])
      {
        assert ShapeValue(f, s.items[k]) && ShapeValue(f, r.items[k]);
        ItemView(f, s, k);
        ItemView(f, r, k);
        ValueContents(f, s.items[k], r.items[k]);
      }
      if a == b {
        assert forall k :: 0 <= k < s.size ==> a[k] == b[k];
      }
    }
  }

  /** Two structures with counts and sizes inside their storage show the same exactly when their raw
      contents agree. */
  lemma {:induction false} VisibleIsContents(fields: seq<Field>, m: Msg, d: Msg)
    requires GoodFields(fields) && Shape(fields, m) && Shape(fields, d) && Ready(fields, m) && Ready(fields, d)
    ensures ViewMsg(false, fields, m) == ViewMsg(false, fields, d) <==> Agree(fields, m, d)
    decreases fields, 1
  {
    hide ViewField, AgreeField, ReadyField, GoodFields, Shape;
    forall i | 0 <= i < |fields|
      ensures ViewField(false, fields, m, i) == ViewField(false, fields, d, i) <==> AgreeField(fields, m, d, i)
    {
      assert ReadyField(fields, m, i) && ReadyField(fields, d, i);
      FieldContents(fields, m, d, i);
    }
    hide ViewMsg;
    if ViewMsg(false, fields, m) == ViewMsg(false, fields, d) {
      ViewsAgreeAt(false, fields, m, d);
    }
    if Agree(fields, m, d) {
      assert forall i :: 0 <= i < |fields| ==> AgreeField(fields, m, d, i);
      ViewsAgree(false, fields, m, d);
    }
  }

  /** The round trip on raw contents: has-flags, counts, which-tags, numbers, bytes, strings through
      their terminator and nested structures are those of the sender if and only if the message is
      faithful. */
  lemma {:induction false} ContentsArrive(fields: seq<Field>, m: Msg, prior: Msg)
    requires GoodFields(fields) && Shape(fields, m) && Shape(fields, prior)
    requires Ready(fields, m) && OkMsg(true, fields, m)
    ensures var r := DecMsg(fields, EncMsg(fields, m), Defaults(fields, prior));
            r.Got? && r.rest == [] && (Agree(fields, m, r.value) <==> Faithful(fields, m))
  {
    hide DecMsg, EncMsg, ViewMsg, OkMsg, GoodFields, Shape, Defaults, Faithful, Ready, Agree;
    var d := Defaults(fields, prior);
    RoundTripLossless(fields, m, prior);
    DefaultsShape(fields, prior);
    DefaultsAreReady(fields, prior);
    DecMsgShape(fields, EncMsg(fields, m), d);
    MsgStaysReady(fields, EncMsg(fields, m), d);
    VisibleIsContents(fields, m, DecMsg(fields, EncMsg(fields, m), d).value);
  }

  // ---- Which-tags ----

  /** The which-tag in slot `l` names a member of its union. */
  predicate NamesMember(fields: seq<Field>, l: nat, tag: nat) {
    exists j :: 0 <= j < |fields| && fields[j].htype.Oneof? && Leader(fields, j) == l && fields[j].tag == tag
  }

  lemma {:induction false} WhichAfterField(fields: seq<Field>, i: nat, l: nat, wireType: nat, bs: seq<byte>, m: Msg)
    requires GoodFields(fields) && Shape(fields, m) && i < |fields| && l < |fields| && fields[l].htype.Oneof?
    requires DecField(fields, i, wireType, bs, m).Got?
    ensures var r := DecField(fields, i, wireType, bs, m).value;
            r.Size(l) == m.Size(l) || NamesMember(fields, l, r.Size(l))
  {
    hide DecValue, DecPacked, InitValue;
    ShapesAt(fields, i, m);
    if fields[i].htype.Oneof? && Leader(fields, i) == l {
      MarkedPresent(fields, i, wireType, bs, m);
    }
  }

  lemma {:induction false} WhichAfterLoop(fields: seq<Field>, l: nat, bs: seq<byte>, m: Msg, seen: set<nat>)
    requires GoodFields(fields) && Shape(fields, m) && l < |fields| && fields[l].htype.Oneof?
    requires DecLoop(fields, bs, m, seen).Done?
    ensures var r := DecLoop(fields, bs, m, seen).m;
            r.Size(l) == m.Size(l) || NamesMember(fields, l, r.Size(l))
    decreases |bs|
  {
    hide DecField, SkipField, GoodFields, Shape, Note, NamesMember;
    if bs != [] && ReadKey(bs).Key? {
      var Key(tag, wireType, rest) := ReadKey(bs);
      DecRecordShape(fields, tag, wireType, rest, m);
      var Got(m', rest') := DecRecord(fields, tag, wireType, rest, m);
      if FindField(fields, tag).Some? {
        WhichAfterField(fields, FindField(fields, tag).value, l, wireType, rest, m);
      }
      WhichAfterLoop(fields, l, rest', m', Note(fields, tag, seen));
    }
  }

  /** After the round trip a which-tag is the sender's if that names a member of its union, and 0
      otherwise. */
  lemma {:induction false} WhichTagArrives(fields: seq<Field>, m: Msg, prior: Msg, l: nat)
    requires GoodFields(fields) && Shape(fields, m) && Shape(fields, prior) && OkMsg(true, fields, m)
    requires l < |fields| && fields[l].htype.Oneof? && Leader(fields, l) == l
    ensures var r := DecMsg(fields, EncMsg(fields, m), Defaults(fields, prior));
            r.Got? && r.value.Size(l) == if NamesMember(fields, l, m.Size(l)) then m.Size(l) else 0
  {
    hide ViewMsg, SentMsg, OkMsg, GoodFields, Shape, Defaults, DecLoop, EncMsg;
    var d := Defaults(fields, prior);
    DecodeInvertsEncode(fields, m, prior);
    DefaultsShape(fields, prior);
    InitialContents(fields, prior, l);
    WhichAfterLoop(fields, l, EncMsg(fields, m), d, {});
    var r := DecMsg(fields, EncMsg(fields, m), d).value;
    forall j | 0 <= j < |fields| && fields[j].htype.Oneof? && Leader(fields, j) == l
      ensures r.Size(l) == fields[j].tag <==> m.Size(l) == fields[j].tag
    {
      ViewAt(false, fields, r, j);
      SentAt(fields, m, j);
      ShapesAt(fields, j, m);
      MemberShown(fields, r, m, j);
    }
  }

  lemma {:induction false} MemberShown(fields: seq<Field>, r: Msg, m: Msg, j: nat)
    requires j < |fields| && GoodField(fields[j]) && fields[j].htype.Oneof?
    requires ViewField(false, fields, r, j) == SentField(fields, m, j)
    ensures r.Size(Leader(fields, j)) == fields[j].tag <==> m.Size(Leader(fields, j)) == fields[j].tag
  {}
}
