/** The encoder and the decoder back to back: the round trips, stated of the two machines. */
module Transfer {
  import opened Words
  import opened Varint
  import opened Descriptor
  import opened Encoding
  import opened Decoding
  import opened Views
  import opened RoundTrip
  import opened Fidelity
  import opened Packing
  import opened Streams
  import opened Encoder
  import opened Decoder

  /** Sizes a message, encodes it into a buffer of just that size and decodes the buffer into a
      structure with any content. */
  method Transmit(fields: seq<Field>, m: Msg, dest: Struct) returns (sent: bool, received: bool)
    requires GoodFields(fields) && Trackable(fields) && Shape(fields, m) && Shape(fields, dest.m)
    requires |EncMsg(fields, m)| < U64
    modifies dest
    ensures sent <==> OkMsg(false, fields, m)
    ensures OkMsg(true, fields, m) ==>
              && sent && received && Shape(fields, dest.m)
              && ViewMsg(false, fields, dest.m) == SentMsg(fields, m)
              && (ViewMsg(false, fields, dest.m) == ViewMsg(false, fields, m) <==> Faithful(fields, m))
    ensures !sent ==> !received && dest.m == old(dest.m)
  {
    hide EncMsg, DecMsg, OkMsg, ViewMsg, SentMsg, Faithful, GoodFields, Trackable, Shape, Defaults;
    received := false;
    var size;
    sent, size := GetEncodedSize(fields, m);
    if OkMsg(true, fields, m) {
      StrictIsOk(fields, m);
      DecodeInvertsEncode(fields, m, dest.m);
      RoundTripLossless(fields, m, dest.m);
    }
    if !sent {
      return;
    }
    var buf := new byte[size];
    var sized, n, ok, written := EncodeIntoBuffer(buf, size, fields, m);
    var stream := new IStream.FromBuffer(buf[..written]);
    received := Decode(stream, fields, dest);
  }

  lemma {:induction false} DelimitedNext(fields: seq<Field>, ms: seq<Msg>, k: nat)
    requires k < |ms|
    ensures DelimitedBytes(fields, ms[..k + 1]) == DelimitedBytes(fields, ms[..k]) + Framed(EncMsg(fields, ms[k]))
    ensures DelimitedBytes(fields, ms) == DelimitedBytes(fields, ms[..k + 1]) + DelimitedBytes(fields, ms[k + 1..])
  {
    hide EncMsg, Framed;
    if k == 0 {
      assert ms[..1] == [ms[0]] && ms[..0] == [] && [ms[0]][1..] == [];
    } else {
      DelimitedNext(fields, ms[1..], k - 1);
      assert ms[..k + 1][1..] == ms[1..][..k] && ms[..k][1..] == ms[1..][..k - 1];
      assert ms[1..][k..] == ms[k + 1..];
    }
  }

  /** Writes messages back to back, each behind its length. */
  method SendAll(fields: seq<Field>, ms: seq<Msg>, buf: array<byte>) returns (written: nat)
    requires GoodFields(fields) && forall k :: 0 <= k < |ms| ==> Sendable(fields, ms[k])
    requires |DelimitedBytes(fields, ms)| <= buf.Length
    modifies buf
    ensures written == |DelimitedBytes(fields, ms)| && buf[..written] == DelimitedBytes(fields, ms)
  {
    hide EncMsg, GoodFields, Shape, OkMsg, Framed, Extends, DelimitedBytes;
    var stream := new OStream.FromBuffer(buf, buf.Length);
    ghost var s0 := stream.Snap();
    ExtendsNothing(s0);
    NoMessages(fields, ms);
    for k := 0 to |ms|
      invariant stream.Emitted(s0, true, DelimitedBytes(fields, ms[..k]), true)
    {
      ghost var s1 := stream.Snap();
      assert Sendable(fields, ms[k]);
      StrictIsOk(fields, ms[k]);
      DelimitedNext(fields, ms, k);
      var ok := EncodeDelimited(stream, fields, ms[k]);
      ExtendsThen(s0, s1, stream.Snap(), DelimitedBytes(fields, ms[..k]), true, Framed(EncMsg(fields, ms[k])), ok);
      ExtendsFacts(s0, stream.Snap(), true, DelimitedBytes(fields, ms[..k + 1]), ok);
    }
    written := stream.bytesWritten;
    assert ms[..|ms|] == ms;
    AllWritten(s0, stream.Snap(), DelimitedBytes(fields, ms));
  }

  lemma {:induction false} NoMessages(fields: seq<Field>, ms: seq<Msg>)
    ensures DelimitedBytes(fields, ms[..0]) == [] == DelimitedBytes(fields, ms[|ms|..])
  {}

  lemma {:induction false} AllWritten(s0: Snapshot, s1: Snapshot, bs: seq<byte>)
    requires Extends(s0, s1, true, bs, true) && s0.window.callback && s0.window.base == 0 && s0.written == 0
    ensures s1.written == |bs| <= |s1.bytes| && s1.bytes[..|bs|] == bs
  {
    assert s1.bytes[0..|bs|] == s1.bytes[..|bs|];
  }

  /** Reads messages back one by one, each into a structure with any content. */
  method ReceiveAll(fields: seq<Field>, ghost ms: seq<Msg>, data: seq<byte>, priors: seq<Msg>)
    returns (ok: bool, received: seq<Msg>)
    requires GoodFields(fields) && Trackable(fields) && |priors| == |ms|
    requires forall k :: 0 <= k < |ms| ==> Sendable(fields, ms[k]) && Shape(fields, priors[k])
    requires data == DelimitedBytes(fields, ms)
    ensures ok && |received| == |ms|
    ensures forall k :: 0 <= k < |ms| ==> ViewMsg(false, fields, received[k]) == SentMsg(fields, ms[k])
  {
    hide EncMsg, DecMsg, GoodFields, Trackable, Shape, OkMsg, Framed, DelimitedBytes, DecDelimited, ViewMsg, SentMsg;
    var stream := new IStream.FromBuffer(data);
    received := [];
    assert ms[0..] == ms;
    for k := 0 to |priors|
      invariant stream.Valid() && stream.Rest() == DelimitedBytes(fields, ms[k..]) && |received| == k
      invariant forall j :: 0 <= j < k ==> ViewMsg(false, fields, received[j]) == SentMsg(fields, ms[j])
    {
      assert Sendable(fields, ms[k]) && Shape(fields, priors[k]);
      FirstMessage(fields, ms[k..]);
      assert ms[k..][1..] == ms[k + 1..];
      DelimitedRoundTrip(fields, ms[k], priors[k], DelimitedBytes(fields, ms[k + 1..]));
      var dest := new Struct(priors[k]);
      var got := DecodeDelimited(stream, fields, dest);
      if !got {
        return false, received;
      }
      received := received + [dest.m];
    }
    return true, received;
  }

  lemma {:induction false} FirstMessage(fields: seq<Field>, ms: seq<Msg>)
    requires ms != []
    ensures DelimitedBytes(fields, ms) == Framed(EncMsg(fields, ms[0])) + DelimitedBytes(fields, ms[1..])
  {}
}
