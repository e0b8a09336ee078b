# nanopb codec: model and proofs

A Dafny 4.11 model of the nanopb 0.3.8 Protocol Buffers codec that the application vendors under
`LandCapApp/Pods/nanopb`: the encoder, the decoder, the circular field iterator they share, and the
descriptor macros. It is built for the configuration the Pods project sets (`PB_FIELD_32BIT`, so
sizes and tags in descriptors are 32-bit; no dynamic allocation; 64 tracked required fields) and for
a 64-bit `size_t`. Wire formats follow the Protocol Buffers "Encoding" guide, sections "Base 128
Varints", "Message Structure", "Signed Integers", "Length-Delimited Records", "Packed Repeated
Fields" and "Last One Wins".

`dafny verify dfyconfig.toml` checks everything.

## How it is organised

The C code works by changing streams, an iterator and a structure step by step; so does the model.
Each method is proved against a pure function on byte strings, and the properties are proved of
those functions.

| file | contents |
|---|---|
| `Words.dfy` | powers of two, bitwise OR on unbounded naturals, single bits |
| `Varint.dfy`, `Numbers.dfy` | varints, length frames, zigzag, fixed-width numbers, narrowing casts |
| `Streams.dfy` | `IStream` and `OStream`: bounded windows over buffers, substreams, primitive readers and writers |
| `Descriptor.dfy` | descriptor rows as a finite tree, structures with full buffers, initial contents |
| `FieldIterator.dfy`, `Layout.dfy` | the circular iterator with cached addresses; the layout macros it undoes |
| `Encoding.dfy`, `Encoder.dfy` | what is emitted, when it is refused and how often parts are visited; the encoder |
| `Decoding.dfy`, `Decoder.dfy` | what a byte string decodes to; the decoder with its required-field mask |
| `Records.dfy` | runs over records: concatenation, unknown fields, presence |
| `Ordering.dfy`, `Merging.dfy` | records of unrelated fields commute; repeated occurrences of a field or union, however far apart |
| `Views.dfy`, `Initialisation.dfy` | what of a structure is visible; earlier contents never show through |
| `RoundTrip.dfy`, `Fidelity.dfy`, `Lossless.dfy` | decoding inverts encoding; for which messages and for which descriptors it is lossless |
| `Acceptance.dfy`, `Reencoding.dfy` | what was decoded can be encoded, and when that gives the same bytes |
| `Packing.dfy` | packed and single records agree; delimited streams |
| `PointerArrays.dfy` | the growing storage of pointer-allocated packed arrays |
| `Transfer.dfy` | encoder and decoder back to back |
| `WireFormat.dfy` | the bytes of records and the lengths of skipped payloads, with their numbers spelled out |
| `Evolution.dfy` | readers that lack some of the writer's fields |
| `Contents.dfy` | the raw contents of structures: what is stored, and what the round trip preserves |

A structure (`Msg`) has one slot per row: a size field (has-flag, count, or the which-tag in the
slot of a union's first row) and its items. Items keep whole buffers, so stale bytes, stale array
entries and the content of absent optional fields are part of the state; `ViewMsg` says which part
of it is visible. Machine arithmetic is written out: shifts and ORs are `Pow2` products and
`BitOr`, casts are `Cast`, registers are reduced modulo 2^32 or 2^64.

The members of a union have a slot each. In a message to be encoded, which is only read, they hold
what the union's shared bytes read as, member by member, as the code's zero test reads them. In a
structure being decoded only the active member's slot is kept up to date, and nothing that is visible
depends on the others.

Descriptors are assumed well formed (`GoodFields`): distinct nonzero tags below 2^29, statically
allocated members of the widths C integers have, and optionally one extension slot. The decoder's
methods also require `Trackable`: the number of required fields is zero, or below 64 and not a
multiple of 32, here and in every submessage (elsewhere the presence check shifts by the full word
width, which C leaves undefined).

## What the code does that its comments do not say

- A comment (pb_decode.c:859) says that empty message types are handled correctly by the field
  search. A key with tag 0 (values 1 to 7) on an empty message matches the terminator row and is
  decoded as a zero-width integer, so the message is rejected (`Decoding.EmptyRejects`), where a
  message with fields skips such a record (`Decoding.ZeroTagSkips`).
- The zero test behind has-less fields is described as checking all fields of a submessage
  (pb_encode.c:227); it looks only at each member's first item, not at counts, has-flags or
  which-tags. A message whose has-less submessage has only a flag, a count or a which-tag set
  therefore loses it: `Fidelity.PresentZeroIsLost` gives a message that does.
  `Fidelity.RoundTripLossless` gives the exact condition on the message, a recursive check of flags,
  counts, which-tags and defaults, and `Lossless.LosslessDescriptors` the exact condition on the
  descriptor: every has-less submessage that can be zero holds, all the way down, no has-flags, no
  arrays, no unions and no nonzero defaults. A proto3-style has-less submessage with a repeated field
  does not meet it: an array of the single number 0 is lost.
- For the same reason the encoding of a message is not a function of what is visible of it: content
  that is not marked as present, left over from earlier use of the memory, can decide whether a
  has-less submessage is sent. `Reencoding.StableDescriptors` gives the exact condition on the
  descriptor under which encoding what was received gives the received bytes again.
- The varint reader drops bits beyond the 64th, so from 2^63 on a value has more than one ten-byte
  form (`Varint.ShortestUnique`).
- A key cut off by the end of the stream counts as a clean end, and so does an overlong key that
  uses the stream up (`Records.CutOffKeyEnds`); a zero key leaves what follows unread
  (`Records.ZeroKeyStopsMerge`).

## Model

| member | source | states |
|---|---|---|
| Fidelity.RoundTripLossless | LandCapApp/Pods/nanopb/pb_encode.c:451-473 | for every descriptor tree and every message the encoder takes (strings terminated, nested lengths below 2^32), decoding its encoding into any structure succeeds, consumes every byte, and shows the same has-flags, counts, active members and nested values if and only if the message is faithful |
| RoundTrip.DecodeInvertsEncode | LandCapApp/Pods/nanopb/pb_decode.c:852-967 | the decoded message shows exactly what was sent: dropped has-less fields at their defaults, everything else unchanged, whatever the destination held |
| RoundTrip.MsgRoundTrip | LandCapApp/Pods/nanopb/pb_decode.c:1334-1356 | the same for a nested message read into a fresh structure, by induction over the descriptor tree |
| RoundTrip.ValueRoundTrip | LandCapApp/Pods/nanopb/pb_decode.c:1165-1379 | each payload type decodes back, over any buffer content, and leaves the following bytes |
| RoundTrip.PackedArrives | LandCapApp/Pods/nanopb/pb_encode.c:129-171 | the packed body of n numbers decodes to those n entries in order |
| RoundTrip.KeyRoundTrip | LandCapApp/Pods/nanopb/pb_encode.c:553-557 | every tag in range with every wire type survives the key encoding |
| Fidelity.SentIsView | LandCapApp/Pods/nanopb/pb_encode.c:280-294 | what is sent is the whole visible message exactly for faithful messages |
| Fidelity.QuietMsgIsDefault | LandCapApp/Pods/nanopb/pb_encode.c:225-244 | a submessage that passes the zero test looks like a fresh one exactly when no flag, count, which-tag or nonzero default is in it |
| Fidelity.PresentZeroIsLost | LandCapApp/Pods/nanopb/pb_encode.c:225-244 | a message the encoder takes, with a present zero in a has-less submessage, is encoded as nothing and comes back without the flag, whatever the destination held |
| Contents.ContentsArrive | LandCapApp/Pods/nanopb/pb_decode.c:852-967 | for a strictly acceptable message with counts and sizes inside their storage, the raw contents after the round trip (flags, counts, selected union members, numbers, bytes, strings through their terminator, nested structures) agree with the sender's if and only if the message is faithful |
| Contents.WhichTagArrives | LandCapApp/Pods/nanopb/pb_decode.c:415-424 | after the round trip a which-tag is the sender's if that names a member of its union, and 0 otherwise |
| Contents.VisibleIsContents | LandCapApp/Pods/nanopb/pb_encode.c:271-349 | two structures show the same exactly when their raw contents agree |
| Contents.MarkedPresent | LandCapApp/Pods/nanopb/pb_decode.c:364-424 | a decoded payload sets the has-flag to 1, raises the count by one, or sets the which-tag to the member's tag |
| Contents.StoredBytes | LandCapApp/Pods/nanopb/pb_decode.c:1262-1379 | bytes and terminated strings go in front of the old buffer content if they fit; fixed-length bytes take their exact length, and all zeros for an empty payload |
| Contents.InitialContents | LandCapApp/Pods/nanopb/pb_decode.c:763-846 | initialisation clears flags, counts and which-tags, keeps array entries and union members, and sets other members |
| Contents.InitialValue | LandCapApp/Pods/nanopb/pb_decode.c:796-832 | ... to their default, or to zeros; a submessage is initialised in place |
| Contents.ZeroContents | LandCapApp/Pods/nanopb/pb_decode.c:415-424 | the zeroed memory a union's submessage starts from |
| Contents.DelimitedSkipsTail | LandCapApp/Pods/nanopb/pb_decode.c:337-350 | a delimited message ended early by a zero key still leaves the stream behind its frame |
| Evolution.LackingFields | LandCapApp/Pods/nanopb/pb_decode.c:877-906 | a reader whose descriptor lacks some of the writer's fields decodes the writer's bytes to exactly what it would have decoded had those fields not existed, and shows the rest as sent |
| Lossless.LosslessDescriptors | LandCapApp/Pods/nanopb/pb_encode.c:203-266 | for every message the encoder takes, what is sent is the whole visible message, if and only if every has-less field of the descriptor that can be zero has, all the way down, no flags, arrays, unions and nonzero defaults in it |
| Lossless.LosslessRoundTrip | LandCapApp/Pods/nanopb/pb_decode.c:955-967 | with such a descriptor every strictly acceptable message comes back from its encoding exactly as it was visible, whatever the destination held |
| Acceptance.DecodedIsEncodable | LandCapApp/Pods/nanopb/pb_encode.c:116-201 | the encoder accepts every message the decoder accepted, from whatever bytes and into whatever structure |
| Reencoding.StableDescriptors | LandCapApp/Pods/nanopb/pb_encode.c:205-294 | every structure that shows what was sent is encoded to the bytes that were sent, if and only if for each has-less field that can be zero, all that the zero test reads is visible or always zero, and its defaults are zero |
| Reencoding.ReencodingRepeats | LandCapApp/Pods/nanopb/pb_encode.c:451-473 | with a stable descriptor, decoding an encoding and encoding the result gives the same bytes, whatever the destination held |
| Reencoding.LosslessIsStable | LandCapApp/Pods/nanopb/pb_encode.c:203-204 | a descriptor that never loses anything is stable |
| Transfer.Transmit | LandCapApp/Pods/nanopb/pb_encode.c:480-489 | encoder and decoder back to back: sent exactly if acceptable; if strictly so, received, showing what was sent, and the same as the original exactly if that is faithful |
| Transfer.SendAll | LandCapApp/Pods/nanopb/pb_encode.c:475-478 | delimited messages written one after the other fill the buffer with their frames, back to back |
| Transfer.ReceiveAll | LandCapApp/Pods/nanopb/pb_decode.c:969-982 | repeated delimited decoding returns them one by one, in order, each showing what was sent |
| Records.ConcatenationMerges | LandCapApp/Pods/nanopb/pb_decode.c:852-953 | complete records accepted over a structure, then any bytes accepted over the result, are accepted in one run with the same final structure, although iterator, mask and extension range carry over |
| Records.LoopConcat | LandCapApp/Pods/nanopb/pb_decode.c:863-917 | a run over complete records and a tail is, failures included, the tail's run resumed from the records' outcome |
| Records.MergeSplits | LandCapApp/Pods/nanopb/pb_decode.c:919-952 | one run over both parts succeeds exactly when both parts decode and together satisfy presence |
| Records.ZeroKeyStopsMerge | LandCapApp/Pods/nanopb/pb_decode.c:266-270 | a zero key after complete records ends the message with everything behind it unread |
| Records.CutOffKeyEnds | LandCapApp/Pods/nanopb/pb_decode.c:256-264 | up to five bytes that all announce another one, behind complete records, end the message and are used up |
| Records.OverlongKeyFails | LandCapApp/Pods/nanopb/pb_decode.c:256-264 | a key that goes on for five bytes with more behind them fails |
| Records.FieldExtends | LandCapApp/Pods/nanopb/pb_decode.c:356-429 | a known field's outcome does not depend on the bytes after its payload |
| Records.UnknownTransparent | LandCapApp/Pods/nanopb/pb_decode.c:877-906 | records with unknown tags, complete as `WireFormat.SkipLengths` says, inserted anywhere between records change neither acceptance nor the structure |
| Records.RequiredIsPresence | LandCapApp/Pods/nanopb/pb_decode.c:919-952 | decodable complete records are accepted as a message exactly when every required tag occurs among them |
| Ordering.OrderIrrelevant | LandCapApp/Pods/nanopb/pb_decode.c:863-917 | only the order within a field or union matters: two sequences of complete records with the same records for each of them decode alike, failures and following bytes included, whatever unknown records lie between |
| Ordering.RecordsCommute | LandCapApp/Pods/nanopb/pb_decode.c:863-917 | a field's record may be moved behind any complete records of other fields outside its union: same success, same structure, same bytes left |
| Ordering.FieldIsCell | LandCapApp/Pods/nanopb/pb_decode.c:356-429 | decoding a payload reads and changes only its field's items and size field |
| Ordering.RunLeavesCell | LandCapApp/Pods/nanopb/pb_decode.c:863-917 | a run over other fields' records neither reads nor changes what a field holds |
| Merging.LastOneWins | LandCapApp/Pods/nanopb/pb_decode.c:364-424 | of two records of a singular field that is not a submessage, or of any two members of one union, the earlier leaves no visible trace and does not change acceptance, with any complete records of other fields between them |
| Merging.SubmessagesMerge | LandCapApp/Pods/nanopb/pb_decode.c:1346-1351 | two records of a required or optional submessage, with any complete records of other fields between them, equal one record of the concatenated bodies |
| Merging.UnionsRestart | LandCapApp/Pods/nanopb/pb_decode.c:415-424 | in a union a later record of the same submessage replaces the earlier one, to the last byte, with any complete records of fields outside the union between them |
| Merging.LastNumberWins | LandCapApp/Pods/nanopb/pb_decode.c:366-372 | of two number records for a singular field only the last counts, to the last byte, with any complete records of other fields between them |
| Initialisation.DecodeForgetsThePast | LandCapApp/Pods/nanopb/pb_decode.c:955-967 | decoding the same bytes into two structures with arbitrary contents gives the same success, the same bytes left and the same visible message |
| Initialisation.DefaultsForget | LandCapApp/Pods/nanopb/pb_decode.c:763-846 | initialised structures look alike, absent optional contents included |
| Initialisation.MsgDecodesAlike | LandCapApp/Pods/nanopb/pb_decode.c:852-953 | structures that look alike still do after decoding the same bytes, through nested, repeated and union submessages |
| Views.OthersAfterStore | LandCapApp/Pods/nanopb/pb_decode.c:364-429 | decoding into one field leaves every other field's view alone, except that it deactivates the other members of its union |
| Views.FieldAfterStore | LandCapApp/Pods/nanopb/pb_decode.c:364-429 | the field itself then shows the value, or one more entry |
| Packing.SplitsAgree | LandCapApp/Pods/nanopb/pb_decode.c:374-413 | any split of a value list into packed records (empty ones too) and single ones is accepted exactly when the values fit the array, and appends them in order |
| Packing.PackedBody | LandCapApp/Pods/nanopb/pb_decode.c:385-397 | a packed body is taken exactly when all its numbers fit |
| Packing.AppendShows | LandCapApp/Pods/nanopb/pb_decode.c:387-393 | the visible array is the old entries followed by the new numbers |
| Packing.StreamRoundTrip | LandCapApp/Pods/nanopb/pb_decode.c:969-982 | messages written back to back with length prefixes come out one by one, in order, whatever follows them |
| Packing.DelimitedRoundTrip | LandCapApp/Pods/nanopb/pb_encode.c:475-478 | one delimited message comes back and the stream stops exactly behind it |
| WireFormat.NumberRecordBytes | LandCapApp/Pods/nanopb/pb_encode.c:559-589 | number records: key 8 * tag plus wire type 0, 1 or 5, then a varint of the value, of its 64-bit two's complement or of its zigzag number, or four or eight little-endian bytes |
| WireFormat.DelimitedRecordBytes | LandCapApp/Pods/nanopb/pb_encode.c:718-777 | length-delimited records: key 8 * tag + 2, length, bytes; a string goes out through its last byte before the first zero |
| WireFormat.ArrayBytes | LandCapApp/Pods/nanopb/pb_encode.c:129-171 | a number array is always one packed record with its numbers in order; other arrays are one record an entry, in order |
| WireFormat.WhenSent | LandCapApp/Pods/nanopb/pb_encode.c:271-349 | when each kind of field is sent, in terms of raw flags, counts and which-tags |
| WireFormat.WhatIsZero | LandCapApp/Pods/nanopb/pb_encode.c:205-267 | what the zero test tests |
| WireFormat.WhichFieldsAreRefused | LandCapApp/Pods/nanopb/pb_encode.c:116-127 | a field is refused exactly for more entries than the array holds or a sent value that is refused |
| WireFormat.WhatIsRefused | LandCapApp/Pods/nanopb/pb_encode.c:718-738 | of values only bytes larger than their member are refused, and messages with something refused in them |
| WireFormat.WhatIsStrict | LandCapApp/Pods/nanopb/pb_decode.c:325-335 | strict acceptability of a value adds exactly a terminator inside the buffer and 32-bit lengths |
| WireFormat.KeyMeaning | LandCapApp/Pods/nanopb/pb_decode.c:251-275 | a key is 8 times the tag plus the wire type, and zero ends a message |
| WireFormat.FrameLength | LandCapApp/Pods/nanopb/pb_decode.c:322-335 | a frame's length is the number of bytes behind it |
| WireFormat.SkipLengths | LandCapApp/Pods/nanopb/pb_decode.c:277-287 | wire types 0, 1, 2 and 5 skip a varint, eight bytes, a frame and four bytes |
| WireFormat.SkipFails | LandCapApp/Pods/nanopb/pb_decode.c:277-287 | too short a payload and every other wire type fail |
| WireFormat.SentIsSkipped | LandCapApp/Pods/nanopb/pb_decode.c:231-249 | a sent payload is exactly what a reader that does not know the field skips |
| WireFormat.UnknownSent | LandCapApp/Pods/nanopb/pb_decode.c:877-906 | a record sent for a field the reader does not know changes nothing |
| Encoding.TextEnds | LandCapApp/Pods/nanopb/pb_encode.c:753-762 | a string ends at its first zero, or at the end of its buffer |
| Encoding.WorkByDepth | LandCapApp/Pods/nanopb/pb_encode.c:600-648 | a sizing run visits each encoded message once, a writing run visits one at depth d exactly d + 1 times, and messages that are not encoded are never visited |
| Encoding.StrictIsOk | LandCapApp/Pods/nanopb/pb_encode.c:115-201 | what a strict reader needs implies what the encoder checks |
| Encoder.Encode | LandCapApp/Pods/nanopb/pb_encode.c:451-473 | succeeds exactly when the message is acceptable and its encoding fits, appends exactly that encoding, never touches bytes outside its window, and makes exactly the specified nested runs |
| Encoder.EncodeSubmessage | LandCapApp/Pods/nanopb/pb_encode.c:600-648 | the same for a length-prefixed message; the size found first always equals the size written |
| Encoder.EncodeBasicField | LandCapApp/Pods/nanopb/pb_encode.c:271-349 | emits a field's records exactly when the field is present, refused exactly for counts or bytes beyond their bounds |
| Encoder.EncodeArray | LandCapApp/Pods/nanopb/pb_encode.c:116-201 | emits a packed record or single records, refused exactly when too long or holding a refused item |
| Encoder.EncodeField | LandCapApp/Pods/nanopb/pb_encode.c:458-469 | one row emits its field's records; an extension slot with an empty chain emits nothing |
| Encoder.EncodePacked | LandCapApp/Pods/nanopb/pb_encode.c:130-171 | key, exact size and the items, on sizing and writing streams alike |
| Encoder.PackedSize | LandCapApp/Pods/nanopb/pb_encode.c:135-155 | the shortcut and counted sizes equal the length of the packed body |
| Encoder.EncodeValue | LandCapApp/Pods/nanopb/pb_encode.c:652-777 | each payload encoder emits the specified bytes |
| Encoder.StringLength | LandCapApp/Pods/nanopb/pb_encode.c:753-759 | the length up to the first zero, without looking past the buffer |
| Encoder.CheckDefaultValue | LandCapApp/Pods/nanopb/pb_encode.c:205-267 | decides the zero test |
| Encoder.EncodeDelimited | LandCapApp/Pods/nanopb/pb_encode.c:475-478 | emits the length and the message |
| Encoder.GetEncodedSize | LandCapApp/Pods/nanopb/pb_encode.c:480-489 | reports a size exactly for acceptable messages, namely the length of their encoding |
| Encoder.EncodeIntoBuffer | LandCapApp/Pods/nanopb/pb_encode.c:91-109 | with a reported size n, writing into r free bytes succeeds exactly for n <= r and writes exactly n bytes, the encoding |
| Decoder.DecodeRecord | LandCapApp/Pods/nanopb/pb_decode.c:877-916 | one record after its key, found from wherever the iterator stands, does what the specification says and keeps mask and seen set in step |
| Decoder.DecodeNoInit | LandCapApp/Pods/nanopb/pb_decode.c:852-953 | the record loop with the circular search and the bit mask computes the specification, for success, result and bytes left; reads stay inside the window on every path |
| Decoder.Decode | LandCapApp/Pods/nanopb/pb_decode.c:955-967 | the same after initialisation |
| Decoder.DecodeDelimited | LandCapApp/Pods/nanopb/pb_decode.c:969-982 | decodes one length-prefixed message and moves exactly past it |
| Decoder.DecodeStaticField | LandCapApp/Pods/nanopb/pb_decode.c:356-429 | decodes one payload in place, whatever the field's rule |
| Decoder.MakePlace | LandCapApp/Pods/nanopb/pb_decode.c:364-424 | sets has-flag, count or which-tag, resets a union's submessage, refuses a full array |
| Decoder.DecodePacked | LandCapApp/Pods/nanopb/pb_decode.c:375-402 | appends numbers until the window is empty or the array full, and fails on anything left over |
| Decoder.DecodeSubmessage | LandCapApp/Pods/nanopb/pb_decode.c:1334-1356 | decodes through a window and moves past it however little of it was read |
| Decoder.DecNumber | LandCapApp/Pods/nanopb/pb_decode.c:1165-1260 | narrows and range-checks every numeric type |
| Decoder.DecBytes | LandCapApp/Pods/nanopb/pb_decode.c:1262-1297 | stores size and bytes in front of the old buffer content, if they fit |
| Decoder.DecString | LandCapApp/Pods/nanopb/pb_decode.c:1299-1332 | stores a terminated string, if it fits, with the 32-bit overflow test |
| Decoder.DecFixedLengthBytes | LandCapApp/Pods/nanopb/pb_decode.c:1358-1379 | takes exactly the member's length, or nothing as all zeros |
| Decoder.DecodeTag | LandCapApp/Pods/nanopb/pb_decode.c:251-275 | splits the key and reports both kinds of clean end |
| Decoder.SkipUnknown | LandCapApp/Pods/nanopb/pb_decode.c:277-287 | skips exactly one payload of the given wire type |
| Decoder.DecodeUnknown | LandCapApp/Pods/nanopb/pb_decode.c:877-906 | looks up the extension range once and skips, wherever that leaves the iterator |
| Decoder.MessageSetToDefaults | LandCapApp/Pods/nanopb/pb_decode.c:835-846 | visits every field once and leaves the specified initial contents, recursively |
| Decoder.FieldSetToDefault | LandCapApp/Pods/nanopb/pb_decode.c:763-833 | clears size fields and resets content by the field's rule |
| Decoder.CountRequired | LandCapApp/Pods/nanopb/pb_decode.c:925-935 | from any iterator position the wrap-around loop finds exactly the number of required fields, the empty message included |
| Decoder.CheckSeen | LandCapApp/Pods/nanopb/pb_decode.c:937-949 | the whole-word and remaining-bit comparisons hold exactly when every index below the count is set |
| Decoder.SetSeen | LandCapApp/Pods/nanopb/pb_decode.c:908-913 | ORs exactly one index into the two-word mask |
| Decoder.AllSeenIsAllBits | LandCapApp/Pods/nanopb/pb_decode.c:919-949 | all bits below the count are set exactly when every required row has been seen |
| Decoding.DecMsgShape | LandCapApp/Pods/nanopb/pb_decode.c:852-953 | decoding keeps the structure well shaped: buffer and array lengths, numbers in their member's range |
| Decoding.TargetShape | LandCapApp/Pods/nanopb/pb_decode.c:364-424 | the item a payload is written to lies inside the structure |
| Decoding.EmptyRejects | LandCapApp/Pods/nanopb/pb_common.c:78-95 | a tag-0 key selects an empty message's terminator row and is always rejected |
| Decoding.ZeroTagSkips | LandCapApp/Pods/nanopb/pb_decode.c:877-906 | a message with fields treats a record with tag 0 like any other unknown one |
| Decoding.ExtensionTagSkips | LandCapApp/Pods/nanopb/pb_decode.c:877-906 | a record with the tag of an extension slot with an empty chain is skipped |
| FieldIterator.FieldIter.Next | LandCapApp/Pods/nanopb/pb_common.c:20-76 | one step round the circle keeps required index, data address and size address equal to their recomputation |
| FieldIterator.FieldIter.Find | LandCapApp/Pods/nanopb/pb_common.c:78-95 | from any position finds a non-extension row with the tag exactly when there is one; a failed lap restores the whole state |
| FieldIterator.FieldIter.FindExtension | LandCapApp/Pods/nanopb/pb_decode.c:749-760 | from any position finds the extension slot exactly when there is one |
| Layout.AddressesAreReal | LandCapApp/Pods/nanopb/pb.h:391-401 | for rows written by the macros over a non-overlapping layout, the iterator's addresses are the members' and their size fields' real addresses |
| Layout.RowsAreGood | LandCapApp/Pods/nanopb/pb.h:403-430 | the macros' rows for legal static members are well-formed descriptors |
| Layout.ExtentIsSize | LandCapApp/Pods/nanopb/pb.h:422-449 | a row's data size is the entry's and its array size the number of entries, together the member's size |
| Varint.ReadMeaning | LandCapApp/Pods/nanopb/pb_decode.c:209-229 | reading succeeds exactly when one of the first ten bytes terminates, consumes through it, and yields the 7-bit groups' sum modulo 2^64 |
| Varint.ShortestUnique | LandCapApp/Pods/nanopb/pb_encode.c:494-514 | nothing shorter than the emitted varint decodes to its value, and nothing else of its length does if and only if the value is below 2^63 |
| Varint.VarintRoundTrip | LandCapApp/Pods/nanopb/pb_encode.c:494-514 | every 64-bit value takes 1 to 10 bytes and decodes back |
| Varint.BytesLength | LandCapApp/Pods/nanopb/pb_encode.c:505-513 | a value takes at most k bytes exactly when it is below 2^(7k) |
| Varint.Read32RefinesRead64 | LandCapApp/Pods/nanopb/pb_decode.c:173-207 | the 32-bit reader succeeds exactly on terminators within five bytes, and is then the 64-bit reader modulo 2^32 |
| Numbers.NumRoundTrip | LandCapApp/Pods/nanopb/pb_encode.c:652-716 | every representable value of every width and numeric type survives |
| Numbers.NarrowAccepts | LandCapApp/Pods/nanopb/pb_decode.c:1165-1248 | unsigned and zigzag members accept exactly the values that fit; signed ones exactly the patterns whose int32 or int64 reading fits |
| Numbers.NarrowMeaning | LandCapApp/Pods/nanopb/pb_decode.c:1165-1248 | what is stored of an accepted varint: the value, its zigzag number, or the number congruent to it modulo 2^32 or 2^64 |
| Numbers.WidthsAndRanges | LandCapApp/Pods/nanopb/pb_decode.c:1176-1192 | what a member of each width and type can hold |
| Numbers.ZigZagOrder | LandCapApp/Pods/nanopb/pb_encode.c:516-525 | zigzag numbers count by magnitude, a negative one before its opposite, from 0 on |
| Numbers.LegacyNegatives | LandCapApp/Pods/nanopb/pb_decode.c:1173-1182 | negatives written as five-byte varints decode like the ten-byte form |
| Numbers.ZigZagBijection | LandCapApp/Pods/nanopb/pb_decode.c:1118-1130 | zigzag coding is a bijection between int64 and uint64 |
| Numbers.ZigZagLength | LandCapApp/Pods/nanopb/pb_encode.c:516-525 | a zigzagged number takes at most k bytes exactly when it fits 7k bits with sign |
| Numbers.ReadNumInRange | LandCapApp/Pods/nanopb/pb_decode.c:1165-1260 | whatever is stored fits the member |
| Streams.IStream.DecodeVarint | LandCapApp/Pods/nanopb/pb_decode.c:209-229 | the shift-and-OR loop computes the specified value and stops right behind the varint |
| Streams.IStream.DecodeVarint32 | LandCapApp/Pods/nanopb/pb_decode.c:173-207 | the same for 32 bits; a failure has used up the stream or five bytes |
| Streams.IStream.DecodeFixed64 | LandCapApp/Pods/nanopb/pb_decode.c:1146-1163 | shifts and ORs assemble the little-endian value |
| Streams.IStream.DecodeSVarint | LandCapApp/Pods/nanopb/pb_decode.c:1118-1130 | undoes zigzag with complement and shift |
| Streams.IStream.Read | LandCapApp/Pods/nanopb/pb_decode.c:91-123 | delivers exactly the next bytes or nothing at all |
| Streams.IStream.MakeStringSubstream | LandCapApp/Pods/nanopb/pb_decode.c:322-335 | a window of the announced length; window and parent together still end where the parent ended |
| Streams.IStream.CloseStringSubstream | LandCapApp/Pods/nanopb/pb_decode.c:337-350 | puts the parent right behind the window however little of it was read |
| Streams.OStream.Write | LandCapApp/Pods/nanopb/pb_encode.c:91-109 | writes all or nothing, within the limit; a sizing stream only counts |
| Streams.OStream.EncodeVarint | LandCapApp/Pods/nanopb/pb_encode.c:494-514 | the ten-byte buffer loop emits the specified varint |
| Streams.OStream.EncodeSVarint | LandCapApp/Pods/nanopb/pb_encode.c:516-525 | complement and shift produce the zigzag number |
| Streams.OStream.EncodeFixed64 | LandCapApp/Pods/nanopb/pb_encode.c:538-551 | emits the eight little-endian bytes |
| Streams.OStream.EncodeTag | LandCapApp/Pods/nanopb/pb_encode.c:553-557 | emits tag and wire type as one varint |
| Streams.ExtendsThen | LandCapApp/Pods/nanopb/pb_encode.c:91-109 | two writes in a row are one write of both parts |
| Streams.ExtendsSub | LandCapApp/Pods/nanopb/pb_encode.c:626-647 | a body written through a window of exactly its size is a write of the parent stream |
| PointerArrays.PointerField.Allocate | LandCapApp/Pods/nanopb/pb_decode.c:436-469 | the overflow test is exact, and earlier entries survive the reallocation |
| PointerArrays.PointerField.GrowByGuess | LandCapApp/Pods/nanopb/pb_decode.c:546-558 | the guess always yields room for the next entry and never overflows a size |
| PointerArrays.PointerField.DecodePacked | LandCapApp/Pods/nanopb/pb_decode.c:530-584 | every store is below the capacity and the entries are the specified ones |
| PointerArrays.PointerField.DecodeSingle | LandCapApp/Pods/nanopb/pb_decode.c:585-601 | one unpacked record appends one entry, up to the same limit |
| PointerArrays.PointerField.DecodeRepeated | LandCapApp/Pods/nanopb/pb_decode.c:530-601 | takes a record as packed exactly when its wire type is length-delimited, and appends its entries |
| PointerArrays.PointerSplitsAgree | LandCapApp/Pods/nanopb/pb_decode.c:530-601 | any split of a value list into packed records (empty ones too) and single ones is accepted exactly when the total stays within the largest count, and appends the values in order |

## Left out

- Streams.OStream.Write: byte counts are unbounded, so wrap-around of `size_t` in `bytes_written + count` is not modelled; messages are assumed to encode to fewer than 2^64 bytes.
- Encoder.CheckDefaultValue: a number is compared with zero as a whole instead of byte by byte.
- Encoder.EncodeBasicField: statically allocated members only; the encoder also takes pointer members, where a null pointer is an absent field or a missing required one.
- Encoder.EncodeArray: statically allocated arrays only; pointer arrays have no bound to exceed, and arrays of strings or bytes hold one pointer per entry.
- Encoder.EncodeValue: static values only; null pointers to strings and bytes, which the code encodes as empty, do not occur.
- Lossless.LosslessDescriptors: the losing message it builds leaves a union's inactive members zero beside an active one, which shared bytes may not read as; other content there could at most keep an enclosing has-less submessage from being dropped, with the inner loss unchanged.
- Decoder.DecodeNoInit: says nothing about the structure after a failed decode, which the code leaves partly written.
- Decoder.DecodeUnknown: the extension slot's chain is empty; registered extensions and their handlers are foreign code behind pointers.
- Decoder.DecodeSubmessage: a nested structure is copied out, decoded and stored back, so aliasing between a structure and its parts is not captured; union members have separate slots, of which only the active one is visible.
- PointerArrays.PointerField.Allocate: the allocator never fails; releasing storage and pointer-allocated strings, bytes and submessages are not modelled.
- Callback fields, custom stream callbacks and error-message texts: user code without a contract, and strings that do not influence success.
- Struct padding, float interpretation and raw pointer casts: members are typed values at abstract addresses, floats are bit patterns.
- Required counts that are nonzero multiples of 32, or 64 and more: the presence check is undefined there.
- The Swift application and the other vendored headers: user interface, network calls and declarations without bodies.
