# The wire codec of the feicoin messages

This project models the Protocol Buffers codec of `x/feicoin/types`: the encoder of `MsgMintTokens` and
`MsgUpdateParams`, which fills a buffer from its end to its front, the decoders of both messages and of the nested
`Params`, which move a cursor through the input, and the skipper, which walks over an unknown field with one loop and
a counter of open groups. The reference is the Protocol Buffers Encoding guide, sections "Base 128 Varints", "Message
Structure", "Length-Delimited Records", "Last One Wins", "Groups" and "Field Order".

The project has two halves.

* **The program.** Methods with the loops, cursors and buffers of the Go code, over slices of a shared array, with
  Go's 64-bit arithmetic written out: shifts that drop bits, `|=` on bit patterns, lengths that become negative,
  indices that overflow, field numbers cut to `int32`. That each of them verifies means that no input makes it index
  or slice out of range and that each of its loops ends.
* **The meaning.** A tree of wire fields (`Wire.Field`) with the bytes each is written with, and the merge of a
  sequence of fields into a message (`DecodeGrammar.Merge`). Between the two stand the functions `Wire.SkipFrom` and
  `Decoder.DecodeFrom`, which say what each pass of a loop does, errors included. The methods are proved equal to
  these functions, and the functions to the meaning.

What the generator writes out again for every message is modelled once: `Decoder.Schema` is the table of a message's
fields, and the laws of decoding hold for every table.

| file | contents |
|---|---|
| `Machine.dfy`, `Slices.dfy`, `Results.dfy` | Go's integers and slices; errors and outcomes |
| `Varint.dfy` | varints: notation, reading loop, writing loop, `sovTx` |
| `Wire.dfy`, `SkipGrammar.dfy`, `Skipper.dfy` | the grammar of fields; the skipper recognises it; the skipping loop |
| `SkipRefusals.dfy`, `DecodeRefusals.dfy`, `Finality.dfy` | which inputs the skipper and the decoders refuse, and why; verdicts that nothing behind the input changes |
| `Decoder.dfy`, `DecodeGrammar.dfy`, `DecodeLaws.dfy` | the decoding loop for any table; what it accepts; its laws |
| `Records.dfy` | length-delimited records and how they are written from the back |
| `Params.dfy`, `MsgUpdateParams.dfy`, `MsgMintTokens.dfy` | the three messages |

`dafny verify dfyconfig.toml` checks the whole project.

## Where the code departs from its documentation

* An end-group tag closes whatever group is open: its field number is not compared with that of the start-group tag.
  `Field.Valid` therefore leaves it open.
* Field numbers are compared after truncation to `int32`, so a tag whose number is 2^32 + 1 is read as field 1.
* Varints of up to ten bytes are accepted, read modulo 2^64.
* The skipper does not look at the bodies it jumps over and may return an index beyond its input; the callers check
  (`SkipGrammar.BeyondIsCut`).
* Decoding an accepted input a and then any input b is the same as decoding a ++ b, except that a length that leads
  beyond the input may be reported as an invalid length instead of an unexpected end, because its end is computed from
  the front of the whole input. `DecodeLaws.DecodeConcat` says exactly when, `UpdateMessage.OffsetMatters` shows it
  happen.

## Assumptions

* Slices, strings and encodings are no longer than the largest `int`, 2^63 - 1; statements about an encoding ask this
  of it.
* The amount has the library type `math.Int`, which is not part of this model. It enters as a parameter,
  `MintMessage.AmountCodec`: an amount is named by the bytes it marshals to, and a function says what becomes of an
  amount that reads a payload. Round trips ask of it what the library owes: that it reads back what it has written
  (`Readable`, `Lawful`). `PlainAmounts` is the instance in which the payload is the amount. Only the size bound over the
  whole message needs a library that does not write an amount at greater length than it read it (`Lean`), and it needs
  exactly that; the bound beside the amount does not.

## Model

| member | source | states |
|---|---|---|
| Varint.SovIsLength | x/feicoin/types/tx.pb.go:607-609 | The size computed from the bit length is the number of bytes the writing loop emits, for every number |
| Varint.EncodeRoundTrip | x/feicoin/types/tx.pb.go:540-550 | Every uint64 is written as a varint of at most ten bytes that reads back as that number |
| Varint.EncodeIsShortest | x/feicoin/types/tx.pb.go:607-609 | No varint that decodes to a number, over-long ones included, has fewer bytes than sovTx says |
| Varint.OrDigit | x/feicoin/types/tx.pb.go:787-797 | Or-ing a shifted digit into a uint64 adds it, modulo 2^64 at the tenth digit |
| Varint.ReadComplete | x/feicoin/types/tx.pb.go:785-797 | In front of any bytes, the reading loop returns a varint's value and stops behind its last byte |
| Varint.ReadSound | x/feicoin/types/tx.pb.go:785-797 | Whatever the reading loop accepts is a varint of at most ten bytes with the value returned |
| Varint.ReadVarint | x/feicoin/types/tx.pb.go:785-797 | The loop, with its order of checks, reads from any index what the varint notation says, or its error |
| Varint.EncodeVarint | x/feicoin/types/tx.pb.go:540-550 | Writes exactly the shortest varint, ending just before offset, and changes no other byte of the array |
| Wire.NumberOfTag | x/feicoin/types/tx.pb.go:798-799 | The field number is the 32 bits above the wire type as a signed number; all bits above are lost, so 2^32 + 1 is read as 1 |
| SkipGrammar.SkipByTag | x/feicoin/types/tx.pb.go:1029-1082 | By the literal low bits of a tag: where the loop goes for 0, 1, 2 and 5, which groups 3 and 4 open and close, and that 6 and 7 are refused |
| SkipGrammar.SkipField | x/feicoin/types/tx.pb.go:1008-1085 | In front of any bytes and with any number of groups open, the loop moves from the front of a field, nested groups included, to its end |
| SkipGrammar.ClosingsAt | x/feicoin/types/tx.pb.go:1008-1085 | If the loop returns with n groups open, it has walked over the rests of exactly these n groups, each a list of fields and an end-group tag |
| SkipGrammar.SkipIsGrammar | x/feicoin/types/tx.pb.go:1008-1085 | The skipper returns n within its input if and only if the first n bytes are one field of the recursive grammar |
| SkipGrammar.BeyondIsCut | x/feicoin/types/tx.pb.go:1041-1079 | If it returns an index beyond its input, the input is a proper prefix of a field that would end there |
| SkipGrammar.FieldUnique | x/feicoin/types/tx.pb.go:1008-1085 | The grammar is unambiguous: at the front of any bytes there is at most one field, groups included |
| SkipGrammar.FieldsArePrefixFree | x/feicoin/types/tx.pb.go:1008-1085 | A field whose bytes begin with another field's bytes is that field |
| SkipGrammar.FieldsUnique | x/feicoin/types/tx.pb.go:1008-1085 | Bytes write at most one sequence of fields |
| SkipGrammar.SkipIsStable | x/feicoin/types/tx.pb.go:1008-1085 | Bytes behind the skipped field do not change the result |
| SkipGrammar.SkipCut | x/feicoin/types/tx.pb.go:1012-1084 | A field cut short, at any nesting, is an unexpected end, or outside groups the index where it would have ended |
| SkipRefusals.SkipTooShortExactly | x/feicoin/types/tx.pb.go:1012-1084 | The skipper reports an unexpected end or an index beyond the input if and only if the input ends inside a token: a tag, a number, a length, or a payload whose end is an int, behind any groups entered and fields passed |
| SkipRefusals.TooShortMeans | x/feicoin/types/tx.pb.go:1012-1084 | These inputs are proper prefixes of fields, all those of fields that fit into a slice, or end inside a tag of wire type 6 or 7, or 4 outside groups; no input that fits is both |
| SkipRefusals.SkipFailsExactly | x/feicoin/types/tx.pb.go:1012-1084 | Overflow, invalid length, unexpected end of group and illegal wire type are each reported if and only if a token with that fault stands behind the groups entered and fields passed |
| Finality.SkipFinal | x/feicoin/types/tx.pb.go:1008-1085 | No bytes behind the input change a skip's result, unless it is an unexpected end |
| Skipper.Skip | x/feicoin/types/tx.pb.go:1008-1085 | The loop with its depth counter skips one field of the grammar or reports the specified error; skipParams (params.pb.go:204-281) has the same body |
| Decoder.SpanIsPayload | x/feicoin/types/tx.pb.go:810-837 | Under wrapping 64-bit arithmetic the length checks let a span through if and only if it is a varint and a payload of that length inside the input |
| Decoder.ReadSpan | x/feicoin/types/tx.pb.go:810-837 | Returns a span if and only if such a payload stands at the cursor, and the specified error otherwise |
| Decoder.SkipToIsField | x/feicoin/types/tx.pb.go:937-950 | With the callers' checks, skipping ends at n if and only if the bytes up to n are one field of the grammar |
| Decoder.SkipUnknown | x/feicoin/types/tx.pb.go:937-950 | The default case moves to n if and only if the bytes from the tag to n are one field, and reports the specified error otherwise |
| DecodeGrammar.PassMergesField | x/feicoin/types/tx.pb.go:782-951 | A pass of the loop over any field of the grammar merges it: state, error and next index |
| DecodeGrammar.RefusedAtTag | x/feicoin/types/tx.pb.go:798-809 | The tags that are refused and their errors, in the order of the checks, at any index and whatever follows |
| DecodeGrammar.TagErrorByBits | x/feicoin/types/tx.pb.go:798-809 | These tags and errors by the bits of the tag |
| DecodeGrammar.RefusedExactly | x/feicoin/types/tx.pb.go:798-809 | A tag ends its pass with an error whatever follows if and only if it is one of these, with that error |
| DecodeGrammar.NegativeLength | x/feicoin/types/tx.pb.go:825-828 | A length with its top bit set is refused as invalid, in known and unknown fields |
| DecodeGrammar.OverlongTag | x/feicoin/types/tx.pb.go:785-797 | A tag of more than ten bytes is an overflow |
| DecodeGrammar.DecodeOfFields | x/feicoin/types/tx.pb.go:778-957 | On any sequence of fields, decoding is their merge from front to back, with its error and the state left behind |
| DecodeGrammar.FieldsOfDecode | x/feicoin/types/tx.pb.go:778-957 | Every accepted input is a sequence of fields, and its result is their merge |
| DecodeGrammar.DecodeIsMerge | x/feicoin/types/tx.pb.go:778-957 | A decoder accepts an input with a result if and only if the input writes fields that merge to that result |
| DecodeLaws.DecodeConcat | x/feicoin/types/tx.pb.go:778-957 | Behind an accepted input decoding continues as from the message decoded so far, also when it fails; the error is the same if and only if the index asked for last does not overflow at its place |
| DecodeLaws.MergeIgnoresUnknown | x/feicoin/types/tx.pb.go:937-950 | Removing all fields with unknown numbers changes neither the message nor the error |
| DecodeLaws.DecodeIgnoresUnknown | x/feicoin/types/tx.pb.go:937-950 | Two inputs that differ only in unknown fields, at however many boundaries, decode to the same outcome |
| DecodeLaws.UnknownInserted | x/feicoin/types/tx.pb.go:937-950 | Unknown fields, nested groups included, inserted behind any accepted part of an input leave message and acceptance unchanged, and the error too if and only if no index overflows in the longer input alone |
| DecodeLaws.MergeByNumber | x/feicoin/types/tx.pb.go:806-951 | A successful merge depends only on the fields of each known number in their order, not on how numbers are interleaved |
| DecodeLaws.DecodeByNumber | x/feicoin/types/tx.pb.go:806-951 | So inputs with the same fields for each known number decode to the same message or are both refused |
| DecodeLaws.DecodePermuted | x/feicoin/types/tx.pb.go:806-951 | Fields whose numbers occur once may be permuted |
| DecodeLaws.DecodeTruncated | x/feicoin/types/tx.pb.go:787-789 | Any accepted input cut inside a field is an unexpected end with the fields before it stored; cut at a boundary it is accepted with just these |
| Finality.DecodeFinal | x/feicoin/types/tx.pb.go:778-957 | A decoder of any message that fails with another error than the unexpected end fails with it, and leaves the same message, whatever follows |
| DecodeRefusals.SpanFails | x/feicoin/types/tx.pb.go:810-837 | Each error of the length checks, if and only if the length is over-long, cut short, leads beyond the input, or leads to an index that is no int |
| DecodeRefusals.SkipErrorPasses | x/feicoin/types/params.pb.go:183-188 | The skipper's error for an unknown field is the decoder's |
| DecodeRefusals.PassFailsExactly | x/feicoin/types/tx.pb.go:782-951 | A pass fails with an error and a message left, if and only if the field at the cursor has that fault: in its tag, its length, its payload, or the skip over it |
| DecodeRefusals.DecodeFailsExactly | x/feicoin/types/tx.pb.go:778-957 | A decoder of any message fails with an error and a message left, if and only if its input begins with fields that merge and goes on with a field of that fault |
| ParamsMessage.ParamsRecognises | x/feicoin/types/params.pb.go:154-202 | Params accepts a byte string if and only if it is a concatenation of well-formed fields with positive int32 numbers |
| ParamsMessage.Params.Unmarshal | x/feicoin/types/params.pb.go:154-202 | The loop is that recogniser, and reports the specified error otherwise |
| Records.RecordIsField | x/feicoin/types/tx.pb.go:498-513 | Tag byte, length and payload as written are a length-delimited field with that number |
| Records.RecordIsShortest | x/feicoin/types/tx.pb.go:575-596 | No spelling of a field with a given payload is shorter than the encoder's |
| Records.PutRecord | x/feicoin/types/tx.pb.go:501-506 | Puts a whole record in front of what is written and changes no other byte |
| MintMessage.SizeIsLength | x/feicoin/types/tx.pb.go:575-596 | Size is the length of the forward encoding |
| MintMessage.MintBytes | x/feicoin/types/tx.pb.go:483-514 | The encoding byte by byte, with the tags 0a, 12, 1a and 22, omitted empty strings and the amount always there |
| MintMessage.MintField | x/feicoin/types/tx.pb.go:798-936 | What one field does to a message, by the bits of its tag: numbers 1 to 4 set their fields, 5 to 2^31 - 1 change nothing, the others are illegal; a refused amount gives the library's error and touches only the amount |
| MintMessage.MintFieldDecoded | x/feicoin/types/tx.pb.go:778-957 | The same for the bytes of a field decoded on their own |
| MintMessage.MergeOfMint | x/feicoin/types/tx.pb.go:806-936 | Which field sequences are accepted, and that each string is the payload of its last field and the amount what the library makes of all its payloads in turn |
| MintMessage.MergeOfMintFails | x/feicoin/types/tx.pb.go:801-904 | A merge that fails, fails at its first refused field with that field's error, and leaves what the fields before it have made, with the library's amount if it refuses one |
| MintMessage.MintFieldsAreIndependent | x/feicoin/types/tx.pb.go:806-936 | Storing different fields commutes |
| MintMessage.FieldsAscend | x/feicoin/types/tx.pb.go:483-514 | The fields of an encoding stand in ascending order of their numbers |
| MintMessage.DecodeOfEncode | x/feicoin/types/tx.pb.go:778-957 | Decoding an encoding into any message lays it over: omitted empty strings keep what was there |
| MintMessage.MintRoundTrip | x/feicoin/types/tx.pb.go:463-515 | Unmarshal of Marshal into a zero message gives the message back |
| MintMessage.MintRearranged | x/feicoin/types/tx.pb.go:806-951 | An encoding's fields in any order, with unknown fields strewn in, decode to the same message |
| MintMessage.MintPermuted | x/feicoin/types/tx.pb.go:806-951 | Every permutation of an encoding's fields decodes to the same message |
| MintMessage.EncodeIsInjective | x/feicoin/types/tx.pb.go:478-515 | Different messages have different encodings |
| MintMessage.ReencodeNormalises | x/feicoin/types/tx.pb.go:463-515 | The re-encoding of any accepted input, if it fits into a slice, is accepted, means the same, and is its own re-encoding; for a Lean library it is longer than the input at most by the record of zero |
| MintMessage.EncodingIsMinimal | x/feicoin/types/tx.pb.go:575-596 | Decoding any input adds at most its length to the size of the message beside its amount; to the size of the whole message, if the library is Lean |
| MintMessage.MinimalExactlyIfLean | x/feicoin/types/tx.pb.go:575-596 | For the whole message the bound holds on all inputs and messages if and only if the library is Lean |
| MintMessage.ExpandingAmountsAreNotLean | x/feicoin/types/tx.pb.go:589-590 | The condition excludes something: there is a lawful library that is not Lean |
| MintMessage.MinimalFromZero | x/feicoin/types/tx.pb.go:575-596 | With the payload as the amount, a decoded message encodes to at most two bytes more than the input |
| MintMessage.TruncatedMint | x/feicoin/types/tx.pb.go:778-957 | A proper prefix of an encoding is accepted if and only if cut in front of a field, and an unexpected end otherwise; each field of the message left is the encoded one if its record lies in front of the cut, and zero if not |
| MintMessage.MsgMintTokens.Size | x/feicoin/types/tx.pb.go:575-596 | The sum is the exact length of the encoding |
| MintMessage.MsgMintTokens.MarshalToSizedBuffer | x/feicoin/types/tx.pb.go:478-515 | The last Size bytes of the buffer become the forward encoding, no earlier byte changes, and Size is returned |
| MintMessage.MsgMintTokens.MarshalTo | x/feicoin/types/tx.pb.go:473-476 | The same at the front of a buffer, up to its capacity |
| MintMessage.MsgMintTokens.Marshal | x/feicoin/types/tx.pb.go:463-471 | A new slice that holds exactly the encoding |
| MintMessage.MsgMintTokens.Unmarshal | x/feicoin/types/tx.pb.go:778-957 | For every input: no error if and only if the input is fields that merge into the message; otherwise the specified error, and the message holds what was stored before it |
| UpdateMessage.ParamsPayload | x/feicoin/types/tx.pb.go:683-704 | Field 2 is accepted if and only if Params recognises its payload, and never changes the message |
| UpdateMessage.UpdateBytes | x/feicoin/types/tx.pb.go:415-438 | The encoding byte by byte, with the tags 0a and 12 and the empty Params record |
| UpdateMessage.UpdateField | x/feicoin/types/tx.pb.go:633-706 | What one field does to a message, by the bits of its tag |
| UpdateMessage.ParamsInserted | x/feicoin/types/tx.pb.go:613-727 | A field 2 with any payload Params recognises, inserted behind any accepted part of an input, leaves message and acceptance unchanged, and the error too if and only if no index overflows in the longer input alone |
| UpdateMessage.OffsetMatters | x/feicoin/types/tx.pb.go:665-671 | A concrete length that is an unexpected end at the front of an input and an invalid length behind any accepted bytes |
| UpdateMessage.MergeOfUpdate | x/feicoin/types/tx.pb.go:640-705 | Which field sequences are accepted, and that the last authority wins |
| UpdateMessage.MergeOfUpdateFails | x/feicoin/types/tx.pb.go:635-704 | A merge that fails, fails at its first refused field, leaving the last authority before it; of a nested payload the error is that of Params |
| UpdateMessage.DecodeOfEncode | x/feicoin/types/tx.pb.go:613-727 | Decoding an encoding into any message lays it over |
| UpdateMessage.UpdateRoundTrip | x/feicoin/types/tx.pb.go:400-438 | Unmarshal of Marshal into a zero message gives the message back |
| UpdateMessage.ReencodeNormalises | x/feicoin/types/tx.pb.go:400-438 | The re-encoding of any accepted input is at most two bytes longer; if it fits into a slice, it is accepted, means the same, and is its own re-encoding |
| UpdateMessage.UpdateFieldsAreIndependent | x/feicoin/types/tx.pb.go:640-705 | Storing different fields commutes |
| UpdateMessage.UpdateRearranged | x/feicoin/types/tx.pb.go:640-705 | An encoding's fields in any order, with unknown fields strewn in, decode to the same message |
| UpdateMessage.EncodingIsMinimal | x/feicoin/types/tx.pb.go:551-564 | The encoding of a decoded message is at most two bytes longer than the input |
| UpdateMessage.TruncatedUpdate | x/feicoin/types/tx.pb.go:613-727 | A proper prefix of an encoding is accepted if and only if it is empty or ends between the two fields, and an unexpected end otherwise; the message left has the authority if its record lies in front of the cut |
| UpdateMessage.MsgUpdateParams.Size | x/feicoin/types/tx.pb.go:551-564 | The sum is the exact length of the encoding |
| UpdateMessage.MsgUpdateParams.MarshalToSizedBuffer | x/feicoin/types/tx.pb.go:415-438 | The last Size bytes of the buffer become the forward encoding with the empty Params record, and no earlier byte changes |
| UpdateMessage.MsgUpdateParams.MarshalTo | x/feicoin/types/tx.pb.go:410-413 | The same at the front of a buffer, up to its capacity |
| UpdateMessage.MsgUpdateParams.Marshal | x/feicoin/types/tx.pb.go:400-408 | A new slice that holds exactly the encoding |
| UpdateMessage.MsgUpdateParams.Unmarshal | x/feicoin/types/tx.pb.go:613-727 | For every input: no error if and only if the input is fields that merge into the message, nested payloads included; otherwise the specified error and the message stored so far |

## Left out

* `MsgMintTokens.Amount`: the decimal text of `math.Int` and a failure of its `MarshalTo`; its decoder is a parameter.
* Nil receivers of `Size`, and sizes whose `int` sum overflows: the methods require an encoding that fits into a slice.
* Error texts, and the difference between the error values of `tx.pb.go` and `params.pb.go` that say the same.
* Slices whose capacity ends before their array does.
* Aliasing between a message and its input: the decoders copy every payload they keep, and so does the model.
* The loops that the generator repeats inline (reading a varint, a tag, a payload) are one method each here.
* `Params.Marshal` and `Params.MarshalTo`: they produce no bytes.
* The empty response messages, `genesis.pb.go`, `query.pb.go`, `module.pb.go`: the same templates with fewer fields.
* `sozTx`, the `XXX_` methods, descriptors, registration, and the gRPC clients and servers: dead code or plumbing.
* `x/feicoin/keeper`, `app`, `cmd`, the scripts and pages: calls into services outside this repository.
