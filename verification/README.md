# The Pulsar wire codec and the zero-height export, verified

This project models two parts of the Pulsar chain and proves properties of them.

**The protobuf codec of `x/pulsar/types`.** Six messages are encoded by writers that
fill a buffer from its end towards its front, and decoded by loops over raw bytes. The
code is generated, so the six files repeat it with other names; one copy is modelled.

- `Machine.dfy`: Go's wrapping `int`, `uint64`, the `int32` cast and the bit operators.
- `Varint.dfy`, `VarintLoops.dfy`: varints as values, and the loops that write and read them.
- `Grammar.dfy`: the reference. A field is a tree (groups nest), with its bytes.
- `Skip.dfy`: the loop over an unknown field, with one depth counter, against the grammar.
- `Decoding.dfy`: `Unmarshal` over a schema, against "split into fields, then fold".
- `Laws.dfy`: concatenation, overruns, truncation, unknown fields, schema inclusion.
- `Errors.dfy`: which error an input gets, from its bytes.
- `Encoding.dfy`: the encodings, round trip, injectivity, shortest encodings.
- `Messages.dfy`: the message types, with their in-place writers and decoding loops.

The specification counts in unbounded integers and keeps an end behind the input as
`Overrun(end)`. The methods add with Go's wrap-around and test for negative results, as
the source does. Each is proved to give the answer of the specification on every input up
to the longest slice, error included, so wrap-around never goes unnoticed and every index
is in range. The check `iNdEx > l` behind each loop is proved never to fire.

**`prepForZeroHeightGenesis` of `app/export.go`** (`ZeroHeight.dfy`): the sweep of
outstanding rewards, the height resets, and the jailing by allow-list. Stores are maps;
a Go panic is the result `false`; a loop over a store visits its keys in any order.

Three statements one might expect are not what the code does:

- Decoding `a` and then `b` is decoding `a + b`, but not always with the same error: a
  payload of `b` whose declared end is an `int` counted from the start of `b` only is an
  EOF there and an invalid length in `a + b`. `ConcatStatusExact` gives the condition on
  the bytes of `b`, `ConcatStatusDiffers` an input.
- `XXX_Marshal` without the deterministic flag returns the front of a buffer whose end it
  has written. That is the encoding for every content of the buffer if and only if the
  capacity equals the size (`XxxMarshalExact`).
- A validator is spared by the allow-list if its canonical address string is listed. A
  second spelling that parses to the same address is accepted into the list and does
  not spare it (`AllowListExact`, `SecondSpellingJails`).

## Model

| member | source | states |
|---|---|---|
| Machine.Int32 | x/pulsar/types/tx.pb.go:372 | the cast gives the one signed 32-bit number that is congruent to its argument modulo 2^32 |
| Machine.Wrap | x/pulsar/types/tx.pb.go:403 | a wrapping sum is the one signed 64-bit number congruent to the true sum modulo 2^64 |
| Machine.BitwiseExact | x/pulsar/types/tx.pb.go:314 | the modelled or and and act on every bit position by itself |
| Machine.Len64Exact | x/pulsar/types/tx.pb.go:346 | the modelled bit length is the position behind the highest set bit |
| Machine.GuardsExact | x/pulsar/types/tx.pb.go:399-409 | under wrapping arithmetic the three guards of a length prefix pass if and only if the length is below 2^63 and the unbounded end lies inside the input; the negative sum means an end above 2^63 - 1 |
| Machine.AccumulateStep | x/pulsar/types/tx.pb.go:366 | or-ing the next seven bits in at `shift` adds them at that weight modulo 2^64, also at shift 63 where six of them are lost |
| Machine.IntStep | x/pulsar/types/tx.pb.go:426 | the same step on a signed `int` accumulator keeps the same 64 bits |
| Varint.SovExact | x/pulsar/types/tx.pb.go:345-347 | the closed form on `Len64` is the number of bytes of the written varint, for every `uint64` |
| Varint.ReadExact | x/pulsar/types/tx.pb.go:357-371 | the reading loop accepts exactly the well-formed varints of at most ten bytes and returns the low 64 bits of the number they write |
| Varint.EncodeIsVarint | x/pulsar/types/tx.pb.go:310-320 | what is written for a `uint64` is a well-formed varint of that value |
| Varint.ReadEncode | x/pulsar/types/tx.pb.go:310-371 | round trip: wherever the written form of `v` stands, reading gives `v` and stops `sov(v)` bytes on |
| Varint.Minimal | x/pulsar/types/tx.pb.go:345-371 | no accepted varint of value `v` is shorter than `sov(v)` |
| Varint.ShortestForms | x/pulsar/types/tx.pb.go:310-371 | up to nine bytes the written form is the only varint of its length and value; at ten bytes exactly the odd last bytes below 0x80 read as the same value |
| Varint.PrefixFree | x/pulsar/types/tx.pb.go:357-371 | two varints that start the same string are equal |
| VarintLoops.EncodeVarint | x/pulsar/types/tx.pb.go:310-320 | writes the shortest varint of `v` so that it ends at the offset, changes no other byte, returns its start |
| VarintLoops.ReadUint64 | x/pulsar/types/tx.pb.go:384-398 | the `uint64` loop gives the value and end of the varint, or its error |
| VarintLoops.ReadInt | x/pulsar/types/tx.pb.go:416-430 | the `int` loop gives the same bits, read as signed |
| VarintLoops.SkipVarint | x/pulsar/types/tx.pb.go:539-550 | the value-less loop stops at the same index with the same errors |
| Grammar.NumberExact | x/pulsar/types/tx.pb.go:372-378 | the field number is n, for 1 <= n < 2^31, if and only if the tag above its low three bits is n modulo 2^32; it is not positive if and only if that residue is zero or at least 2^31 |
| Grammar.ShapesByType | x/pulsar/types/tx.pb.go:537-584 | behind a tag of wire type 0 exactly one varint completes a field, of type 1 exactly eight bytes, of type 5 exactly four; types 4, 6 and 7 start none |
| Grammar.DelimitedShape | x/pulsar/types/tx.pb.go:553-572 | behind type 2 exactly a length varint below 2^63 and that many bytes |
| Grammar.GroupShape | x/pulsar/types/tx.pb.go:573-579 | behind type 3 exactly complete fields and one tag of type 4, whatever its number |
| Grammar.Unambiguous | x/pulsar/types/tx.pb.go:516-593 | no complete field is a proper prefix of another, and its tree is determined by its bytes |
| Grammar.UniqueSplit | x/pulsar/types/tx.pb.go:351-465 | an input splits into complete fields in at most one way |
| Skip.WalkItem | x/pulsar/types/tx.pb.go:520-591 | at every depth the loop crosses a complete field as a whole and comes back to that depth |
| Skip.WalkFrames | x/pulsar/types/tx.pb.go:573-590 | a walk inside `depth` groups that ends inside the input consists of exactly `depth` runs of complete fields, each closed by an end tag |
| Skip.SkipExact | x/pulsar/types/tx.pb.go:516-593 | the counter loop refines the grammar: it ends at `n` inside the input if and only if the first `n` bytes are one complete field |
| Skip.ItemPrefixUnique | x/pulsar/types/tx.pb.go:516-593 | at most one prefix of an input is a complete field |
| Skip.SkipAppend | x/pulsar/types/tx.pb.go:516-593 | the end of a field, once found, is not changed by appending bytes |
| Skip.SkipLoop | x/pulsar/types/tx.pb.go:516-593 | the loop with wrapping indices gives the answer of the unbounded walk, an end above 2^63 - 1 being an invalid length |
| Skip.SkipField | x/pulsar/types/params.pb.go:206-283 | `skip*` answers `n` inside the input if and only if the first `n` bytes are one complete field; a success consumes at least one byte |
| Decoding.ReadField | x/pulsar/types/tx.pb.go:354-458 | one loop turn advances strictly and stays inside the input, or halts; its errors are those of `Errors.FieldErrorExact` |
| Decoding.DecodeFront | x/pulsar/types/tx.pb.go:351-465 | allowed fields standing anywhere in the input are folded into the receiver, and decoding goes on behind them |
| Decoding.DecodeItems | x/pulsar/types/tx.pb.go:351-465 | every run of allowed fields decodes cleanly to the fold of its strings |
| Decoding.ItemsOfDecode | x/pulsar/types/tx.pb.go:351-465 | whatever decodes cleanly is a run of complete, allowed fields |
| Decoding.DecodeExact | x/pulsar/types/tx.pb.go:351-465 | decoding succeeds if and only if the input splits into complete allowed fields, and then the receiver holds the fold of the strings over its start value |
| Decoding.LastStringIsLast | x/pulsar/types/tx.pb.go:410 | that fold is the payload of the last string field, or the start value if there is none |
| Decoding.AcceptsBySplit | x/pulsar/types/tx.pb.go:351-465 | the unique split alone decides whether a schema accepts the input |
| Decoding.FrontExact | x/pulsar/types/tx.pb.go:351-465 | on every input, rejected ones included, there is a longest front of allowed fields, the receiver holds the fold of exactly those, and success means they are the whole input |
| Laws.ConcatIsMerge | x/pulsar/types/tx.pb.go:351-465 | if `a` is accepted, decoding `a + b` into a receiver is decoding `a` and then `b`, with the fault of `b` moved by the length of `a` |
| Laws.GroupEndsInside | x/pulsar/types/tx.pb.go:573-590 | a walk that closes its groups never ends behind the input; only a plain payload can |
| Laws.MissingCompletes | x/pulsar/types/tx.pb.go:431-440 | a payload that ends behind the input is that of one complete field cut short: as many bytes as are missing complete it |
| Laws.OverrunExact | x/pulsar/types/tx.pb.go:403-456 | decoding overruns to `end` if and only if the bytes are a run of allowed fields and then an admitted tag whose declared payload ends at `end`, behind the input |
| Laws.ConcatStatusExact | x/pulsar/types/tx.pb.go:403-409 | success is always the same both ways; the error is the same unless, and only unless, the bytes of `b` stop at a payload whose declared end is an `int` counted from `b` and none counted from `a` |
| Laws.ConcatStatusDiffers | x/pulsar/types/tx.pb.go:403-409 | two inputs that meet that condition, where the error changes from EOF to invalid length |
| Laws.TruncationIsEOF | x/pulsar/types/tx.pb.go:351-465 | every prefix of an accepted input is accepted or fails with an unexpected EOF, never with another error |
| Laws.UnknownIsTransparent | x/pulsar/types/tx.pb.go:445-458 | inserting a complete field of unknown positive number, groups included, behind an accepted prefix leaves the receiver and success the same, and moves the position of an overrun by its length |
| Laws.UnknownStatusExact | x/pulsar/types/tx.pb.go:445-458 | the error is the same as well unless, and only unless, the input stops at a payload whose declared end ceases to be an `int` |
| Laws.SkipDelimited | x/pulsar/types/tx.pb.go:553-572 | on every length-delimited field the length decoder inside the skip loop and the one of a declared field give the same error, the same overrun or the same end |
| Laws.DecodeNarrow | x/pulsar/types/module.pb.go:158-239 | forgetting declared fields, or reading a nested one as a string, keeps every accepted input accepted; the receiver ends the same if the string fields are the same |
| Laws.Inclusions | x/pulsar/types/tx.pb.go:466-515 | what `MsgUpdateParams` accepts, `Module` decodes to the same authority; what `GenesisState` accepts, `Module` accepts; what `Module` accepts, the empty messages accept |
| Laws.StrayEndExact | x/pulsar/types/tx.pb.go:575-579 | the skip loop reports a stray end of group if and only if the input starts with an end tag, whatever follows |
| Laws.NoStrayEnd | x/pulsar/types/tx.pb.go:373-375 | no `Unmarshal`, nested or not, ever fails with that error: its own test of the wire type comes first |
| Laws.NoStringsNoChange | x/pulsar/types/genesis.pb.go:158-240 | a message without string fields leaves the receiver as it was, on every input |
| Laws.FaultIgnoresReceiver | x/pulsar/types/tx.pb.go:351-465 | acceptance and error do not depend on what the receiver held |
| Errors.ReadErrorExact | x/pulsar/types/tx.pb.go:357-371 | reading a varint overflows if and only if ten continuation bytes stand there, and runs into the end if and only if fewer stand there up to the end |
| Errors.TokenErrorExact | x/pulsar/types/tx.pb.go:520-584 | one turn of the skip loop fails exactly on an unreadable tag, varint or length, a length of 2^63 or more, or wire type 6 or 7 |
| Errors.StuckExact | x/pulsar/types/tx.pb.go:516-593 | the skip loop fails with an error if and only if the input starts with open groups, each followed by complete fields, and what follows stops the loop with that error |
| Errors.FieldErrorExact | x/pulsar/types/tx.pb.go:354-458 | one turn of `Unmarshal` halts with an error if and only if the bytes of the field there show one of eight causes: unreadable tag, end tag, number, type, length, unknown field, end behind the input, failing nested message |
| Errors.StatusExact | x/pulsar/types/tx.pb.go:351-465 | every error of every input: `Unmarshal` fails with `e` if and only if the input is a run of allowed fields and then a field that fails with `e` |
| Errors.WrongWireTypeExact | x/pulsar/types/tx.pb.go:381-383 | a wrong wire type is reported if and only if behind allowed fields stands a declared number with a wire type other than 2 and 4 |
| Errors.IllegalTagRejected | x/pulsar/types/tx.pb.go:372-378 | behind allowed fields, a tag whose number is zero or negative as 32 bits is an illegal tag for every schema, unless it is an end tag |
| Errors.RejectedInputs | x/pulsar/types/tx.pb.go:372-383 | 08 01 is a wrong wire type for `MsgUpdateParams`; 80 80 80 80 40 00, whose number is -2^31, an illegal tag |
| Encoding.MarshalledMerges | x/pulsar/types/tx.pb.go:262-285 | decoding a marshalled message into any receiver replaces the authority, or keeps it if the message's is empty |
| Encoding.RoundTrip | x/pulsar/types/tx.pb.go:247-285 | unmarshalling what was marshalled into a zero message gives the message back, for `MsgUpdateParams` and `Module`, whenever the encoding fits an `int` |
| Encoding.MarshalInjective | x/pulsar/types/tx.pb.go:247-285 | two messages never share an encoding |
| Encoding.GenesisExact | x/pulsar/types/query.pb.go:270-286 | the one encoding of `GenesisState` and `QueryParamsResponse` is 0x0a 0x00, decodes cleanly into any receiver, and no input carrying field 1 is shorter |
| Encoding.ReencodingBound | x/pulsar/types/tx.pb.go:321-334 | a decoded message is written in at most two bytes more than the input had, and in no more bytes if the input carried field 2 |
| Encoding.ReencodingTight | x/pulsar/types/tx.pb.go:267-276 | the empty input is re-encoded in exactly two bytes more, every marshalled input, which carries field 2, in exactly as many |
| Encoding.NormalForm | x/pulsar/types/tx.pb.go:247-465 | decode-then-encode is idempotent |
| Messages.WriteHead | x/pulsar/types/tx.pb.go:273-276 | length varint and tag extend what is already written to the left and change nothing else |
| Messages.WriteAuthority | x/pulsar/types/tx.pb.go:277-283 | a non-empty string field is put in front of what is written, an empty one is not written |
| Messages.SkipBranch | x/pulsar/types/tx.pb.go:445-458 | the unknown-field branch, with its wrapping guards, steps to the end of the field or gives the exact error |
| Messages.ReadTag | x/pulsar/types/tx.pb.go:355-378 | the head of a loop turn: truncated signed field number, wire type, and the two rejections in order |
| Messages.StringBounds | x/pulsar/types/tx.pb.go:384-411 | `uint64` length, cast and wrapping guards give exactly the payload bounds or the exact error |
| Messages.MessageBounds | x/pulsar/types/tx.pb.go:416-440 | the direct `int` length decoder gives the same bounds and errors |
| Messages.EmptyMessage.Unmarshal | x/pulsar/types/params.pb.go:156-205 | accepts exactly the runs of complete fields with positive truncated numbers; each error by its cause otherwise |
| Messages.EmptyMessage.MarshalToSizedBuffer | x/pulsar/types/params.pb.go:122-128 | writes nothing and returns the size, zero |
| Messages.ModuleSizeExact | x/pulsar/types/module.pb.go:139-150 | `Size` is the encoded length modulo wrap-around, and equal to it if and only if that fits an `int` |
| Messages.SizeExact | x/pulsar/types/tx.pb.go:321-334 | the same for `MsgUpdateParams` |
| Messages.MsgUpdateParams.MarshalToSizedBuffer | x/pulsar/types/tx.pb.go:262-285 | on any large enough buffer, fills exactly the last `Size` bytes with the forward encoding, leaves the rest alone and returns `Size` |
| Messages.MsgUpdateParams.Marshal | x/pulsar/types/tx.pb.go:247-255 | fills a fresh buffer exactly with the encoding |
| Messages.MsgUpdateParams.MarshalTo | x/pulsar/types/tx.pb.go:257-260 | writes the encoding to the front of the buffer and nothing behind it |
| Messages.MsgUpdateParams.XxxMarshal | x/pulsar/types/tx.pb.go:53-64 | returns the first `Size` bytes of a buffer whose last `Size` bytes were written |
| Messages.XxxMarshalExact | x/pulsar/types/tx.pb.go:53-64 | that is the encoding for every buffer content if and only if the capacity equals the size |
| Messages.MsgUpdateParams.Unmarshal | x/pulsar/types/tx.pb.go:351-465 | for every input: success if and only if it splits into allowed fields; each error if and only if the bytes show its cause; the authority is the last string of the longest front of allowed fields, also when the input is rejected |
| Messages.Module.MarshalToSizedBuffer | x/pulsar/types/module.pb.go:113-126 | fills exactly the last `Size` bytes with the encoding, leaves the rest alone |
| Messages.Module.Marshal | x/pulsar/types/module.pb.go:98-106 | fills a fresh buffer exactly with the encoding |
| Messages.Module.Unmarshal | x/pulsar/types/module.pb.go:158-239 | the one-string schema: acceptance, each error by its cause, and the authority (also on rejected inputs), on every input |
| Messages.ParamsHolder.MarshalToSizedBuffer | x/pulsar/types/genesis.pb.go:112-128 | fills exactly the last two bytes with 0x0a 0x00 |
| Messages.ParamsHolder.Unmarshal | x/pulsar/types/genesis.pb.go:158-240 | the nested-only schema: acceptance, and each error by its cause, on every input |
| ZeroHeight.AddCoins | app/export.go:134 | every denomination of either side, with the sum of its two amounts where both have it |
| ZeroHeight.Amount | app/export.go:126-134 | the stored amount, or zero for a missing denomination |
| ZeroHeight.TotalRemove | app/export.go:126-137 | the sum of outstanding rewards does not depend on the order in which validators are visited |
| ZeroHeight.TotalEmptied | app/export.go:126-141 | emptying one validator's rewards takes exactly them out of the sum |
| ZeroHeight.AllowListExact | app/export.go:64-72 | the reset store jails exactly those that were jailed or whose address the list does not denote, if and only if every entry that spells a stored, unjailed validator comes with its canonical string; only stored addresses need to format and parse back |
| ZeroHeight.SecondSpellingJails | app/export.go:217-225 | an instance of that theorem where the condition fails: a listed, unjailed validator whose reset record is jailed |
| ZeroHeight.App.ParseAllowList | app/export.go:57-72 | panics if and only if some listed string does not parse; otherwise the set holds exactly the listed strings |
| ZeroHeight.App.Donate | app/export.go:125-142 | the pool holds, denomination by denomination, its old amount plus the validator's; the validator's rewards are empty; pool plus outstanding unchanged |
| ZeroHeight.App.SweepRewards | app/export.go:119-146 | over any validator set, panic or not, pool plus all outstanding rewards is unchanged; on success every validator's rewards are empty and all other records untouched |
| ZeroHeight.App.ZeroHeights | app/export.go:177-179 | every entry's creation height is zero, every other field of it as before |
| ZeroHeight.App.ResetRedelegations | app/export.go:175-188 | every entry of every record has creation height 0 and its other fields; number of entries, delegator, source, destination and keys are unchanged |
| ZeroHeight.App.ResetUnbondings | app/export.go:190-203 | the same for unbonding delegations, with delegator and validator unchanged |
| ZeroHeight.App.ResetValidators | app/export.go:205-230 | field by field: unbonding height 0; operator and all other fields unchanged; jailed if and only if jailed before, or the list is non-empty and lacks the canonical string; jailing agrees with the addresses the list denotes if and only if it spells them canonically |
| ZeroHeight.App.ParseOperators | app/export.go:77-84 | the commission loop panics if and only if a stored operator string does not parse |
| ZeroHeight.App.ParseDelegations | app/export.go:95-104 | the delegation loops panic if and only if a validator or delegator address does not parse |
| ZeroHeight.App.ResetDistribution | app/export.go:74-168 | the sweep between the parsing loops: it fails if and only if a delegation address does not parse; rewards conserved; every validator's rewards empty on success |
| ZeroHeight.App.PrepForZeroHeightGenesis | app/export.go:56-230 | the modelled phases together: store and hook errors aside, it completes if and only if the listed, the delegation and the validator addresses convert; reward conservation in every case; the exact final staking records |

## Left out

- gRPC and gateway handlers, descriptors, `String`, `Reset`, and the deterministic `XXX_*` methods: library plumbing.
- `sozTx` and its copies: nothing calls them.
- `Size` on a nil receiver, which is zero: the messages here are never nil.
- `Marshal`, `MarshalTo`, `Size` and `XXX_Marshal` of the messages without a string: the same statements as those modelled, around a constant encoding.
- A writer called on a buffer shorter than the encoding panics in Go; here that is a precondition, as it is when the encoding is longer than an `int`.
- The reading loops and field branches that the generated code repeats inline are methods here; the text of errors is reduced to its kind.
- `skip*` is one loop in the source; `SkipField` only adds the grammar statement around `SkipLoop`. Its depth counter is unbounded here: it never exceeds the number of bytes read.
- That `GenesisState` and `QueryParamsResponse`, and likewise the three messages without fields, decode and encode interchangeably is read off the sources, which differ in names only: one method serves them here, so it is not a proved statement.
- Reading code takes its slice as a sequence, so a caller that changes the bytes during decoding is not modelled.
- Withdrawal of commissions and delegator rewards (only the parsing of their addresses is modelled), deletion of slash events and historical rewards, and the delegation hooks: SDK code, not part of this model. The state at the start of `PrepForZeroHeightGenesis` stands for the state after the withdrawals.
- AfterValidatorCreated: models only that the hook empties the validator's outstanding rewards and touches no other validator's rewards nor the pool; its other records are SDK state.
- ZeroHeight.App.PrepForZeroHeightGenesis: does not model panics on errors of the stores and of the hooks, because these come from the SDK.
- The context height: only the hooks read it.
- `ApplyAndReturnValidatorSetUpdates`, the slashing reset and the JSON export, which follow the modelled phases.
- Decimal coins are natural numbers of units of 10^-18 per denomination; sorted coin lists are not modelled.
