# Verified model of the nodelabs wire codec, access grants and license audit

This project models three parts of the nodelabs chain in Dafny and proves what they promise.

* **The wire codec** of the license and access messages (`Words`, `Wire`, `Messages`, `Codec`, `Fields`,
  `LicenseMessages`, `AccessMessages`, `TxMessages`, `GenesisMessages`).  Each Go message is a class with the fields
  of the Go struct and its size, marshal and unmarshal routines: a buffer of the computed size filled backwards with a
  descending cursor, and a decode loop that moves a cursor over the input and updates the fields.  The generator
  expands the same loops in every routine; here each is written once and proved (`Codec`, `Fields`).  The routines are
  proved against one definition over message schemas, `Messages.Encode`, `Messages.Decode` and `Messages.StateAfter`
  (the message a call leaves, also when it fails), and the theorems about that definition hold for every schema,
  nested to any depth: `Composition`, `RoundTrip`, `Growth`, `Normalisation`, `PackedLists`, `Discarding`,
  `CodecResults`.  What the definition itself says is fixed without it: `Records` gives the record format as a grammar
  and proves that skipping recognises it, `FieldRecords` spells out what one record does or why it is refused, and
  `WireForms` spells out every message over its Go fields.
* **The access grant store** (`AccessTypes`, `AccessEvents`, `GrantStore`, `GrantRuns`, `AccessGenesis`): a set of
  (grantee, action, scope) triples with validated grants, unchecked revokes, emitted events, genesis import and export.
* **The audit of active license counts** (`LicenseAudit`): two walks over denormalised state and a sorted report.

`Ordering` and `Sets` hold the order and cardinality facts the last two parts share; `Options` is the option type.

Machine integers are integers with their ranges written out (`Words`): or is defined bit by bit, shifts
truncate to the word, lengths are read as signed 64-bit ints, and sums of cursor and length wrap.

Where the code and what it is documented to do differ, the model follows the code:

* The packed loop of a repeated uint64 field is entered while the payload lasts but reads to the end of the input.
  The Protocol Buffers "Encoding" document (section "Packed Repeated Fields") gives a packed record a payload of its
  own, but a payload cut inside a varint is accepted and takes its last bytes from what follows.
  `PackedLists.PackedLoopConsumption` gives the exact condition, `PackedLists.PackedLoopOverruns` an input.
* Grant events are described as keeping actions and scopes positionally paired, and scopes as opaque.  Both cannot
  hold: `AccessEvents.GrantEventFaithfulIffClean`, `AccessEvents.RevokeEventFaithfulIffClean` and
  `GrantRuns.GrantReplaysIffClean` give the exact condition, `GrantRuns.CommaScopeReplaysWrong` an input.

## Model

| member | source | states |
|---|---|---|
| `Words.OrNarrow` | api/license/v1/license.pulsar.go:956 | one `acc \|= T(b&0x7f) << shift` keeps the low bits of the untruncated sum, for a word of any width and also when the shift runs past it |
| `Words.OrBits` | api/license/v1/license.pulsar.go:956 | `\|` on words is the disjunction of every bit |
| `Words.CastsTruncate` | api/license/v1/license.pulsar.go:856-860 | the casts to int32, int64 and uint64 keep their argument up to a multiple of the word size, within the range of the type |
| `Words.SignExtendTruncates` | api/license/v1/license.pulsar.go:856-860 | the cast of an int32 to uint64 and its truncation back lose nothing, and only 0 becomes 0 |
| `Wire.Varint64RoundTrip` | api/license/v1/tx.pulsar.go:3146-3154 | every uint64 is read back from its varint, whatever follows, using exactly its length, at most ten bytes |
| `Wire.VarintShape` | api/license/v1/tx.pulsar.go:3146-3154 | byte `i` of a varint holds the `i`-th seven bits, and all bytes but the last are marked |
| `Wire.VarintLength` | api/license/v1/tx.pulsar.go:3146-3154 | a varint has the bytes its number needs and no more |
| `Wire.VarintEnds` | api/license/v1/tx.pulsar.go:3199-3212 | a varint ends with the first unmarked byte among ten; otherwise it overflows if ten marked bytes are there, and else the input ended |
| `Wire.VarintGroups` | api/license/v1/tx.pulsar.go:3199-3212 | what the loop has accumulated, also when it fails: seven bits from each byte read |
| `Wire.VarintLocal` | api/license/v1/tx.pulsar.go:3199-3212 | a varint that was read does not depend on the bytes after it |
| `Wire.SovClosedForm` | x/access/types/access.pb.go:419-421 | the byte count of a varint equals the closed form over the bit length |
| `Wire.PayloadRoundTrip` | api/license/v1/tx.pulsar.go:3226-3253 | a length-prefixed payload is read back exactly as long as cursor and length stay below 2^63 |
| `Wire.PayloadCases` | api/license/v1/tx.pulsar.go:3226-3252 | exactly when a length-delimited payload is accepted, which bytes it is, and which error it gives otherwise |
| `Wire.PayloadLocal` | api/license/v1/tx.pulsar.go:3241-3251 | an accepted payload is read from its own bytes only, the same at any cursor: the wrap-around checks only ever reject |
| `Wire.SkipLocal` | x/access/types/access.pb.go:799-873 | a complete record, groups included, is measured from its own bytes only |
| `Records.SkipIffRecord` | x/access/types/access.pb.go:799-873 | skipping measures `n` bytes that are there if and only if they are one record of the grammar: a varint, eight bytes, a payload, four bytes, or a group of records |
| `Records.SkipMeasures` | x/access/types/access.pb.go:816-867 | for every field number and whatever follows, each of the five forms of record is measured at its own length |
| `Records.SkipRefuses` | x/access/types/access.pb.go:803-871 | the error by the wire type of the first tag: end of group, unknown type, unreadable varint, negative length, open group |
| `Records.UnknownIffRecords` | api/license/v1/license.pulsar.go:1109-1125 | bytes are complete records of unknown fields if and only if they are records of the grammar with those field numbers |
| `Records.RecordsRetained` | api/license/v1/license.pulsar.go:1109-1125 | such records, groups and fixed-width ones included, are retained byte for byte |
| `Records.RecordsDiscarded` | api/license/v1/license.pulsar.go:1121-1124 | when told to discard, the decoder passes over them and leaves the message as it is |
| `Discarding.DiscardIsStrip` | api/license/v1/license.pulsar.go:904-1132 | for every input and schema, decoding with unknown fields discarded is decoding with them kept and then removing them at every level; errors are the same |
| `Discarding.DiscardingKeepsOld` | api/license/v1/license.pulsar.go:1121-1124 | discarding does not touch the unknown bytes a message has already |
| `Messages.ReadTag` | api/license/v1/tx.pulsar.go:3213-3220 | a tag is accepted if and only if its varint is, it is no end-group tag, and its field number, cut to 32 bits, is a positive int32 |
| `FieldRecords.TagRefused` | api/license/v1/tx.pulsar.go:3213-3220 | which error each refused tag gives; the message does not change |
| `FieldRecords.VarintMeaning` | api/license/v1/license_type.pulsar.go:565-584 | what a varint of any length gives a uint64, an enum, a bool or a list: its low 64 bits, its low 32 bits as an int32, whether the low 64 are not all zero |
| `FieldRecords.TextMeaning` | api/license/v1/license.pulsar.go:962-993 | a string replaces the old one, or is appended to a list |
| `FieldRecords.NestedMeaning` | api/license/v1/genesis.pulsar.go:722-755 | a nested message is decoded from its payload alone, into the present one or, in a list, a new one |
| `FieldRecords.WrongWireTypeRefused` | api/license/v1/tx.pulsar.go:3286-3364 | a known field under a wire type that is not its own is refused, and nothing changes |
| `FieldRecords.VarintRefused` | api/license/v1/license.pulsar.go:940-961 | a varint that cannot be read: the error, and what is left in the field |
| `FieldRecords.LengthRefused` | api/license/v1/tx.pulsar.go:3226-3252 | a length that is refused: the error; nothing changes |
| `FieldRecords.NestedRefused` | api/license/v1/genesis.pulsar.go:751-754 | a nested message that is refused fails the outer one with its error, and stays there with what it got |
| `FieldRecords.PackedRefused` | api/license/v1/tx.pulsar.go:3341-3361 | the packed values before one that cannot be read are appended |
| `FieldRecords.UnknownRefused` | api/license/v1/license.pulsar.go:1109-1120 | an unknown record that cannot be measured or is cut off: the error; nothing changes |
| `Codec.ReadVarint` | api/license/v1/license.pulsar.go:1094-1107 | the shift-and-or loop returns the low 64 or 32 bits of the base-128 number, with its overflow and end-of-input errors; on an error the word holds the groups read until then |
| `Codec.ReadPayload` | api/license/v1/tx.pulsar.go:3226-3252 | the signed length checks in their order: negative length, wrapped sum, end of input, else the payload bytes |
| `Codec.ReadPackedList` | api/license/v1/tx.pulsar.go:3304-3361 | the packed loop yields the values of `PackedList`, overrun included, and appends the values before an error |
| `Codec.SkipRecord` | x/access/types/access.pb.go:799-873 | the skipping loop, with its group depth and a cursor that wraps at 64 bits, measures what `Skip` measures |
| `Codec.ReadUnknown` | api/license/v1/tx.pulsar.go:3365-3380 | an unknown record is kept byte for byte, or dropped when asked to; the three errors, the wrapped cursor sum among them |
| `Fields.PutVarint` | x/access/types/access.pb.go:351-361 | writes exactly the varint before the cursor and moves the cursor to its first byte |
| `Fields.PutTexts` | api/access/v1/access.pulsar.go:944-952 | the last-to-first loop leaves the list in first-to-last order |
| `Fields.PutPacked` | api/license/v1/tx.pulsar.go:3141-3160 | the forward packed run, its size and its tag are the packed record; nothing for an empty list |
| `Fields.FilledAll` | api/license/v1/license.pulsar.go:847-903 | a marshaller that has written all fields has its cursor at 0 and a buffer equal to the encoding |
| `Fields.Uint64Field` | api/license/v1/license.pulsar.go:940-961 | decodes into a cleared field, so old bits do not survive; a failure leaves the bits read until then |
| `Fields.EnumField` | api/license/v1/license.pulsar.go:1086-1108 | the status is accumulated in an int32 and is the low 32 bits of the varint, also of an incomplete one |
| `Fields.BoolField` | api/license/v1/license_type.pulsar.go:565-584 | any non-zero varint is true; a failure leaves the old value |
| `LicenseMessages.License.Size` | api/license/v1/license.pulsar.go:792-834 | the computed size is the length of the encoding |
| `LicenseMessages.License.Marshal` | api/license/v1/license.pulsar.go:836-903 | appends the encoding: present fields in field order, then the unknown bytes |
| `LicenseMessages.License.Unmarshal` | api/license/v1/license.pulsar.go:904-1132 | for every input and every old message: terminates, stays in range, ends its loop with the cursor at the length, and succeeds with the decoded message or fails with the first error, leaving what `StateAfter` says |
| `LicenseMessages.LicenseType.Marshal` | api/license/v1/license_type.pulsar.go:419-493 | as for `License`, with the bool written as two bytes |
| `LicenseMessages.LicenseType.Unmarshal` | api/license/v1/license_type.pulsar.go:494-736 | as for `License` |
| `LicenseMessages.Params.Marshal` | api/license/v1/license.pulsar.go:293-329 | as for `License` |
| `LicenseMessages.Params.Unmarshal` | api/license/v1/license.pulsar.go:330-424 | as for `License`; the present owner is replaced, so decoding merges |
| `AccessMessages.Grant.Marshal` | api/access/v1/access.pulsar.go:343-393 | as for `License` |
| `AccessMessages.Grant.Unmarshal` | api/access/v1/access.pulsar.go:394-552 | as for `License` |
| `AccessMessages.ActionScopes.Size` | api/access/v1/access.pulsar.go:892-922 | the size loop over a repeated string is the length of its records |
| `AccessMessages.ActionScopes.Marshal` | api/access/v1/access.pulsar.go:924-969 | as for `License`, with a repeated string |
| `AccessMessages.ActionScopes.Unmarshal` | api/access/v1/access.pulsar.go:970-1096 | as for `License`; each record appends one scope |
| `TxMessages.MsgRevokeLicenses.Size` | api/license/v1/tx.pulsar.go:3082-3117 | the size with a packed list is the length of the encoding |
| `TxMessages.MsgRevokeLicenses.Marshal` | api/license/v1/tx.pulsar.go:3119-3182 | as for `License`, with a packed list |
| `TxMessages.MsgRevokeLicenses.Unmarshal` | api/license/v1/tx.pulsar.go:3183-3385 | as for `License`; packed and single ids append |
| `GenesisMessages.GenesisState.Size` | api/license/v1/genesis.pulsar.go:539-584 | the size over three nested lists, nil elements included, and optional parameters is the length of the encoding |
| `GenesisMessages.GenesisState.Marshal` | api/license/v1/genesis.pulsar.go:586-682 | the nested lists, written last to first, come out in order; a nil element is written as an empty record |
| `GenesisMessages.GenesisState.Unmarshal` | api/license/v1/genesis.pulsar.go:683-902 | list elements are decoded into fresh messages, parameters into the present ones if there are any; an element that fails stays appended |
| `Composition.StepLocal` | api/license/v1/license.pulsar.go:917-1126 | a record that is accepted depends on its own bytes only: neither on the cursor nor on what follows |
| `Composition.SequentialComposition` | api/license/v1/tx.pulsar.go:3183-3385 | if `a` is accepted, decoding `a + b` is decoding `b` into the result of decoding `a`, for every schema, with or without unknown fields kept, in result, in error and in what a failure leaves; only the choice between the two errors for a length that is too long can differ |
| `Composition.FailureKeepsPrefix` | api/license/v1/license.pulsar.go:917-1126 | a failed call leaves the message decoded from the records before the failing one, but for the one field that record is of |
| `CodecResults.RecordsAfterAccepted` | api/license/v1/license.pulsar.go:938-1108 | after any accepted input, for every kind of field: a further scalar or string replaces the value, also a zero, further list records are appended in order, a further nested message is merged |
| `CodecResults.MergedFields` | api/license/v1/license.pulsar.go:904-1132 | merging spelled out: zero scalars and empty strings leave the old value, others replace it, lists and unknown bytes are appended, nested messages merged |
| `CodecResults.UnknownAfterAccepted` | api/license/v1/license.pulsar.go:1109-1125 | after any accepted input further complete records of unknown fields are appended |
| `CodecResults.MessageAfterAccepted` | api/license/v1/genesis.pulsar.go:683-902 | decoding an accepted input followed by an encoded message is merging that message into what was decoded |
| `RoundTrip.EncodingMerges` | api/license/v1/genesis.pulsar.go:683-902 | decoding the encoding of a message into any message merges it, field by field and at every level |
| `RoundTrip.MessageRoundTrip` | api/license/v1/license.pulsar.go:836-1132 | for every schema, every well-formed message with an encoding below 2^63 bytes is decoded back exactly, unknown records included |
| `RoundTrip.ReadsUnknown` | api/license/v1/license.pulsar.go:1109-1125 | complete records of other fields are retained byte for byte, in order |
| `RoundTrip.PackedRoundTrip` | api/license/v1/tx.pulsar.go:3341-3361 | the packed loop reads a list back from its packed bytes, whatever follows |
| `Normalisation.DecodeWellFormed` | api/license/v1/license.pulsar.go:904-1132 | every accepted input gives a well-formed message: retained bytes are complete unknown records at every level |
| `Normalisation.DecodeEncodeDecode` | api/license/v1/license.pulsar.go:836-1132 | re-encoding what was decoded from any accepted input shorter than 2^62 bytes, and decoding again, gives the same message; the re-encoding is at most twice as long |
| `Growth.DecodeGrowth` | api/license/v1/license.pulsar.go:792-1132 | for every schema, decoding any accepted input adds at most twice its length to the size of the encoding: the encoder writes the shortest varints, tags and lengths |
| `CodecResults.NegativeStatusGrows` | api/license/v1/license.pulsar.go:856-860 | a concrete accepted message of six bytes is re-encoded in eleven |
| `CodecResults.NormaliseGenesis` | api/license/v1/genesis.pulsar.go:586-902 | the routines themselves: any bytes that unmarshal as a genesis state, marshalled and unmarshalled again, give the same state |
| `PackedLists.AnySplitDecodesAlike` | api/license/v1/tx.pulsar.go:3286-3361 | ids sent singly, packed, or in any mix, with varints of any length, decode to the same list |
| `PackedLists.EncodedChunks` | api/license/v1/tx.pulsar.go:3141-3160 | what the encoder writes for a list, and each of its values alone, are such records with those values |
| `PackedLists.PackedLoopConsumption` | api/license/v1/tx.pulsar.go:3330-3361 | the packed loop stops at its payload's end if and only if the payload does not end inside a varint; then the preallocation count is exact, otherwise one value more is read |
| `PackedLists.TerminatorsCount` | api/license/v1/tx.pulsar.go:3330-3337 | the preallocation count is the number of bytes below 128 |
| `PackedLists.PackedLoopOverruns` | api/license/v1/tx.pulsar.go:2618-2689 | a concrete accepted message whose packed record takes a byte from beyond its payload |
| `CodecResults.EncodeInjective` | api/license/v1/genesis.pulsar.go:586-682 | different well-formed messages have different encodings |
| `WireForms.LicenseWireForm` | api/license/v1/license.pulsar.go:847-893 | the encoding of a license spelled out over its Go fields with the tag bytes of the source |
| `WireForms.LicenseTypeWireForm` | api/license/v1/license_type.pulsar.go:430-483 | the same for a license type |
| `WireForms.ParamsWireForm` | api/license/v1/license.pulsar.go:304-319 | the same for the parameters |
| `WireForms.GrantWireForm` | api/access/v1/access.pulsar.go:354-383 | the same for a grant |
| `WireForms.ActionScopesWireForm` | api/access/v1/access.pulsar.go:935-959 | the same for an action with its scopes, empty ones included, in order |
| `WireForms.MsgRevokeLicensesWireForm` | api/license/v1/tx.pulsar.go:3130-3173 | the same for a revocation: the revoker, the license type, then the packed ids in order |
| `WireForms.GenesisStateWireForm` | api/license/v1/genesis.pulsar.go:597-672 | the same for a genesis state: the lists in order, nil elements as empty records, the id, and the parameters if present |
| `CodecResults.ResendRevocation` | api/license/v1/tx.pulsar.go:3119-3385 | marshalling any revocation and unmarshalling it into an empty message gives back its strings, ids and unknown bytes |
| `CodecResults.ReloadGenesis` | api/license/v1/genesis.pulsar.go:586-902 | a genesis state is recovered with the order of all three lists and the presence of its parameters |
| `CodecResults.AbsentParamsDistinct` | api/license/v1/genesis.pulsar.go:618-631 | absent parameters and present but empty ones have different encodings |
| `CodecResults.StatusSurvives` | api/license/v1/license.pulsar.go:856-860 | every int32 status survives sign extension, a varint of at most ten bytes, and int32 shifts; a negative one takes ten |
| `AccessTypes.ValidateSpec` | x/access/types/spec.go:45-82 | accepts exactly the specifications with valid distinct actions whose unscoped list is empty, or a duplicate-free proper subset with a scope validator; each rejection names a real defect |
| `AccessTypes.SpecOkMeans` | x/access/types/spec.go:45-82 | which specifications these are, by characters and sizes of sets alone |
| `AccessTypes.ActionAlphabet` | x/access/types/keys.go:15-29 | the characters of an action are the lower-case letters, the digits, dot, underscore and dash |
| `AccessTypes.ValidateGrantEntries` | x/access/types/msgs.go:10-26 | accepts 1 to 100 entries of at most 100 scopes with valid actions; otherwise gives the first defect |
| `AccessTypes.ValidateRevokePairs` | x/access/types/msgs.go:30-43 | accepts 1 to 100 pairs with valid actions; otherwise gives the first defect |
| `AccessTypes.ValidateUnscoped` | x/access/types/spec.go:68-80 | comparing map sizes decides whether every action was declared unscoped |
| `AccessEvents.GrantEvent` | x/access/types/events.go:28-43 | builds the event: its kind, module and grantee, the actions joined by commas, the scopes joined within and between entries |
| `AccessEvents.RevokeEvent` | x/access/types/events.go:47-62 | builds the event: its kind, module and grantee, one joined list per attribute |
| `AccessEvents.SplitJoin` | x/access/types/events.go:33-41 | splitting undoes joining for at least one string without the separator |
| `AccessEvents.JoinSplit` | x/access/types/events.go:33-41 | joining undoes splitting, for every string |
| `AccessEvents.JoinParts` | x/access/types/events.go:33-41 | joining puts one separator between neighbours and nothing else |
| `AccessEvents.FlattenMeans` | x/access/keeper/grants.go:114-123 | a pair is granted by a list of entries if and only if some entry names its action and lists its scope, or lists none and the scope is empty |
| `AccessEvents.ZipListsMeans` | x/access/types/events.go:24-43 | an indexer reads a pair if and only if its scope is a part of the scope list at the position of its action |
| `AccessEvents.GrantEventReadsBack` | x/access/types/events.go:28-43 | for entries that pass the message checks, with clean scopes, the event is read back as the flattened entries, an empty list as the empty scope |
| `AccessEvents.GrantEventFaithfulIffClean` | x/access/types/events.go:24-43 | the pairs read back are those granted if and only if no scope contains a comma or semicolon |
| `AccessEvents.RevokeEventFaithfulIffClean` | x/access/types/events.go:45-62 | the pairs read back are those revoked if and only if no scope contains a comma |
| `GrantStore.ValidatePair` | x/access/keeper/grants.go:194-224 | accepts exactly the pairs of a known action with the empty scope if it is unscoped, an existing scope if the module scopes, and any scope otherwise; unknown actions and failed lookups get their own errors |
| `GrantStore.Grants.GrantTo` | x/access/keeper/grants.go:101-134 | all or nothing: exactly the triples of the grantee that some entry grants are added, and one event, or nothing changes and the first offending entry and pair are named; at most 100 entries of 100 scopes |
| `GrantStore.Grants.RevokeFrom` | x/access/keeper/grants.go:145-158 | removes exactly the named pairs of one grantee, at most 100, without asking the specification |
| `GrantStore.Grants.Init` | x/access/keeper/grants.go:165-175 | a failing import at index i has written exactly the first i grants |
| `GrantStore.Grants.Export` | x/access/keeper/grants.go:178-188 | every grant once, in key order |
| `GrantStore.KeyLessMeans` | x/access/keeper/grants.go:177-188 | in key order the grantee decides first, then the action, then the scope |
| `Ordering.LessEqMeans` | x/access/keeper/grants.go:177-188 | strings are ordered by their first difference, a prefix first |
| `GrantRuns.StoredKeysValid` | x/access/keeper/grants.go:101-224 | after any run on an empty store, with scopes only growing, every triple satisfies the scope rules of its action |
| `GrantRuns.HeldIffWrittenLast` | x/access/keeper/grants.go:68-175 | from any store, a triple is held exactly when it was there or some operation wrote it, and no later successful one removed it |
| `GrantRuns.HasGrantIffHeld` | x/access/keeper/grants.go:68-72 | `HasGrant` answers that after any run |
| `GrantRuns.GrantBounded` | x/access/keeper/grants.go:101-130 | one grant adds at most 10,000 triples, removes none and leaves other grantees alone |
| `GrantRuns.LogReplays` | x/access/keeper/grants.go:101-158 | over any run of checked messages with clean scopes, folding the split events over the initial set gives the stored set |
| `GrantRuns.Perform` | x/access/keeper/grants.go:101-175 | calls made on the store one after the other end with the grants and events of the run, and clean messages leave events that replay to the grants |
| `GrantRuns.ReplayInOrder` | x/access/types/events.go:28-62 | replaying a log is replaying its parts in order |
| `GrantRuns.GrantReplaysIffClean` | x/access/types/events.go:24-43 | the log of one accepted grant on an empty store replays to the stored set if and only if no scope contains a comma or semicolon |
| `GrantRuns.CommaScopeReplaysWrong` | x/access/types/events.go:33-41 | a store with a valid specification accepts one scope with a comma, and its log replays to another set than is stored |
| `AccessGenesis.JoinedKeyInjective` | x/access/types/genesis.go:25-29 | the slash-joined key is injective on validated grants even when scopes contain slashes |
| `AccessGenesis.CanonicalHasNoSlash` | x/access/types/address.go:30-41 | a canonical address is the codec's own output, so it has no slash |
| `AccessGenesis.OneAddressPerAccount` | x/access/types/address.go:30-41 | two canonical addresses of one account are the same string, and the encoding of an account is canonical |
| `AccessGenesis.ValidateGrants` | x/access/types/genesis.go:12-32 | accepts exactly the lists of valid grants without duplicate triples; otherwise names the first offender and its defect |
| `AccessGenesis.AscendingUnique` | x/access/keeper/grants.go:177-188 | a list in key order is determined by its elements, so the export is deterministic |
| `AccessGenesis.ExportIsImportable` | x/access/keeper/grants.go:160-188 | the export of any reachable store with canonical grantees passes both validations and rebuilds the set |
| `AccessGenesis.ExportImportExport` | x/access/keeper/grants.go:160-188 | export, import into a new store and export again give the same list |
| `Ordering.SortedUnique` | x/license/keeper/invariants.go:49-54 | sorting hides the order in which lines were collected |
| `LicenseAudit.CountIndex` | x/license/keeper/invariants.go:28-34 | the uint64 counters equal the number of index entries under each prefix |
| `LicenseAudit.IndexCountMeans` | x/license/keeper/invariants.go:28-34 | the count of a key is the number of index entries of that holder and type |
| `LicenseAudit.AgreesMeans` | x/license/keeper/invariants.go:36-47 | a counter agrees if and only if the stored number, 0 if absent, is that number |
| `LicenseAudit.CompareCounts` | x/license/keeper/invariants.go:36-47 | the text of each line spelled out, one for each position of the walk whose counter differs, in walk order; leaves exactly the prefixes without a counter |
| `LicenseAudit.WrongLineReadsBack` | x/license/keeper/invariants.go:41 | the two numbers of a line, read back, are the stored count and the number of index entries |
| `LicenseAudit.MissingLineReadsBack` | x/license/keeper/invariants.go:51 | the number of a line for a missing counter, read back, is the number of index entries |
| `LicenseAudit.ListMissing` | x/license/keeper/invariants.go:49-53 | one line per leftover prefix, its text spelled out, in ascending order |
| `LicenseAudit.ReportDetermined` | x/license/keeper/invariants.go:49-54 | the report is the same for every iteration order of the leftover map |
| `LicenseAudit.CheckActiveLicenseCounts` | x/license/keeper/invariants.go:26-59 | nil if and only if every counter agrees; otherwise one problem per key that differs, the wrong ones in walk order and then the missing ones, sorted, under a heading with their number |
| `LicenseAudit.DecimalReadsBack` | x/license/keeper/invariants.go:41 | printed counts can be read back |
| `LicenseAudit.DecimalDigits` | x/license/keeper/invariants.go:41 | the most significant digit comes first |
| `LicenseAudit.ConcatParts` | x/license/keeper/invariants.go:56 | the lines are put one after the other, in order |

## Left out

- LicenseMessages.License.Marshal: asks for an encoding below 2^63 bytes, the longest a Go slice can be; the same holds for the other marshallers and the round trips.
- Normalisation.DecodeEncodeDecode: of inputs of 2^62 bytes and more, those whose re-encoding would be longer than a Go slice can be are left out.
- LicenseAudit.CheckActiveLicenseCounts: the walks are given as enumerations of the stored keys; that a store walks in key order is not modelled, and fewer than 2^64 index entries are assumed.
- GrantStore.Grants.constructor: the panic on an invalid specification is a precondition.
- `MsgIssueLicenses`, `IssueLicenseEntry`, `MsgIssueLicensesResponse` and `ActionScope`: the schema theorems cover them; classes for them would repeat those of `GenesisState`, `License`, `MsgRevokeLicenses` and `Grant`.
- The runtime package's skip, size and varint helpers are not part of the repository; they are modelled after the repository's own copies in x/access/types/access.pb.go.
- Nil receivers, the slice capacity preallocated for packed lists (its count is proved exact), fast-reflection accessors and empty response messages.
- The inside of bech32: decoding and encoding are parameters whose output has the configured prefix and character set.
- Key-value store failures and gas, other than a failing scope lookup; the raw `Set` and `Remove` of the grant store; pagination.
- Error texts: errors are values naming the reason and the index, except for the audit report, whose lines are modelled.
- License issuance and revocation handlers, network keeper logic, application wiring, gRPC, CLI and EVM precompiles.
