# Memo and mfile DIDs: a verified model

A Go SDK creates decentralized identifiers (`did:memo:...` for people, `did:mfile:...` for files),
rebuilds their documents from contract event logs, prepares the messages that users sign, and
encodes the points, proofs and hashes of a file-proof contract. This project models that logic in
Dafny and proves what it promises, over all inputs and over all runs of the contracts.

## What is modelled

- **Identifiers** (`Text`, `DidSyntax`, `MemoDid`, `MfileDid`, `Document`). The generic parser is
  a library call in the original; `DidSyntax` writes out the grammar of W3C DID Core 1.0, sections
  3.1 and 3.2, and `MemoDid` applies the SDK's own checks on top. A Go string is a Dafny string
  with one character per byte. Whether a string is a CID is the function argument `isCid`, about
  which nothing is assumed.
- **Signed messages** (`Messages`, `MessageReader`, `MessageBuilders`, `Framing`). `Operation` holds
  the values a message encodes; the builders fill their byte buffers in place and are proved to
  produce `Message(operation)`. The reader finds every field of a message by its place behind the
  tag, and reads back what was encoded; unique decodability follows from it. All 13 memo and 8 mfile messages are one family: sixteen constructors, two
  of which carry the relation (three add messages, four remove messages).
- **The memo resolver** (`Account`, `Replays`, `MemoResolver`, `ResolverProperties`,
  `ResolverSteps`, `MethodSteps`, `ResolverDocuments`, `ResolverAnswers`). The query loops over event iterators are methods proved
  against a replay of the log. `Live` defines the live relation without any log, and the lemmas
  compare the two over every run of the contract.
- **Read permissions** (`MfileResolver`). Two logs merged and filtered by one permission table.
- **Byte codecs** (`Bytes`, `PointCodec`, `PaddedPairs`, `HashPreimages`, `Pad127`,
  `PadElements`). Points as contract words (the 64-byte field encoding of EIP-2537), hash preimages
  with the hash function as the argument `keccak`, the repacking of 127 bytes into four 254-bit
  blocks, and what the field elements read from the blocks tell of the input.

### Assumptions about the contracts

The Solidity sources are not part of this model. `Account` and `MfileResolver` state what is
assumed instead:

- Adding a relation sets its flag (for a delegation, its expiry) and logs one event. Removing
  clears the flag and logs nothing the resolver reads. Logs only grow.
- A DID's method array only grows. Updating changes a method's type and key. A deactivated method
  stays deactivated.
- Reading a method outside the array, also at index -1, is an error. All other reads succeed.
- Any string may be announced, by anyone, any number of times. A contract that refuses more
  transactions reaches fewer states, so what holds here over all runs holds there.
- Buying and granting set a positive read level and log the reader; revoking clears the level.
- Time is positive and does not go back.

### Where the code differs from what one would expect

Each of these is proved, with a concrete input or family of inputs; where a law holds only
sometimes, so is the exact condition under which it does.

- The DID grammar allows an empty query and an empty fragment, and the code tells DIDs from DID
  URLs by non-empty fields. So `did:memo:<id>#` is accepted as a DID and `did:memo:<id>?#masterKey`
  as a DID URL. An accepted DID prints back if and only if it has neither `?` nor `#`; an accepted
  URL, if and only if it has no `?`.
- `key-00` is accepted and denotes index 0, the master key. Printing the index of a URL gives the
  URL back if and only if its fragment is `masterKey` or `key-N` with 0 < N < 2^63 and no leading
  zero.
- The master URL occurs once in the authentication list unless it is live and the log holds its
  one other text, `did:memo:<id>?#masterKey`; ids the SDK prints never are that text.
- An announced id that does not parse makes its query fail in every later state.
- The expiry of a delegation is truncated to a signed 64-bit number, so an expiry from 2^63 to
  2^64 reads as one that has passed. The list agrees with the expiry of a usable URL if and only if
  the expiry is below 2^63 or its low 64 bits, read as signed, have not passed either.
- `Dereference` drops the error of a failed method read: a URL whose method does not exist gives
  one empty key.
- `Dereference` does not look at whether the DID is deactivated. Deactivating a DID empties its
  document, and every URL goes on dereferencing as before.
- `FromSolityData` qualifies the controller through its pointer, and `ToSolidityData` stores the
  qualified form. A record that was converted there and back, or that is converted twice, is
  rejected.
- `QueryAllRead` looks bought readers up under the parsed identifier and granted readers up under
  the text of the event. A grant to `<id>#` lists a DID that has no permission. The list is the
  permitted set if and only if every such grant names a DID that is permitted anyway.
- A message keeps neither the sign of a price nor the boundaries between keywords.
- A register message does not keep where DID and encoding end. Two DIDs with two encodings have
  register messages in common if and only if one DID and encoding join to a prefix of the other's;
  then every longer operation shares its message with exactly one shorter one, as encoded.
  Change-keywords messages of two DIDs coincide for some keywords if and only if one DID is a
  prefix of the other.
- The hash preimages determine their arguments only up to the signs of big integers, and nothing
  marks where the first of two adjacent big integers ends. Their bytes determine both, among all
  pairs, if and only if the first takes at most 31 bytes, or the second takes at most 32 and all
  bytes of the first beyond its leading 32 are zero. Two given pairs that differ also have
  different bytes whenever both first integers fit 32 bytes.
- The four buffers of `Pad127` lose nothing, but the field elements read from them do: reading
  reduces modulo the scalar field. The elements determine the input, among all inputs, if and only
  if each block's big-endian value v is the only possible one: v is below the modulus or its low
  byte is 0, and v plus the modulus is at least 2^256 or its low byte is 63.

## Model

| member | source | states |
|---|---|---|
| MemoDid.IsSupport | types/memo_did.go:206-213 | The scan returns true exactly for the five named fragments |
| MemoDid.IsNot32ByteHex | types/memo_did.go:215-227 | The scan rejects exactly what is not 64 hexadecimal digits |
| MemoDid.IsNotPositiveNumber | types/memo_did.go:229-241 | The scan rejects exactly the empty string, "0" and what is not all digits |
| MemoDid.DidAcceptance | types/memo_did.go:36-59 | Exactly which strings are accepted as DIDs, and the value each gives: "did:memo:", 64 hex digits, at most empty delimiters |
| MemoDid.UrlAcceptance | types/memo_did.go:129-159 | Exactly which strings are accepted as DID URLs, and the value each gives |
| MemoDid.DidParsePrint | types/memo_did.go:36-63 | A DID reparses to itself from its text if and only if it is well formed |
| MemoDid.DidPrintParse | types/memo_did.go:36-63 | An accepted DID string prints back if and only if it has no "?" and no "#" |
| MemoDid.UrlParsePrint | types/memo_did.go:129-163 | A URL reparses to itself from its text if and only if it is well formed |
| MemoDid.UrlPrintParse | types/memo_did.go:129-163 | An accepted URL string prints back if and only if it has no "?" |
| MemoDid.UrlTextInjective | types/memo_did.go:161-163 | Two well-formed URLs print alike only if they are equal, on which the resolver's comparison of texts rests |
| MemoDid.EmptyFragmentAccepted | types/memo_did.go:41-43 | A DID with an empty fragment is accepted and loses it |
| MemoDid.EmptyQueryAccepted | types/memo_did.go:147-149 | A URL with an empty query is accepted and prints without it |
| MemoDid.HashIdentifierAccepted | memo/controller.go:93-99 | The identifier made by hex-encoding any 32-byte hash is accepted and reparses to itself |
| MemoDid.IndexDefined | types/memo_did.go:186-196 | The slice of a parsed URL's fragment is never out of range |
| MemoDid.ParsedIndex | types/memo_did.go:186-196 | The index of every parsed URL: 0, the decimal value if below 2^63, and -1 otherwise |
| MemoDid.IndexOfDIDUrl | types/memo_did.go:89-110 | The URL printed for index n is well formed, belongs to the DID and denotes n for all n below 2^63 |
| MemoDid.UrlOfIndex | types/memo_did.go:89-110 | Printing a URL's index gives the URL back if and only if its fragment is canonical |
| MemoDid.LeadingZerosAlias | types/memo_did.go:229-241 | key-00 is accepted and is another name of index 0 |
| MfileDid.MfileAcceptance | types/mfile_did.go:27-56 | Exactly which strings are accepted, over all strings and CID predicates, and that each prints back unchanged |
| MfileDid.MfilePrintParse | types/mfile_did.go:27-56 | An mfile DID reparses to itself if and only if its identifier is a colon-free CID of method mfile |
| Text.HexutilRoundTrip | types/memo_document.go:51-66 | Decoding undoes encoding of key bytes; encoding what was decoded only lower-cases it |
| Text.HexAt | types/memo_document.go:51 | Each byte is two lower-case hexadecimal digits, the high one first |
| Document.FromSolityData | types/memo_document.go:34-60 | The conversion of the record passed (characterised by ShownController, ControllerAccepted and ConversionRoundTrip), and the controller it leaves in the record, also when it fails |
| Document.ControllerAccepted | types/memo_document.go:35-44 | Which records convert: no controller, or 64 hex digits with at most empty delimiters |
| Document.ShownController | types/memo_document.go:35-54 | The controller an entry is shown with: the record's first 64 characters, or 64 zeros for a record without one |
| Document.NeverQualifiedTwice | types/memo_document.go:38-41 | A controller that already carries the prefix is never accepted |
| Document.ConversionRoundTrip | types/memo_document.go:34-72 | Key type and bytes survive both conversions; the controller does not, and the result never converts again |
| Document.StoredRecord | types/memo_document.go:62-72 | The record stored for an entry: "did:memo:" and the identifier as controller, the key's type and bytes, not deactivated |
| Document.ConvertTwice | types/memo_document.go:34-44 | The second conversion of one record through its pointer fails |
| MessageReader.MessageReadBack | memo/controller.go:105-480 | Reading the message of any operation by its tag and by fixed places, with the lengths of CID and encoding given, returns all it encodes |
| MessageReader.MessageConstants | memo/controller.go:111-477 | A createDID message ends in eight zero bytes, and both memo deactivations have the byte 1 before the nonce |
| MessageReader.UniquelyDecodable | memo/controller.go:105-480 | Two operations of either controller have the same message if and only if they encode the same fields; two register or two change-keywords messages need variable parts of the same lengths or of which neither is a prefix of the other |
| Messages.TagsPrefixFree | memo/controller.go:105-480 | Operations with equal messages are of the same kind and relation and have the same body |
| Messages.KindReadBack | mfile/controller.go:79-480 | Reading single bytes of any message back gives the kind of its operation |
| Messages.DifferentKindsDiffer | mfile/controller.go:79-480 | Operations of different kinds never share a message, with no proviso on lengths |
| Messages.KeywordMessages | mfile/controller.go:284-312 | Change-keywords messages are equal if and only if the nonces agree and DID and keywords join to the same text |
| Messages.RegisterMessages | mfile/controller.go:79-111 | When two register messages are equal, for every pair: one joined DID and encoding is a prefix of the other; equally long ones must be equal with the same fields as encoded; else the shorter operation is the one read off the longer one's bytes |
| Messages.RegisterCollisions | mfile/controller.go:103-110 | For two DIDs with encodings, some remaining fields give the same register message if and only if one joined text is a prefix of the other |
| Messages.KeywordCollisions | mfile/controller.go:304-309 | For two DIDs, some keywords give the same change-keywords message if and only if one DID is a prefix of the other |
| Messages.RestReadBack | mfile/controller.go:90-110 | Reading what follows DID and encoding in a register message gives all fields the message keeps |
| Messages.ReadRestWrites | mfile/controller.go:90-110 | Any 105 or more bytes are what follows DID and encoding in some valid register message |
| Messages.RegisterCollision | mfile/controller.go:106-110 | For every DID there are two register operations with different encodings and the same message |
| Messages.KeyTypesPrefixFree | memo/controller.go:616-642 | No supported key type is a prefix of another, so a key type and what follows it split in one way |
| Messages.WordsAgree | mfile/controller.go:95-101 | Fixed-width words of numbers that fit are equal only for equal numbers |
| Messages.SignedAgree | memo/controller.go:331-343 | Words of signed 64-bit indices and expiries are equal only for equal values |
| MessageBuilders.WordBuffer | memo/controller.go:331-335 | A zeroed buffer with a 64-bit number in its last eight bytes is the number's fixed-width word |
| MessageBuilders.PriceBuffer | mfile/controller.go:234-256 | The price's absolute value in 32 bytes |
| MessageBuilders.JoinKeywords | mfile/controller.go:103-106 | The keyword loop accumulates the concatenation |
| MessageBuilders.GetRegisterMessage | memo/controller.go:105-117 | The create-DID message, whose fields and their places MessageReader.MessageReadBack states, or the error for an unsupported key type |
| MessageBuilders.GetAddVerificationMethodMessage | memo/controller.go:142-170 | The add-method message, or the error |
| MessageBuilders.GetUpdateVerificationMethodMessage | memo/controller.go:203-233 | The update-method message with the URL's index, or the error |
| MessageBuilders.GetDeactivateVerificationMethodMessage | memo/controller.go:257-284 | The deactivate-method message with the URL's index |
| MessageBuilders.GetAddRelationShipMessage | memo/controller.go:309-346 | Relation types 0 to 3 give the authentication, assertion, delegation and recovery messages, the expiry only in the delegation's; any other gives the error |
| MessageBuilders.GetDeactivateRelationShipMessage | memo/controller.go:383-418 | Relation types 0 to 3 give the four remove messages; any other gives the error |
| MessageBuilders.GetDeactivateDIDMessage | memo/controller.go:455-480 | The deactivate-DID message |
| MessageBuilders.GetRegisterDIDMessage | mfile/controller.go:79-111 | The register message: nonce before the keywords |
| MessageBuilders.GetChangeControllerMessage | mfile/controller.go:136-159 | The change-controller message |
| MessageBuilders.GetChangeFileTypeMessage | mfile/controller.go:184-209 | The change-type message, the type in eight bytes |
| MessageBuilders.GetChangePriceMessage | mfile/controller.go:234-259 | The change-price message |
| MessageBuilders.GetChangeKeywordsMessage | mfile/controller.go:284-312 | The change-keywords message |
| MessageBuilders.GetFileAddRelationShipMessage | mfile/controller.go:337-366 | The grant message, or the error for any other relation type |
| MessageBuilders.GetFileDeactivateRelationShipMessage | mfile/controller.go:397-426 | The revoke message, or the error |
| MessageBuilders.GetFileDeactivateDIDMessage | mfile/controller.go:457-480 | The deactivate-file message |
| Framing.FrameInjective | memo/controller_test.go:149 | The EIP-191 framing is injective over all strings |
| Framing.FrameParts | memo/controller_test.go:149 | A framed text is the prefix, the message's length in decimal without leading zeros, and the message |
| Framing.FramedUniquelyDecodable | README.md:63-64 | One framed text per encoded operation, for the pairs that MessageReader.UniquelyDecodable compares |
| Text.DecimalLengthMonotone | memo/controller_test.go:149 | Longer messages have length numerals that are not shorter |
| Account.RunSound | memo/resolver.go:231 | Over every run, a set flag and a positive expiry have a logged event |
| Account.ActiveAnnounced | memo/resolver.go:219-231 | In every reachable state an active id is among the announced ids of its relation |
| Account.RunExtends | memo/resolver.go:186-191 | Over every run logs, method arrays, deactivations and time only grow |
| Account.ActiveAfter | memo/resolver.go:231-350 | When a relation is active after any step but the passing of time: adding sets it, removing clears it, nothing else affects it |
| MemoResolver.QueryAllVerificationMethod | memo/resolver.go:179-201 | The index loop returns the conversions of the active records in order, or the first error |
| MemoResolver.QueryAllAuthtication | memo/resolver.go:203-249 | The loop returns the replay of the log behind the master entry, in two parallel slices, or the first error |
| MemoResolver.QueryAllAssertion | memo/resolver.go:251-286 | The loop returns the replay of the assertion log, or the first error |
| MemoResolver.QueryAllDelagation | memo/resolver.go:288-323 | The loop returns the replay of the delegation log filtered by expiry and deactivation, or the first error |
| MemoResolver.QueryAllRecovery | memo/resolver.go:325-360 | The loop returns the replay of the recovery log, or the first error |
| MemoResolver.Resolve | memo/resolver.go:80-135 | The document of the five queries, the empty document of a deactivated DID, or the first error |
| MemoResolver.Dereference | memo/resolver.go:137-177 | The keys of the relation that the fragment names or of one method, with the original's dropped error; ResolverAnswers.RelationKeys says which keys |
| ResolverProperties.JudgeKeeps | memo/resolver.go:224-245 | An event contributes an entry if and only if its id parses to a URL that is live now; the entry is that URL with its method's key |
| ResolverProperties.QuerySucceeds | memo/resolver.go:224-238 | A query succeeds if and only if every logged id it does not pass over names an existing method |
| ResolverProperties.ReadableForever | memo/resolver.go:235-238 | An id that can be read stays readable, as the same URL, over every run |
| ResolverProperties.UnparsableForever | memo/resolver.go:224-228 | Once an id that does not parse is announced, its query fails in every later state |
| ResolverProperties.ListsExactlyTheLive | memo/resolver.go:203-360 | In every reachable state each list is, as a set, exactly the live relation, and the master URL for authentication |
| ResolverProperties.Multiplicity | memo/resolver.go:217-246 | How often each URL is listed: once per logged id that names it if it is live, and the master entry once more |
| ResolverProperties.InLogOrder | memo/resolver.go:219-246 | The listed URLs are an order-preserving subsequence of those the log names |
| ResolverProperties.DuplicateFree | memo/resolver.go:217-246 | A list has no duplicates if and only if no live URL was announced twice, the leading master entry included |
| ResolverProperties.MasterTexts | memo/resolver.go:220-225 | Exactly two texts parse to the master URL: its own and the one with an empty query |
| ResolverProperties.MasterOccurrences | memo/resolver.go:217-225 | The master URL is at position 0, and occurs once if and only if it is not live or its text with an empty query is not in the log |
| ResolverProperties.PrintedIdsPassMaster | memo/resolver.go:220-222 | Logged ids without a query never name the master URL under another text |
| ResolverProperties.MasterListedTwice | memo/resolver.go:217-246 | A run after which the authentication list shows the master URL twice |
| ResolverSteps.DeactivationEffect | memo/resolver.go:239-350 | Deactivating method i of DID d turns every list of every DID into the old one without the URLs that denote (d, i), nothing else moved |
| ResolverSteps.DeactivationRemoves | memo/resolver.go:239-350 | The entries left after a deactivation, as a set and as a subsequence |
| ResolverSteps.ClockEffect | memo/resolver.go:305-313 | As time passes a delegation list becomes the subsequence of unexpired entries and the other lists stay |
| ResolverSteps.WithdrawalEffect | memo/resolver.go:231-245 | Removing a relation takes out all entries of that URL, however often announced, and nothing else |
| ResolverSteps.OtherListsKept | memo/resolver.go:203-360 | An add or remove for one relation of one DID leaves every other list as it was |
| ResolverSteps.ListsKeptWhenClosed | memo/resolver.go:203-360 | Deactivating a DID leaves every list of every DID as it was |
| ResolverSteps.FirstAnnouncement | memo/resolver.go:219-246 | The first add of a URL appends its entry at the end if it becomes live, and moves nothing |
| ResolverSteps.DelegationExpiry | memo/resolver.go:313 | Exactly for which expiries the truncated comparison agrees with the expiry; never active from 2^63 to 2^64 |
| ResolverSteps.DelegationListExpiry | memo/resolver.go:305-319 | In every reachable state the delegation list agrees with the expiry of a usable URL if and only if truncation does not change the comparison |
| ResolverSteps.LongDelegationMissing | memo/resolver.go:305-319 | A run with a delegation until 2^63 of a usable key, after which the list is empty |
| MethodSteps.AddMethodEffect | memo/resolver.go:185-198 | An added method becomes the last entry of its document, at the index that was the array's length, with its own controller and key; other documents stay; a controller that does not convert makes the query fail |
| MethodSteps.ListsKeptWhenAdding | memo/resolver.go:203-360 | Adding a method leaves every list that can be queried as it was |
| MethodSteps.UpdateMethodEffect | memo/resolver.go:185-198 | Updating a method keeps all entries in place and changes exactly the key of its own |
| MethodSteps.ListsAfterUpdate | memo/resolver.go:239-245 | Updating a method keeps every list's URLs and changes exactly the keys beside those that denote it |
| ResolverDocuments.MethodListIndices | memo/resolver.go:185-198 | The indices of the method list are strictly increasing and are exactly the active positions below the bound; each entry shows the controller and key of the record at its index |
| ResolverDocuments.LoopBoundIsLength | memo/resolver.go:186 | The truncated bound is the array length if and only if that fits 63 bits |
| ResolverDocuments.DereferenceMethod | memo/resolver.go:164-174 | Printing and dereferencing a master or key URL reads its method |
| ResolverDocuments.MethodsDereference | memo/resolver.go:137-198 | Every method a document shows dereferences, from its printed id, to exactly its own key |
| ResolverDocuments.ListedDereference | memo/resolver.go:137-245 | Every listed URL dereferences to the key beside it, with the 0x prefix added |
| ResolverDocuments.MasterDereference | memo/resolver.go:210-218 | The leading master entry dereferences to its own key unless the master key is deactivated |
| ResolverDocuments.DanglingDereference | memo/resolver.go:164-176 | A URL without a method dereferences to one empty key and no error |
| ResolverDocuments.ResolvedDocument | memo/resolver.go:80-135 | In every reachable state a document is empty, for a deactivated DID, or each of its relations is exactly the live one |
| ResolverDocuments.FreshDidResolves | memo/resolver.go:80-135 | A DID just created with a key resolves to the document with that one method and the master URL for authentication, and nothing else |
| ResolverDocuments.ClosedDereference | memo/resolver.go:97-177 | Deactivating a DID gives it the empty document and changes no result of Dereference |
| ResolverDocuments.ClosedDidDereferences | memo/resolver.go:97-177 | A run after which a DID has no document and its master URL still gives its key |
| ResolverAnswers.RelationKeys | memo/resolver.go:154-163 | In every state in which a DID resolves to a document, dereferencing its #authentication, #assertion, #delegation and #recovery gives one key per URL of that document field, each the key of the method its URL denotes |
| ResolverAnswers.RelationFailure | memo/resolver.go:154-163 | Dereferencing each of the four succeeds if and only if all logged ids of that relation can be read |
| ResolverAnswers.FirstError | memo/resolver.go:224-238 | A query that fails reports the first id that does not parse or whose method does not exist |
| ResolverAnswers.ResolveSucceeds | memo/resolver.go:80-135 | Resolving succeeds if and only if the DID parses and either is deactivated or has only convertible active records and readable ids |
| ResolverAnswers.DocumentOrder | memo/resolver.go:126-134 | Each relation of a document is in log order with the log's multiplicities, and authentication has the master URL in front |
| MfileResolver.QueryAllRead | mfile/resolver.go:128-178 | The two loops return the replay of the bought log followed by that of the granted log, as ReadOrder states it, or the first error |
| MfileResolver.RunFilesSound | mfile/resolver.go:144-172 | Over every run a positive level has a logged event |
| MfileResolver.LevelAfter | mfile/resolver.go:145-168 | The read level after any step: buying and granting set it, revoking clears it, others stay |
| MfileResolver.ReadMultiplicity | mfile/resolver.go:136-175 | How often each DID is listed: per bought event if its identifier is permitted, per granted event if the event's text is |
| MfileResolver.ReadOrder | mfile/resolver.go:136-175 | The list falls in two: first the bought readers, then the granted ones, each in the order of its log and with its log's multiplicities |
| MfileResolver.ReadSucceeds | mfile/resolver.go:136-165 | The query succeeds if and only if every logged reader of the file parses |
| MfileResolver.ReadsExactly | mfile/resolver.go:128-178 | Over every run, the listed DIDs are the permitted ones and those a stray grant names |
| MfileResolver.ReadsExactlyThePermitted | mfile/resolver.go:160-174 | The listed DIDs are exactly the permitted ones if and only if stray grants name only permitted DIDs; so it is when granted texts carry no delimiter |
| MfileResolver.StrayGrantListed | mfile/resolver.go:160-174 | A run after which the list holds exactly one DID, which has no permission |
| PointCodec.ToSolidityG1 | file-proof/types.go:117-128 | The buffers filled by copying hold the specified words |
| PointCodec.ToSolidityG2 | file-proof/types.go:149-166 | The buffers filled by copying hold the specified words |
| PointCodec.ToSolidityProof | file-proof/types.go:193-201 | The point's words and the claimed value |
| PointCodec.ToAppendedBytesG1 | file-proof/types.go:138-147 | The 128-byte buffer holds two padded coordinates |
| PointCodec.ToAppendedBytesG2 | file-proof/types.go:178-191 | The 256-byte buffer holds four padded coordinates |
| PointCodec.FileInfoKey | file-proof/proof.go:590-593 | The lookup key is the commitment's words one after the other |
| PointCodec.CoordinateEncoding | file-proof/types.go:119-144 | Both layouts of a coordinate are its 64-byte big-endian encoding |
| PointCodec.G1Words | file-proof/types.go:119-125 | Words 0 and 1 hold x, words 2 and 3 hold y |
| PointCodec.G2Words | file-proof/types.go:151-163 | The words hold x.A0, x.A1, y.A0 and y.A1 in this order |
| PointCodec.ProofWords | file-proof/types.go:193-201 | The words of a proof are those of its point, and its value is the claimed one |
| PointCodec.ModuliOfCurve | file-proof/types.go:132-206 | The two moduli are those of the curve with parameter -0xd201000000010000 |
| PointCodec.G1RoundTrip | file-proof/types.go:117-136 | Decoding undoes encoding for every G1 point |
| PointCodec.G2RoundTrip | file-proof/types.go:149-176 | Decoding undoes encoding for every G2 point |
| PointCodec.G1Canonical | file-proof/types.go:117-136 | Encoding undoes decoding if and only if both coordinates are below the modulus |
| PointCodec.G2Canonical | file-proof/types.go:149-176 | Encoding undoes decoding if and only if all four coordinates are below the modulus |
| PointCodec.ProofRoundTrip | file-proof/types.go:193-212 | Both directions for opening proofs, with the claimed value below its modulus |
| PointCodec.NormalisationIdempotent | file-proof/types.go:130-212 | Decoding and encoding any words once more changes nothing, and keeps what they decode to |
| PointCodec.LayoutsCoincide | file-proof/types.go:117-191 | A point's words, flattened, are its appended bytes |
| PointCodec.AppendedInjective | file-proof/types.go:138-191 | The appended bytes determine the point |
| HashPreimages.GetCredentialHash | file-proof/types.go:248-254 | The credential hash is the hash of the specified byte string |
| HashPreimages.GetAlterSettingInfoHash | file-proof/types.go:214-246 | The setting hash is the nested hash of the byte strings whose layout SettingLayout and AuthLayout state |
| HashPreimages.CredentialLayout | file-proof/types.go:248-254 | Where each argument is in the credential's byte string |
| HashPreimages.SettingLayout | file-proof/types.go:230-241 | Where the contract, the tag, every field, the pledges and the key's words are in the setting's byte string |
| HashPreimages.PledgeLayout | file-proof/types.go:226-241 | With pledges below 2^256: where each pledge and the key's words are, and that the string has 386 bytes |
| HashPreimages.AuthLayout | file-proof/types.go:243-244 | Where the address, the padded nonce, the tag and the inner hash are in the outer byte string |
| HashPreimages.AlterationLayout | file-proof/types.go:214-246 | What is hashed for an alteration: the outer string with its own address and nonce around the hash of the inner string with its own contract, setting and key |
| PaddedPairs.PairDetermined | file-proof/types.go:226-252 | Two padded big integers, one after the other, are determined by their bytes, among all pairs, if and only if they are separable |
| PaddedPairs.PairInjective | file-proof/types.go:226-252 | Two given pairs with the same bytes are equal if either is separable or the first numbers are padded to equal lengths |
| HashPreimages.CredentialDetermined | file-proof/types.go:248-254 | The credential's byte string determines every argument, up to signs, among all credentials, if and only if the two times are separable |
| HashPreimages.CredentialInjective | file-proof/types.go:248-254 | Two given credentials have the same byte string if and only if they agree up to signs, when either is separable or the start times are padded to equal lengths, as all below 2^256 are |
| HashPreimages.CredentialCollision | file-proof/types.go:251-253 | For start 2^256 + 1 and end 0, another credential with the same byte string |
| HashPreimages.SettingDetermined | file-proof/types.go:226-241 | The setting's byte string determines every argument, up to signs, among all settings, if and only if the two pledges are separable |
| HashPreimages.SettingInjective | file-proof/types.go:226-241 | Two given settings have the same byte string if and only if they agree up to signs, under the same proviso on the pledges |
| HashPreimages.SettingCollision | file-proof/types.go:226-241 | For pledges 2^256 + 1 and 0, another setting with the same byte string |
| HashPreimages.AuthInjective | file-proof/types.go:243-244 | The outer byte string determines its parts, whatever the size of the nonce |
| HashPreimages.AlterationBinding | file-proof/types.go:214-246 | Equal setting hashes mean equal arguments, or a collision of the hash on their own byte strings, when the pledges can be told apart |
| HashPreimages.LookupKeyIsHashed | file-proof/types.go:253 | The lookup key of a commitment is a fixed part of the credential's byte string |
| Bytes.PaddedIsFixedWidth | file-proof/types.go:251-252 | Left-padded minimal bytes are the fixed-width encoding |
| Bytes.PaddedInjective | file-proof/types.go:226-227 | Left padding of minimal bytes is injective, also for numbers that do not fit |
| Bytes.BigEndianAt | file-proof/types.go:220-224 | Byte i of a big-endian word of width w is the i-th most significant digit to base 256 |
| Bytes.PutUint32 | file-proof/types.go:220-223 | Four bytes of the buffer hold the number, all others are kept |
| Bytes.PutUint64 | file-proof/types.go:224 | Eight bytes of the buffer hold the number, all others are kept |
| Bytes.FillBytes | mfile/controller.go:101 | The whole buffer holds the absolute value |
| Pad127.FirstBlock | file-proof/proof_test.go:952-957 | The first buffer and its carry against the bytes read |
| Pad127.SecondBlock | file-proof/proof_test.go:959-967 | The second buffer and its carry against the bytes read and the carry before |
| Pad127.ThirdBlock | file-proof/proof_test.go:969-976 | The third buffer and its carry against the bytes read and the carry before |
| Pad127.FourthBlock | file-proof/proof_test.go:978-984 | The fourth buffer against the bytes read and the carry before |
| Pad127.Pad127 | file-proof/proof_test.go:942-985 | For every input, buffer j holds 254-bit digit j of its first 127 bytes, zero-padded, element j is read from it, and the four elements are a function of the input |
| Pad127.DigitIsQuotient | file-proof/proof_test.go:942-985 | Digit j is the value divided by 2^(254 j), modulo 2^254 |
| Pad127.InputValueOf | file-proof/proof_test.go:943-950 | A short input counts as it is, a long one by its first 127 bytes |
| Pad127.PadUnpad | file-proof/proof_test.go:942-985 | Unpadding inverts padding, and padding inverts unpadding: a bijection |
| Pad127.BuffersDetermineInput | file-proof/proof_test.go:942-985 | Two inputs fill the buffers alike if and only if their first 127 bytes, zero-padded, agree |
| PadElements.ElementsDetermine | file-proof/proof_test.go:942-985 | The four elements determine the input, among all inputs, if and only if each block is the only one with its element |
| PadElements.ReducedElements | file-proof/proof_test.go:957-984 | Two inputs whose blocks all read below the modulus have the same elements if and only if their first 127 bytes, zero-padded, agree |
| PadElements.ElementsCollide | file-proof/proof_test.go:957-984 | The modulus followed by zeros and 127 zeros are different inputs with the same four elements |

## Left out

- RPC dialing, contract bindings, transactors, gas, chain ids, sleeping and receipt polling: input and output without logic of their own.
- The challenge and pledge game of the file-proof contract and its `Filter*` functions: their rules are in Solidity, and the Go code forwards calls and copies fields.
- Keccak, ECDSA, KZG and pairings: the hash is an argument and field elements are numbers below the modulus. Signature verification and public-key recovery are not modelled.
- The library behind `cid.Decode` is the argument `isCid`, and the one behind `did.Parse` is replaced by the grammar of DID Core without matrix parameters.
- JSON marshalling beyond the identifier strings, error texts (errors are datatype constructors), log messages and the commented-out buy and approve functions.
- Contract reads that fail for other reasons than a missing method: every other read succeeds.
- `calculateWatingTime` and the plain field reads of the mfile `Resolve`: they would add only easy members.
- The subject DID of add-method and the expiry of relations other than delegations: the messages do not encode them, so `Operation` does not hold them.
- MessageReader.UniquelyDecodable: leaves out two register or two change-keywords messages of which one variable part is a proper prefix of the other, because there it fails; Messages.RegisterMessages and Messages.KeywordMessages say for all pairs when these messages are equal.
- Framing.FramedUniquelyDecodable: compares the same pairs as MessageReader.UniquelyDecodable.
- Pad127.Pad127: Go's append may write its zeros behind a short input slice whose capacity allows it; the model takes the input as a value. Its four stretches are four methods here, one function there.
- MessageBuilders.PriceBuffer: a price of more than 32 bytes makes the original panic, so the model requires one that fits.
- The parsing and the method read that each query loop repeats are one function, `MemoResolver.ReadUrl`; the flag is read after the method rather than between the two, which shows only in which of two failing reads is reported first.
- Reading points back (`FromSolidityG1`, `FromSolidityG2`, `FromSolidityProof`) is modelled on values, without Go's copies of the words.
