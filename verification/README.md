# Verified model of the velve-auth core

This project models the parts of velve-auth in which a small mistake costs most, and
proves what they are for.

- **The security-state seal.** Every account has a row with a MAC over all its sign-in components. Changes run
  under the account lock, external anchors learn seals after the commit, and anyone may rewrite the database
  between two steps. `Sealing` has the decisions and the row operations as the code takes them, `SealProtocol`
  puts any number of clients, anchors, key rotation and a database writer into one state machine,
  `SealProvenance` proves what holds whatever that writer does, `SealHonestRuns` what holds without him and
  `SealResolutions` how a session resolution then comes to its answer,
  `Flows` two concrete changes down to their rows, the confirmation of an address and the replacement of a
  password by link or by recovery code, and `SingleUse` tokens and attempts whose deleted rows can be written back.
- **The encodings the seal rests on.** `StateEncoding`, `CanonicalJson`, `TokenBinding` and `EnvelopeBinding`
  are the hand-written type/length/value formats; their theorems say which values share an encoding, in both
  directions.
- **Codecs and lexers.** `Base64` over a wrapping 32-bit buffer, `Phc` strings, `IpAddress` texts and networks,
  and the SQL region lexer with its statement splitter and schema rewriter (`SqlRegions`, `SqlRegionEnds`,
  `SqlStatements`, `SchemaRewrite`, `SchemaTokens`, `SchemaRelexing`).
- **Limits and graphs.** `Alarm`, `Semaphore`, `TokenBucket`, `PluginOrder`, `DependencyClosure` and
  `AccountPaging`.

`Bytes`, `Bits`, `Sequences`, `Text`, `LetterCase`, `EncodingOrder`, `Uuids`, `Utf8Text` and `Options` hold what
these share. A class stands for what the source updates in place, a method with a loop for a loop of the source,
and each is proved against a function whose properties the lemmas state.

## How the source is read

- The MAC is ideal: a digest is `Mac(key version, canonical state)` or forged, and a writer can copy a digest but
  not make one. That a digest may stand for the canonical state is `EncodingIsCanonical`. SHA-256 is taken as
  injective and a digest is identified with what it hashes. No claim is made about timing.
- Random draws are parameters. They differ from the value they replace, as the code's loop makes sure;
  `SingleUse` alone assumes that a value left is never drawn again.
- Text in the encodings is its UTF-8 bytes. Object keys are ordered by those bytes and not by UTF-16 units, and
  one number is taken to have one spelling.
- An SQL statement is its effect on a small table, an account lock is mutual exclusion, and a lock holder's read
  and write are one step each, with a foreign write possible between them.
- Clocks are parameters. Times and token levels are exact reals.
- An anchor in `SealProtocol` keeps the highest version recorded for each account, and all anchors are read in
  one atomic step, where the code asks them in parallel.
- Lengths of single values are below 2^32, what the encoders' four bytes carry; `Fits` and its like say so. No
  value PostgreSQL stores comes near, and `StateEncodingTheorems.LengthsPastFourBytesCollide` shows that the
  bound is the encoder's own. The number of elements in a list has no bound.
- A refusal rolls the transaction back; a method that checks before it writes what the code finds out after
  leaves the same rows.

## Where the code does something else than its documentation

- A schema name passes the identifier check with a dollar sign in it (`src/core/db/identifier.ts:1`), and the
  rewriter then produces text that the region lexer cuts elsewhere, code having become the start of a quoted
  body; the name `e` directly before a string moves that string's end.
  `SchemaRelexing.RegionsKeptExactly` gives the exact condition on the name, over all names of that form other than
  the shipped one; the reserved words and the length limit, which only take names away, are not part of it.
- The token binding's encoder promises that no two different rows are encoded alike
  (`src/core/token/binding.ts:222`). They are in exactly one case, two rows alike but for a ceremony whose text
  is the canonical JSON of the other's payload: `TokenBinding.BoundAlikeExactly`, with
  `TokenBinding.KindsOutsideTheirPurposeCollide` as an instance. No caller stores both kinds under one purpose,
  and then no two rows are (`TokenBinding.BindingIsInjective`).
- An IPv4 address is also read at the end of the part before `::` (`1.2.3.4::`), where section 2.2 of RFC 4291
  allows it only at the end of the whole address. `IpAddress.Ipv4BeforeTheGap` shows it for every IPv4 address,
  and `IpAddress.StrictExactly` that the reader differs from a strict one on the texts it accepts with a dot
  before the gap and on no other.
- A bucket that takes longer than a day to refill and holds more than one token can regain more than one when its
  row is swept (`TokenBucket.SweepsGiveOneAtMostExactly`).

## Model

| member | source | states |
|---|---|---|
| Bytes.WriteField | src/core/security-state/encoding.ts:103-109 | a field is its type byte, its number in four big-endian bytes wrapped as setUint32 wraps it, and its body |
| Bytes.Concatenated | src/core/security-state/encoding.ts:111-119 | the copy loop yields the parts one after another, nothing lost and nothing between them |
| Bytes.UniquelyDecodable | src/core/security-state/encoding.ts:103-119 | lists of self-delimiting fields with one concatenation are one list: the prefix-freeness every encoding below rests on |
| EncodingOrder.InEncodingOrder | src/core/security-state/encoding.ts:172-182 | the comparator is negative, zero or positive exactly as the first differing byte, or the length, decides, and zero only for equal elements |
| EncodingOrder.SortedIsUnique | src/core/security-state/encoding.ts:184-187 | equal contents have one sorted order, so a list field does not depend on row order |
| EncodingOrder.EncodedApart | src/core/security-state/encoding.ts:184-187 | where elements are encoded apart, equal sorted encodings mean equal contents with multiplicity |
| Uuids.UuidBody | src/core/security-state/encoding.ts:154-165 | the loop over hex pairs fills sixteen bytes with the identifier's value |
| Uuids.SameUuid | src/core/security-state/encoding.ts:154-165 | two accepted spellings have one body exactly when they differ in letter case at most |
| Uuids.CanonicalTextMeaning | src/core/token/binding.ts:180-194 | two texts have one canonical text exactly when they spell one uuid, or are alike in lower case where they spell none |
| Utf8Text.Utf8Injective | src/core/security-state/encoding.ts:123-126 | no two texts have the same UTF-8 bytes |
| StateEncodingTheorems.EncodingIsCanonical | src/core/security-state/encoding.ts:210-243 | two accepted states are encoded alike if and only if they are equal up to the order of passkeys, identities and recovery codes and the letter case of uuids, however many of those there are |
| StateEncodingTheorems.ListsApart | src/core/security-state/encoding.ts:184-187 | a list ends before the first field of another type, so lists and what follows them are told apart even where a count has wrapped |
| StateEncodingTheorems.EqualUnderOneHeaderIsEqualUnderAll | src/core/security-state/sealing.ts:399-433 | components found equal under the fixed comparison header are encoded alike under every header, and only components equal up to order are: the kept-seal shortcut is sound |
| StateEncodingTheorems.HeaderStands | src/core/security-state/encoding.ts:210-243 | context, account, version, session epoch and components version stand in this order at fixed places of the sealed bytes |
| StateEncodingTheorems.LengthsPastFourBytesCollide | src/core/security-state/encoding.ts:103-109 | at a length of 2^32 the wrapped length makes two different passkeys encode alike, so the bound on lengths is the encoder's own |
| CanonicalJson.PrintApart | src/core/token/binding.ts:138-152 | no printed JSON value is a proper beginning of another, and printing is injective |
| CanonicalJson.CanonicalJsonIsTheMeaning | src/core/token/binding.ts:138-152 | two JSON values have one canonical text if and only if they are equal as values, whatever the order of their members |
| TokenBinding.BoundAlikeExactly | src/core/token/binding.ts:196-231 | whatever content stands under whatever purpose, two rows are bound alike if and only if they agree on purpose, owner and hash and their contents agree up to uuid spelling and JSON member order, or one is a ceremony whose text is the canonical JSON of the other's payload; the order and repetition of factors stay visible |
| TokenBinding.BindingIsInjective | src/core/token/binding.ts:196-231 | where the content kind follows from the purpose, two rows are bound alike if and only if they are one row |
| TokenBinding.KindsOutsideTheirPurposeCollide | src/core/token/binding.ts:196-221 | an instance of the exception: a ceremony spelled {} and an empty payload are bound alike |
| TokenBinding.NoStateIsABinding | src/core/token/binding.ts:222-231 | what a seal covers and what a token binding covers are never the same bytes |
| EnvelopeBinding.BoundDataIsInjective | src/core/keys/envelope-binding.ts:123-135 | additional data over column, owner, row and key version is injective up to uuid letter case and the key version modulo 2^32 |
| EnvelopeBinding.StorableVersionsApart | src/core/keys/envelope-binding.ts:78-82 | two key versions a column can store are never written alike |
| EnvelopeBinding.RowOfPartsIsInjective | src/core/keys/envelope-binding.ts:109-121 | composite row keys are equal if and only if their parts are |
| EnvelopeBinding.CompositeRowsAreBoundApart | src/core/keys/envelope-binding.ts:105-135 | two envelopes of rows named by several columns are bound alike if and only if column, owner, key version modulo 2^32 and every part of the row agree |
| Sealing.CompareWithAnchors | src/core/security-state/anchor.ts:89-111 | the loop over the floors answers what the definition by floors says: below at the first floor above the seal, mismatch at the first floor of its version with another digest, ahead or within otherwise |
| Sealing.CompareMeaning | src/core/security-state/anchor.ts:89-111 | a comparison passes if and only if every floor admits the seal |
| Sealing.ConsultAnchors | src/core/security-state/anchor.ts:64-87 | the reading is answered exactly where every anchor holds nothing or a version from 1 to the highest safe integer, and then every floor is there in order |
| Sealing.HighestFloor | src/core/auth/security-state-maintenance.ts:290-292 | the fold is the highest version that was answered, or zero where none was |
| Sealing.PassedReadIsItsDigest | src/core/security-state/sealing.ts:271-289 | a change that is not refused read exactly the state its stored digest was computed over, at every floor it was given |
| Sealing.ChangeGoesOnExactly | src/core/security-state/sealing.ts:292-368 | over all inputs, exactly when a change goes on: the stored row verifies under a usable key or is absent in mode migrating, every floor admits it, the version is not exhausted and a new row can be sealed; it leaves the very row exactly where it changes nothing under the current key, and a row of the current key otherwise |
| Sealing.RefusalsInOrder | src/core/security-state/sealing.ts:271-318 | a broken state, a broken anchor and an exhausted version are each answered exactly where none before it is |
| Sealing.ChangeMovesExactly | src/core/security-state/sealing.ts:315-346 | epoch, session generation and each token generation of a change's row differ from those read exactly where the change moves them; the attempt generation and the rows last redeemed are what the change says |
| Sealing.ComponentsVersionMeaning | src/core/security-state/sealing.ts:370-406 | the components version stays if and only if the epoch is kept and the components are equal, or only the password's hash moved in a change that carries the flag restoresTheVerifiedPassword; otherwise it is the new version; it lies between 1 and the version |
| Sealing.VersionsOfComputedRows | src/core/auth/security-state-maintenance.ts:400-439 | a change's row is one above the version read; a reseal's is above the stored version and above every floor |
| Sealing.Store.WriteSealRow | src/core/security-state/sealing.ts:201-269 | the row is inserted where there was none, or swapped only while version, digest, key version and epoch are still those read; on a conflict or a lost swap nothing changes |
| Sealing.Store.SealUnderAccountLock | src/core/security-state/sealing.ts:292-368 | one locked transaction: the outcome is the one the read, the reading and the change determine, and the tables are rolled back, left unsealed, kept or sealed accordingly |
| Sealing.Store.SealCreatedAccount | src/core/security-state/sealing.ts:464-502 | a first seal has version 1 and the first generations, covers the stored components, and is refused for a missing or already sealed account |
| Sealing.Store.ResealUnderAccountLock | src/core/auth/security-state-maintenance.ts:400-439 | an administrator's reseal seals what is stored, above the floor, with epoch and generations drawn afresh; it is refused exactly for a missing account, an exhausted version or floor, or an unusable key, and then nothing changes |
| Sealing.ResealMovesEverything | src/core/auth/security-state-maintenance.ts:321-336 | epoch, session generation, attempt generation and every token generation of a reseal differ from those stored, the rows that last moved them are forgotten, and the version is the lowest above the stored one and the floor |
| Sealing.RunSealingTransaction | src/core/security-state/sealing.ts:505-521 | only a first-seal conflict is tried again, three attempts in all, and the first attempt without one decides |
| SealProvenance.StepIsSafe | src/core/security-state/sealing.ts:292-368 | every step of clients, anchors, key rotation and a writer who replaces any table keeps the provenance invariant |
| SealProvenance.RunIsSafe | src/core/security-state/sealing.ts:292-368 | the invariant holds in every world of every run |
| SealProvenance.EveryDigestDescendsFromARoot | src/core/security-state/sealing.ts:292-368 | in mode required, whatever is written between steps, every digest the library computed goes back by library changes alone to a sign-up or an administrator's reseal |
| SealProvenance.EveryAcceptedReadIsSealed | src/core/security-state/runtime.ts:333-417 | a check or session resolution that answers usable, and a change that goes on, read exactly such a state, at or above every floor it was given, and at a floor's own version the very state that floor recorded |
| SealHonestRuns.HonestRunIsGood | src/core/security-state/runtime.ts:257-317 | the invariant of runs without foreign writes: rows verify, records and floors lie behind the stored seals, locks exclude, histories are ordered |
| SealHonestRuns.NoFalseAlarm | src/core/security-state/runtime.ts:257-395 | with any number of clients and late or reordered records, a change or check that consults and then reads never finds the seal below an anchor or in conflict with one |
| SealHonestRuns.BehindOnlyWhenOvertaken | src/core/session/service.ts:235-251 | a session resolution, which reads and then consults, is behind an anchor only if another seal of that account was committed and recorded in between, and never in conflict with one |
| SealHonestRuns.EachCommitIsEmitted | src/core/security-state/runtime.ts:303-305 | every seal a committed change or reseal leaves is on its way to the anchors |
| SealResolutions.BelowExactly | src/core/security-state/runtime.ts:407-410 | in an honest run a resolution's read passes its anchors if and only if no anchor holds a version above it |
| SealResolutions.FirstReadBelowIsReadAgain | src/core/security-state/runtime.ts:408-413 | a first read below a floor is never the answer: the same account is read again and nothing else has happened |
| SealResolutions.OnlyASecondReadIsRefused | src/core/session/service.ts:245-254 | a resolution that ends although its read was below a floor had been sent back by a first consultation below a floor, had read the same account again after it, and another seal was committed and recorded since that second read |
| SealResolutions.ResolutionIsUsable | src/core/security-state/runtime.ts:397-417 | in an honest run an answered resolution that is not below a floor is refused for nothing but the key of its seal, or for having no seal in mode required |
| SealResolutions.ResolutionRecordsAgain | src/core/security-state/runtime.ts:352-363 | a resolution that may use its read sends its seal to the anchors if and only if one of them holds nothing or an older seal |
| SealResolutions.CheckRecordsAgain | src/core/security-state/runtime.ts:333-391 | the same of a check of an account |
| SealHonestRuns.EveryStoredSealVerifies | src/core/security-state/sealing.ts:292-368 | in every world of an honest run each stored seal verifies against the stored components |
| SealHonestRuns.EachCommitMovesTheVersion | src/core/security-state/sealing.ts:292-433 | a committed change leaves a row one version above the stored one or keeps the very row, a committed reseal lands above the version and every floor, and the row left verifies |
| SealHonestRuns.ComponentsVersionOverARun | src/core/security-state/sealing.ts:370-406 | of two seals of one account, equal components versions mean one epoch and one way of signing in, and any other value is above everything carried before |
| Flows.AccountRows.ConfirmUnderTheLock | src/core/flows/confirmation.ts:134-182 | the address and its confirmation are written; an account confirmed before, one without a password and one whose password was set in this session keep password and sessions, and any other loses both; a taken address changes nothing |
| Flows.AccountRows.ConfirmAddress | src/core/flows/confirmation.ts:82-132 | the flow is the sealing transaction of its change and seals exactly what it stores; password, sessions and epoch are kept exactly by an account confirmed before, one without a password and one whose password was set in the confirming session, a session of another account being none; the link's generation moves, and a link of another generation is refused |
| Flows.RefusalMeaning | src/core/security-state/sealing.ts:271-330 | what is refused for the read, a broken state before a broken anchor before an exhausted version, is the reason every change of it is refused with, whatever the change plans and whether or not the account may stay unsealed; where nothing is, a change is refused as declined if and only if it declines, and otherwise only for want of a key |
| Flows.AccountRows.ConsumeCode | src/core/flows/reset.ts:278-370 | the first candidate that names a stored code consumes it, and no other code goes |
| Flows.WithoutTheSpentCode | src/core/flows/reset.ts:97-109 | the filter that drops the first match equals the deletion by hmac, where hmacs are unique |
| Flows.DeletionTakesOneCode | src/core/flows/reset.ts:97-109 | that deletion takes exactly one code and keeps the others in order |
| Flows.DeletionTakesTheNamed | src/core/flows/reset.ts:174-176 | the codes the filter leaves are the multiset the change seals |
| Flows.AccountRows.ClaimUnderTheLock | src/core/flows/reset.ts:255-358 | the claim goes through if and only if the proof holds for the read: a link with the account's address and token generation, or a recovery code that is one of the account's; the code and nothing else is consumed |
| Flows.AccountRows.ReplaceUnderTheLock | src/core/flows/reset.ts:118-187 | what the plan computes from the rows that were read is what is stored and what the change plans, by link and by recovery code, for an enabled account and for a disabled one |
| Flows.AccountRows.ReplacePassword | src/core/flows/reset.ts:118-276 | by link and by recovery code: the outcome is that of the sealing transaction of its change, but that an enabled unsealed account is rolled back; an enabled account is left with the new password and the new session alone, a disabled one keeps both; the seal covers what is stored under a new epoch and a new components version, a first seal goes to an account proven by a link alone, a link moves the generation of its purpose and of no other and does not prove the account again; every refusal rolls back |
| Flows.AccountRows.IssueUnder | src/core/security-state/runtime.ts:247-255 | a session is inserted only while the seal row holds the epoch and components version that authorised it |
| SingleUse.EachTakesEffectAtMostOnce | src/core/flows/artefact.ts:89-118 | over every run in which deleted rows may be written back, draws not repeating: each token takes effect at most once and each pending row is booked at most once in each of its states |
| SingleUse.RedeemingEndsItsPurposeAlone | src/core/security-state/sealing.ts:169-189 | redeeming a token ends every outstanding token of its account and purpose and leaves every other as redeemable as it was |
| SingleUse.ResealEndsEverything | src/core/auth/security-state-maintenance.ts:321-336 | after a reseal no token and no pending row of the account that was good before is good, every other account's are as good as they were, and the generations are those of the row the reseal writes |
| SingleUse.IssuedTakesEffect | src/core/flows/artefact.ts:89-118 | over every run a token takes effect when it is redeemed, unless a step since its issue redeemed one of its purpose and account, resealed the account or wrote rows back |
| SingleUse.BookingLeavesItsGeneration | src/core/security-state/runtime.ts:575-620 | a booking moves the attempt generation away from the one its row bound, names the row, and leaves token and session generations alone |
| Base64.Encode | src/core/keys/base64url.ts:8-28 | the loop over a 32-bit buffer writes the text whose bits are the bytes' bits, filled up with fewer than six zeros |
| Base64.DecodeUnpadded | src/core/password/base64.ts:8-39 | the decoder's loop, wrapping buffer included, accepts exactly the decodable texts and yields their bytes |
| Base64.Decode | src/core/keys/base64url.ts:30-61 | decoding with padding removed first, and no text of a length that leaves one character over |
| Base64.DecodedMeaning | src/core/keys/base64url.ts:30-61 | a text decodes to some bytes if and only if it spells them with zero bits left over |
| Base64.RoundTrip | src/core/keys/base64url.ts:8-75 | every byte string is decoded from its encoding, and every text that decodes to it is that encoding with or without padding |
| Base64.PaddingIsExact | src/core/password/base64.ts:62-74 | a padded text decodes only with exactly the padding its encoding lacks |
| Phc.ReadParameters | src/core/password/phc.ts:103-121 | the loop that fills the map returns the pairs in order, or nothing where a name comes twice |
| Phc.WritePhc | src/core/password/phc.ts:59-79 | the pushes yield the fields id, version, parameters, salt and hash, each only where there is one |
| Phc.TextLayout | src/core/password/phc.ts:59-79 | a full text is a dollar sign, the id, v= and the version, name=value, the salt and the hash, with dollar signs between them |
| Phc.EncodedBytesAreNoList | src/core/password/phc.ts:124-137 | nothing the decoder accepts, padded or not, reads as a version field or as a parameter list |
| Phc.ParsedIsWellFormed | src/core/password/phc.ts:19-57 | every text that parses parses to a well-formed value |
| Phc.RoundTripsExactlyIfWellFormed | src/core/password/phc.ts:19-79 | a value is parsed back from its text if and only if it is well-formed |
| IpAddress.ReadIpv4 | src/core/net/ip-address.ts:8-25 | four canonical decimal octets up to 255, or nothing |
| IpAddress.ReadGroups | src/core/net/ip-address.ts:27-49 | the loop appends two bytes a group and four for an IPv4 address in the last part, and refuses more than sixteen |
| IpAddress.LongestZeroRun | src/core/net/ip-address.ts:105-118 | the one-pass loop finds the run the definition names |
| IpAddress.ElidedRunMeaning | src/core/net/ip-address.ts:105-118 | the elided run is the leftmost longest of length at least two, and there is none exactly where no two zeros stand side by side (sections 4.2.2 and 4.2.3 of RFC 5952) |
| IpAddress.WriteIpv6 | src/core/net/ip-address.ts:121-133 | the text is the hexadecimal groups with that run elided |
| IpAddress.Ipv4RoundTrip | src/core/net/ip-address.ts:8-25 | four bytes are read back from their text |
| IpAddress.Ipv6RoundTrip | src/core/net/ip-address.ts:51-133 | sixteen bytes are read back from their text, for all of them |
| IpAddress.ParseBack | src/core/net/ip-address.ts:82-98 | every parsed address, of either family, is parsed back from its text as the same family |
| IpAddress.MappedIsIpv4 | src/core/net/ip-address.ts:69-94 | an IPv4 address written as the IPv6 address that maps it is that IPv4 address, and has its canonical text |
| IpAddress.StrictExactly | src/core/net/ip-address.ts:27-66 | the reader accepts what a reader by section 2.2 of RFC 4291 accepts, with the same bytes, and besides exactly those of its texts that have a dot before the gap |
| IpAddress.Ipv4BeforeTheGap | src/core/net/ip-address.ts:27-66 | every IPv4 address followed by :: is such a text |
| IpAddress.CanonicalMeaning | src/core/net/ip-address.ts:147-153 | canonicalising is idempotent, keeps the address, and two texts have one canonical text if and only if they name one address |
| IpAddress.SameNetworkBytes | src/core/net/ip-address.ts:135-140 | masked bytes are equal if and only if the first prefixLength bits are |
| IpAddress.IpAddressNetworkMeaning | src/core/net/ip-address.ts:155-167 | two addresses share a network text if and only if they are of one family and agree on the first prefixLength bits |
| IpAddress.Ipv4Network | src/core/net/ip-address.ts:155-167 | an IPv4 network is the address's leading bits, as many as lengths.ipv4 says, with zeros after them and that number behind the slash, whatever lengths.ipv6 is |
| IpAddress.Ipv6Network | src/core/net/ip-address.ts:155-167 | an IPv6 network likewise, by lengths.ipv6 alone |
| SqlRegions.EndOfLineComment | src/core/db/schema-rewrite.ts:35-38 | a line comment ends directly after the first newline, or with the text where there is none |
| SqlRegionEnds.BlockEndMeaning | src/core/db/schema-rewrite.ts:40-60 | a block comment ends at the first mark that closes as many as were opened, the marks taken one after another, or with the text where none does |
| SqlRegionEnds.QuotedEndMeaning | src/core/db/schema-rewrite.ts:62-86 | a quoted text ends directly after the first quote that is neither doubled nor escaped, or with the text where there is none |
| SqlRegionEnds.TagMeaning | src/core/db/schema-rewrite.ts:30-33 | a dollar quote's tag is found exactly where two dollar signs stand with nothing or an identifier between them |
| SqlRegionEnds.ClosingEndMeaning | src/core/db/schema-rewrite.ts:88-91 | a dollar-quoted body ends directly after the first later occurrence of its tag, or with the text |
| SqlRegionEnds.BoundaryMeaning | src/core/db/schema-rewrite.ts:93-109 | a boundary stands exactly where one of these opens, has the one kind that opens there, and ends where that region does |
| SqlRegions.EndOfBlockComment | src/core/db/schema-rewrite.ts:40-60 | the depth-counting loop ends where the nested comment does |
| SqlRegions.EndOfQuoted | src/core/db/schema-rewrite.ts:68-86 | the loop over doubled quotes and escapes ends where the string does |
| SqlRegions.SplitIntoRegions | src/core/db/schema-rewrite.ts:111-134 | the index loop yields the regions the definition by boundaries gives |
| SqlRegions.BoundaryAt | src/core/db/schema-rewrite.ts:93-109 | every boundary advances, stays within the text and begins no code region |
| SqlRegions.RegionsCoverTheText | src/core/db/schema-rewrite.ts:111-134 | region texts concatenate to the input, none is empty, and no two code regions are neighbours |
| SqlStatements.SplitStatements | src/core/db/schema-rewrite.ts:231-254 | the nested loops yield the texts between the semicolons in code, trimmed, without the empty ones |
| SqlStatements.PiecesJoin | src/core/db/schema-rewrite.ts:231-254 | the pieces and the semicolons between them are the text: nothing is lost |
| SqlStatements.WindowBoundary | src/core/db/schema-rewrite.ts:93-109 | in a piece cut out after a semicolon or whitespace a boundary begins exactly where one begins in the text, of the same kind, and ends there or with the piece |
| SqlStatements.StatementsStandAlone | src/core/db/schema-rewrite.ts:231-254 | each statement, split again, is that statement alone, and no code in it holds a semicolon |
| SchemaRewrite.SchemaDeclarationTracker.DeclaresTheSchema | src/core/db/schema-rewrite.ts:152-167 | one word moves the tracker: it declares while a name is awaited and the word is no modifier, and a name is awaited after create, drop or alter schema |
| SchemaRewrite.AwaitingMeaning | src/core/db/schema-rewrite.ts:152-167 | after any words the tracker awaits a name if and only if create, drop or alter schema stands among them with nothing but modifiers since |
| SchemaRewrite.RewriteCode | src/core/db/schema-rewrite.ts:169-191 | the loop replaces the shipped name where a dot follows or the tracker declares it, and leaves every other character |
| SchemaRewrite.ApplySchemaName | src/core/db/schema-rewrite.ts:193-203 | the text is its regions with the code rewritten under one tracker and every other region as it was |
| SchemaRewrite.RewrittenRegions | src/core/db/schema-rewrite.ts:193-203 | rewriting keeps the number and kinds of the regions and every region that is not code |
| SchemaRewrite.NamesTheShippedSchema | src/core/db/schema-rewrite.ts:205-211 | the search that stops at the first changed region answers whether one changes |
| SchemaRewrite.NamesMeaning | src/core/db/schema-rewrite.ts:193-211 | the probe finds no name if and only if rewriting leaves the text as it is for every schema |
| SchemaRewrite.AssertNoSchemaNameInsideDollarQuoting | src/core/db/schema-rewrite.ts:213-229 | a migration is accepted exactly for the shipped schema or where no dollar-quoted body names it |
| SchemaRewrite.AcceptedBodiesNeedNoRewriting | src/core/db/schema-rewrite.ts:213-229 | in an accepted migration every dollar-quoted body is what rewriting it would have made of it, for every schema |
| SchemaTokens.SchemaAppliedMeaning | src/core/db/schema-rewrite.ts:169-203 | told by the words of the migration: rewriting replaces exactly the words that spell the shipped name and have a full stop next, or follow create, drop or alter schema with nothing but modifiers between, and leaves every other character |
| SchemaRelexing.RegionsKeptExactly | src/core/db/schema-rewrite.ts:93-203 | over all migrations, the rewritten text has the original's regions with the code rewritten if and only if the schema name holds no dollar sign and is not "e" |
| SchemaRelexing.PlainNameKeepsRegions | src/core/db/schema-rewrite.ts:93-203 | for such a name, every migration rewritten is cut into the same regions again |
| SchemaRelexing.DollarNameMovesRegions | src/core/db/identifier.ts:1-1 | a name with a dollar sign, which an identifier may hold, opens a dollar quote in a migration that had none |
| SchemaRelexing.NameEMovesRegions | src/core/db/schema-rewrite.ts:62-66 | the name e directly before a string makes it an escape string, which ends elsewhere |
| Alarm.KeysApart | src/core/security-state/alarm.ts:58-61 | two alarms have one key if and only if they are one account, occasion and reason, whatever the account's text holds |
| Alarm.SecurityStateAlarms.Raise | src/core/security-state/alarm.ts:114-160 | one raise moves the key map, the recent deliveries, the count and the aggregate window as the state function says and hands over what it says |
| Alarm.NothingIsLost | src/core/security-state/alarm.ts:114-160 | raises are the single deliveries, the counts delivered with them or in aggregates, and the count still pending, over every run |
| Alarm.FloodIsBounded | src/core/security-state/alarm.ts:130-157 | under a clock that never goes back, any 60 s window holds at most 100 single deliveries and one aggregate, and no key twice, although keys are evicted |
| Alarm.OldestIsOld | src/core/security-state/alarm.ts:149-156 | the key evicted for want of room was delivered a window ago at least |
| Alarm.HeldBackOnlyWhenDue | src/core/security-state/alarm.ts:134-148 | an alarm is held back only within a window of its own delivery or of a hundred deliveries |
| Alarm.NextExactly | src/core/security-state/alarm.ts:130-157 | over every run under a clock that never goes back: the next alarm is delivered by itself exactly where it was not delivered within a window and no hundred others were; a repeated one is reported at once in an aggregate exactly where the last aggregate is a window ago; everything else is counted |
| Semaphore.KdfSemaphore.Acquire | src/core/password/semaphore.ts:76-93 | a free place is taken at once; otherwise the caller queues with its timer set |
| Semaphore.KdfSemaphore.Leave | src/core/password/semaphore.ts:42-57 | the hand-over loop refuses the waiters past their limit and lets in the first that is not, clock read for each |
| Semaphore.KdfSemaphore.RunTimer | src/core/password/semaphore.ts:59-74 | an early timer is set again; a due one takes its waiter out of the queue wherever it stands and refuses it |
| Semaphore.RunKeeps | src/core/password/semaphore.ts:26-114 | over every interleaving: places, queue, timers, order and wait limits are kept |
| Semaphore.CallersAreServedInOrder | src/core/password/semaphore.ts:26-114 | in flight is at most the limit and equals it while anyone waits, no place is lost, each caller is granted or refused once and never both, grants go in arrival order, none past its wait limit, and no refusal before it |
| TokenBucket.TokenBucketStore.Draw | src/core/limit/token-bucket-store.ts:43-51 | the upsert leaves the held level less one, the moment and the expiry under its key and no other row changed; a key without a row is left with its capacity less one |
| TokenBucket.TokenBucketStore.Consume | src/core/limit/rate-limiter.ts:48-54 | a draw is allowed if and only if the capacity is one at least and, where there is a row, its tokens and what the time since refilled make one |
| TokenBucket.TokenBucketStore.SweepExpiredRows | src/core/auth/maintenance.ts:23-41 | exactly the rows whose expiry has come are gone |
| TokenBucket.SweepingTakesNothing | src/core/auth/maintenance.ts:23-41 | no run of draws after a sweep is allowed less than it would have been with the row |
| TokenBucket.LifetimeIsBounded | src/core/limit/rate-limiter.ts:32-38 | a row is kept for a minute at least and a day at most, and within them no longer than a second past the time that refills the bucket |
| TokenBucket.LevelsAreKept | src/core/limit/token-bucket-store.ts:43-51 | every level left lies between -1 and the capacity less one, whatever the row and the clock |
| TokenBucket.AllowedIsBounded | src/core/limit/token-bucket-store.ts:43-51 | over any run of draws under a clock that never goes back, allowed draws are at most the capacity and what the time passed refills |
| TokenBucket.AllowedAtLeast | src/core/limit/token-bucket-store.ts:43-51 | over any run of draws, under any clock, as many are allowed as there were whole tokens at its start, or all of them |
| TokenBucket.FullBucketAllowsItsCapacity | src/core/limit/token-bucket-store.ts:43-51 | of draws at one moment from a key without a row exactly the whole part of the capacity is allowed, or every one where they are fewer |
| TokenBucket.NextAllowedExactly | src/core/limit/token-bucket-store.ts:43-51 | the next draw from a row is allowed exactly where its tokens and what was refilled make one and the capacity is one at least |
| TokenBucket.NoHintExactlyWithoutHope | src/core/limit/rate-limiter.ts:41-54 | in a bucket that holds one token there is no hint exactly where no wait is long enough |
| TokenBucket.HintIsLeast | src/core/limit/rate-limiter.ts:41-54 | after a refusal, waiting a whole number of seconds is enough if and only if the capacity is one at least and the number is at least the hint |
| TokenBucket.SweepGivesBackLittle | src/core/limit/rate-limiter.ts:32-38 | where the bucket refills within a day, sweeping an expired row gives back at most one token, and none if the last draw was allowed |
| TokenBucket.SweepsGiveOneAtMostExactly | src/core/limit/rate-limiter.ts:32-38 | a sweep gives back one token at most for every row exactly where the bucket refills within a day or holds no more than one token |
| PluginOrder.AssertNoIdIsTakenTwice | src/core/plugin/registry.ts:136-144 | the scan answers whether all ids differ |
| PluginOrder.AssertNoTablePrefixContainsAnother | src/core/plugin/registry.ts:146-155 | the nested scan answers whether some plugin's tables would carry another's prefix |
| PluginOrder.AssertEveryDependencyIsRegistered | src/core/plugin/registry.ts:158-167 | the scan answers whether every dependency is configured |
| PluginOrder.DependencyOrder.Visit | src/core/plugin/registry.ts:176-193 | the depth-first visit ends, settles its plugin after all it needs and leaves the path as it was, or has found a cycle; a plugin whose dependencies are settled comes next, and a settled one moves nothing |
| PluginOrder.InDependencyOrder | src/core/plugin/registry.ts:170-199 | every plugin once and after all it needs, or the cycle error if and only if the graph has a cycle; a configured order that is right is kept |
| PluginOrder.OrderedHasNoCycle | src/core/plugin/registry.ts:170-199 | an order with dependencies first exists only without a cycle |
| PluginOrder.Start | src/core/plugin/registry.ts:609-628 | a start error is thrown if and only if its own check fails and every check before it passes, in the order fields, ids, table prefixes, dependencies, contributions, cycle; otherwise every plugin comes once and after all it needs |
| DependencyClosure.ObjectsBelongingToTheOwnTables | src/core/db/migration-runner.ts:623-643 | the passes end, with the least set that holds the owned relations and is closed under the four dependency kinds |
| DependencyClosure.BelongingMeansChained | src/core/db/migration-runner.ts:623-643 | an object belongs if and only if a chain of such dependencies leads to it from an owned relation |
| DependencyClosure.OrderDoesNotMatter | src/core/db/migration-runner.ts:623-643 | the answer does not depend on the order of the rows |
| AccountPaging.SealEveryAccount | src/core/auth/security-state-maintenance.ts:250-271 | while accounts come and go between the pages, nobody is visited twice and everyone present throughout is visited, but for an account under the zero id, and the report counts the visits; an account whose failure throws ends the pass at that account, and only such a one does |
| AccountPaging.CountsAddUp | src/core/auth/security-state-maintenance.ts:257-265 | the four counts and the accounts gone or failed are the visits, and the refused ids are as many as the refusals |
| AccountPaging.EachCountIsItsOwn | src/core/auth/security-state-maintenance.ts:257-265 | each count is the number of accounts that came out that way, and the refused ids are those accounts in the order they were visited |

## Left out

- SealProvenance.EveryDigestDescendsFromARoot: stated for mode required; in mode migrating an unsealed account may receive a first seal over whatever its tables hold, which is another root.
- SingleUse.EachTakesEffectAtMostOnce: stated for sealed accounts whose seal row is not set back and under draws that never repeat; without a seal row the code has no generation to compare.
- Flows.AccountRows.ReplacePassword: the token's own row, which the redemption removes first, is in SingleUse and not here; hooks that may refuse the new session are left out.
- PluginOrder.Start: what one plugin's fields and contributions have wrong with them is a parameter.
- SchemaRelexing.RegionsKeptExactly: what PostgreSQL makes of the text is not part of it, only what the library's own lexer does.
- TokenBucket.AllowedIsBounded: arithmetic is exact; rounding of doubles is not modelled.
- IpAddress.IpAddressNetworkMeaning: prefix lengths are not negative, as every configured one.
- Semaphore.KdfSemaphore.RunTimer: the delay a timer is set for is not modelled; a set timer may come due at any moment.
- Account deletion, and the sealing of a change that removes the account.
- The conversion of unsealed accounts in mode migrating, which rewrites envelopes through repositories; only that leaving an account unsealed writes no seal row is modelled.
- The rebinding of token rows under a new key, and the counts of rows by key version in the maintenance report.
- Reading the state document out of PostgreSQL's JSON, apart from what the seal is computed over.
- HMAC, AES-GCM, HKDF, Argon2 and SHA-256 themselves, and constant-time comparison.
- The HTTP pipeline, cookies, e-mail, OAuth, WebAuthn and TOTP verification, plugin hooks and announcements.
- Unicode normalisation, case folding and lone surrogates.
- The checker of plugin SQL in own-tables.ts, which claims no completeness.
- Configuration tables, error maps and the other start-up assertions, which are true on one reading.
