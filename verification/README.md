# A verified model of the naulon toll gate

The toll gate charges machines for reads and pays the people credited. Much of it is small kernels
whose correctness is a statement about every input or every run. This project models those kernels in
Dafny and proves those statements. `dafny verify dfyconfig.toml` verifies all of it.

Code that the source writes as expressions is modelled by functions; loops that update variables by
methods with invariants; objects that change by classes. Each such method is proved equal to a
specification function, and the promises are proved about the specification.

- **Quote proofs**: `Merkle`, `MerkleShape`, `Sentences`. A root commits to a text, a proof shows one
  sentence of it.
- **Signed requests**: `StructuredFields`, `BotAuth`, `FieldGrammar`, `SignedRequests`, `SignedComponents`.
  The cursor parser and the grammar it accepts, the printer it must undo, and the signature base both sides
  must build alike.
- **Crawler identity**: `IpAddress`, `IpSpelling`, `IpGrammar`, `AddressGrammar`, `RangeSets`,
  `CrawlerRanges`, `RangesHealth`, `Identity`, `IdentityClaims`, `PublicAddress`, `Arming`,
  `ArmingWindow`. From the characters of an address to the promise that a real crawler is not called forged.
- **Money**: `Accumulate`, `Credits`, `CreditShares`, `MicroSplit`, `Legs`, `Build402`, `CrawlerPrice`,
  `Batch`, `Settlement`, `SettledReceipts`. From a tree of credits to the legs on the wire, the ledger's
  cuts and the payouts.
- **Clocked state**: `RateLimit`, `RateEviction`, `RateExact`, `RateOrder`, `Console`, `ConsoleRuns`,
  `ConsoleAccounts`. Machines that forget, compared with ones that never do.
- **Incremental views**: `ObservationLog`, `ObservationRuns`, `Paging`, `Rollup`.
- **Prompt fencing**: `Fence`. Shared pieces: `Wrappers`, `Sorting`, `Text`.

## Assumptions

- Hashes, HMACs and signatures are injective constructors, one per domain tag; the verifier of a signed
  request is compared with the signer by the text they sign.
- Shares, weights and tokens are exact reals, amounts are unbounded integers of micro-USDC, times are
  integers (reals in the limiter); clocks do not go back where a theorem says so.
- Random tokens, identifiers and nonce salts are fresh; ISO stamps are their times.
- Unicode classes and NFC are parameters of the segmenter; case folding is ASCII.

## Where the code does not do what it says

The model follows the code; each point below is a lemma.

- Co-author split (`attribution.ts`): the remainder goes down the floors, not the shares, so a larger share
  can be paid one micro less (`MicroSplit.LargerShareIsPaidLess`, exact condition in
  `MicroSplit.LargerShareIsPaidLessWhen`); at prices of a few micro-USDC the largest share can get nothing
  and the content-gating leg is for `0` (`Build402.LargestShareMayGetNothing`, exact condition in
  `Build402.PrimaryLegIsEmptyWhen`); a credited wallet whose authors all go unpaid has no leg
  (`Build402.WalletHasLegWhen`).
- Credits (`attribution.ts`): an empty wallet string counts as payable but is paid nothing, so a tree that
  holds one beside a real wallet is refused, and a tree of only such reads as free
  (`Credits.ResolvesExactlyWhen`, `Credits.EmptyWalletIsRefused`). `payeeWalletSchema`
  (`packages/sdk/src/contract/credits.ts:45-60`) keeps such a string out of parsed credits; only a direct
  caller can pass one.
- Batching (`batch.ts`): an event's cuts sum to its total exactly when the floors leave over between
  nothing and one micro per payee (`Batch.CutsSumExactlyWhen`); shares that sum to 1 do that, an event with
  no payees loses its total (`Batch.UncreditedEvent`).
- Signing (`botAuthSign.ts`): the key id is quoted without escaping, so one with a backslash does not
  parse back (`SignedRequests.ParsesBackExactlyWhen`). Thumbprints never hold one.
- Limiter (`rateLimitCore.ts`): below one token of burst, `peek` admits an unknown key that `take` refuses
  and `retryAfter` never comes true; a ceiling of 0 is exceeded by the one bucket just put in, a negative
  one by more (`RateLimit.PeekAgreesWithTake`, `RateLimit.RetryAfterIsLeast`, `RateLimit.CeilingHoldsIff`).
  The configuration only accepts positive integers for both (`packages/shared/src/config.ts:202`, `:212`),
  so such values come from direct callers of the function only.
- Observation log (`observations.ts`): old rows are dropped only when the first row is old, so rows out of
  time order can be shown past the window (`ObservationRuns.OldRowIsShown`, exact condition in
  `ObservationRuns.ReadIsExactWhen`). A file is known by its inode and its length alone: one that is cut or
  removed and grows past the old offset under its inode before the next look, or that gets the inode two
  renames have freed, is read as the rest of the file last seen (`ObservationRuns.MistakenFiles`, exact
  condition in `ObservationLog.SpliceIsRightWhen`). With appends and at most one rename between two looks
  that cannot happen (`ObservationRuns.PacedIsHonest`). A rename between the two looks of one read leaves the
  moved file out of that answer, or puts it in twice (`ObservationRuns.RenameInBetween`).
- Observation sink (`observationsink.ts`): a failed rename starts the count over, so a file may grow by the
  cap again for every failure (`ObservationRuns.RotationBoundsTheDisk`), and can do so
  (`ObservationRuns.FailuresAddUp`).
- Sessions (`console-session.ts`): a request in time whose refresh lands after a sweep has dropped its row
  leaves the operator signed out (`ConsoleRuns.SweptWhileInUse`, exact condition in
  `ConsoleRuns.LateRefreshRevives`).
- Accounts (`console-users.ts`): switching off an administrator who already is off is refused while only
  one is live (`ConsoleRuns.LastAdministratorGuard`).

## Model

| member | source | states |
|---|---|---|
| `Merkle.PairUp` | packages/extract/src/merkle.ts:36-39 | one turn of the level loop: pairs are hashed, an odd last node is carried up unchanged |
| `Merkle.Levels` | packages/extract/src/merkle.ts:32-42 | every level of the tree, and the refusal of an empty leaf list |
| `Merkle.MerkleRoot` | packages/extract/src/merkle.ts:44-47 | the root of a leaf list, as the recursive tree defines it |
| `Merkle.InclusionProof` | packages/extract/src/merkle.ts:50-60 | the siblings from the leaf up, as the recursive tree defines them, and the range error |
| `Merkle.VerifyInclusion` | packages/extract/src/merkle.ts:62-84 | the loop verifier decides exactly the replay of the tree shape from index and count |
| `Merkle.LastLevelIsTop` | packages/extract/src/merkle.ts:44-45 | the level loop ends in the one node the recursive tree has at its top |
| `Merkle.ReplayReachesTop` | packages/extract/src/merkle.ts:66-82 | climbing from a node reaches the top exactly with that position's own node and own siblings |
| `Merkle.InclusionIsExact` | packages/extract/src/merkle.ts:49-84 | a proof is accepted if and only if the count is the leaf count, the sentence hashes to the leaf at the index, and the proof is the generated one: complete, sound, bound to its position, unique |
| `Merkle.OnlyTheWrittenSentence` | packages/extract/src/merkle.ts:1-12 | against a published text the only sentence provable at a position is the one written there |
| `Merkle.RootDeterminesLeaves` | packages/extract/src/merkle.ts:44-47 | two leaf lists with one root are the same list |
| `MerkleShape.LeftSizeIsPower` | packages/extract/src/merkle.ts:5-8 | the left side of every node holds a power of two of leaves, the largest that leaves some for the right |
| `MerkleShape.TopIsTree` | packages/extract/src/merkle.ts:32-47 | the top that pairing level by level leads to is that of the tree split in two at those places, whatever the number of leaves |
| `MerkleShape.ProofIsAuditPath` | packages/extract/src/merkle.ts:49-60 | the proof of a leaf is the other side of every node on the way down to it, the nearest first |
| `MerkleShape.PublishedTree` | packages/extract/src/merkle.ts:1-12 | for a published text: the root is the tree over its numbered sentences, and a proof is accepted for a sentence if and only if it is that sentence's way down |
| `Text.SpacesAreListed` | packages/shared/src/ipRange.ts:72-72 | trimming drops the white space and line ends of ECMAScript, listed one by one |
| `Sentences.TokenBeforeLoop` | packages/extract/src/sentences.ts:39-43 | the backward scan finds the whole token before the stop, leading openers dropped |
| `Sentences.CheckBoundary` | packages/extract/src/sentences.ts:62-67 | whether one match of the boundary pattern ends a sentence |
| `Sentences.CutAtEnds` | packages/extract/src/sentences.ts:60-72 | the cutting loop yields the trimmed pieces between the accepted boundaries |
| `Sentences.SegmentLoop` | packages/extract/src/sentences.ts:57-74 | the whole segmenter against its specification |
| `Sentences.NormalizeIsNormal` | packages/extract/src/sentences.ts:11-14 | normalized text has single plain spaces only and none at its ends |
| `Sentences.SegmentationIsLossless` | packages/extract/src/sentences.ts:52-74 | for every text, joining the sentences with single spaces gives the normalized text, and no sentence is empty or has outer whitespace |
| `Sentences.SegmentationIsStable` | packages/extract/src/sentences.ts:4-7 | segmenting the joined sentences gives the same list again |
| `Sentences.CutsAreExact` | packages/extract/src/sentences.ts:24-30 | a position is cut if and only if it ends a terminator run with its closers before whitespace and an opener and is no abbreviation's full stop |
| `Sentences.NormalizeIsWords` | packages/extract/src/sentences.ts:11-14 | normalized text is the words of the NFC text, cut at every collapsible character, with single spaces between them |
| `Sentences.SentencesHoldTheWords` | packages/extract/src/sentences.ts:52-74 | joined with single spaces the sentences are those same words |
| `Sentences.CutsAreSentenceEnds` | packages/extract/src/sentences.ts:24-43 | the cut rule in plain terms: terminators, closers, a space, then a capital, number or opener, and no abbreviation or single capital before a lone stop |
| `Fence.StripLeavesNoMarker` | packages/shared/src/untrusted.ts:22-37 | one pass leaves no marker in any casing, not even one formed across a replacement |
| `Fence.StripKeepsCleanText` | packages/shared/src/untrusted.ts:35-37 | text without markers is not touched |
| `Fence.FenceIsExact` | packages/shared/src/untrusted.ts:39-46 | for any label and body, the opening marker stands at the start only and the closing marker at the end only |
| `Fence.StripReplacesMarkers` | packages/shared/src/untrusted.ts:35-37 | a stripped text is the given one with each marker, in any casing, replaced by the notice and everything between them as it was |
| `StructuredFields.Cursor.SkipSp` | packages/enforce/src/botAuth.ts:61-63 | the cursor passes exactly the leading spaces and tabs |
| `StructuredFields.Cursor.ReadKey` | packages/enforce/src/botAuth.ts:66-73 | reads a key exactly where the specification on the remaining text does, or nothing |
| `StructuredFields.Cursor.ReadQuotedString` | packages/enforce/src/botAuth.ts:75-98 | reads a quoted string with its two escapes, refusing other escapes and a missing end |
| `StructuredFields.Cursor.ReadBareItem` | packages/enforce/src/botAuth.ts:102-128 | string, flag, integer or token, decided by the first character |
| `StructuredFields.Cursor.ReadInteger` | packages/enforce/src/botAuth.ts:113-120 | an optional minus and at least one digit |
| `StructuredFields.Cursor.ReadParam` | packages/enforce/src/botAuth.ts:133-146 | one parameter, with or without a value |
| `StructuredFields.Cursor.ReadParams` | packages/enforce/src/botAuth.ts:130-148 | all parameters, the last value for a key standing; the loop moves on at each turn |
| `BotAuth.ReadComponent` | packages/enforce/src/botAuth.ts:182-189 | a covered component with its verbatim text |
| `BotAuth.ReadComponents` | packages/enforce/src/botAuth.ts:174-190 | the inner list up to its closing parenthesis |
| `BotAuth.ReadMember` | packages/enforce/src/botAuth.ts:168-205 | one labelled member with its verbatim text |
| `BotAuth.ReadSignatureInput` | packages/enforce/src/botAuth.ts:162-212 | the whole parser equals its specification and ends on every input |
| `StructuredFields.QuotingIsUndoneWhen` | packages/enforce/src/botAuth.ts:75-98 | text put in quotes without escaping is read back if and only if it holds no quote and no backslash |
| `StructuredFields.IntegerReadsBack` | packages/enforce/src/botAuth.ts:113-120 | every printed integer reads back, whatever follows it that is not a digit |
| `StructuredFields.ParamReadsBack` | packages/enforce/src/botAuth.ts:133-146 | a printed parameter is read as printed and the reading goes on right after it |
| `FieldGrammar.ItemReads` | packages/enforce/src/botAuth.ts:102-128 | every string, token, integer and flag the grammar writes is read as what it means, whatever may follow it |
| `FieldGrammar.MapIsLast` | packages/enforce/src/botAuth.ts:130-148 | of parameters under one key the last stands |
| `FieldGrammar.ReadExactly` | packages/enforce/src/botAuth.ts:162-212 | a Signature-Input header is accepted, with these entries, if and only if the grammar (sections 3.1 and 3.2 of RFC 8941, as far as it is read) writes it with them, in any spacing and escaping |
| `SignedRequests.ReadDictMember` | packages/enforce/src/botAuth.ts:298-324 | the raw text of a dictionary member, on the cursor |
| `SignedRequests.BuildSignatureBaseLoop` | packages/enforce/src/botAuth.ts:333-370 | the base the verifier builds, or none if a component has no value |
| `SignedRequests.SignedTextParsesBack` | packages/shared/src/botAuthSign.ts:107-125 | for every label that is a key, clean key id and ordinary header names, the printed header parses to exactly one entry with the same label, components, parameters and member text |
| `SignedRequests.ParsesBackExactlyWhen` | packages/shared/src/botAuthSign.ts:114 | for a quote-free key id that happens if and only if the key id has no backslash |
| `SignedRequests.BothSidesBuildTheSameBase` | packages/enforce/src/botAuth.ts:326-370 | on a request that matches what was signed the verifier rebuilds the signed base character for character (section 2.5 of RFC 9421) |
| `SignedRequests.BaseBindsTheRequest` | packages/shared/src/botAuthSign.ts:111-120 | the rebuilt base is the signed one if and only if the request matches |
| `SignedRequests.MatchesIs` | packages/enforce/src/botAuth.ts:337-365 | matching means: authority up to case, covered path, and each covered header up to name case and outer spaces |
| `SignedComponents.BaseExistsWhen` | packages/enforce/src/botAuth.ts:333-365 | there is a base if and only if the request shows every component: one of the four derived ones without a key, or a header that is there and, under a key, has that member |
| `SignedComponents.BaseReads` | packages/enforce/src/botAuth.ts:333-370 | the base is one line a component, its text, a colon and a space and what the request shows for it, then the member as it came (section 2.5 of RFC 9421) |
| `SignedComponents.BaseBindsComponents` | packages/enforce/src/botAuth.ts:333-370 | whatever components are covered, two requests give one base if and only if they are the same on each of them |
| `SignedComponents.FirstMemberIsFound` | packages/enforce/src/botAuth.ts:298-324 | of the members written into a dictionary header the first under the key is found, as written, and none if there is none |
| `IpAddress.ParseV4Loop` | packages/shared/src/ipRange.ts:25-36 | the dotted-quad loop against its specification |
| `IpAddress.FoldGroups` | packages/shared/src/ipRange.ts:62-66 | the sixteen-bit groups of an IPv6 text folded into one value, or none if a group is malformed |
| `IpAddress.ParseV6Loop` | packages/shared/src/ipRange.ts:38-69 | the IPv6 parser: zone dropped, one double colon, an IPv4 tail |
| `IpAddress.PrefixIsItsLeadingBits` | packages/shared/src/ipRange.ts:108-127 | an accepted prefix contains exactly the addresses of its family that agree with it on its leading bits |
| `IpAddress.CidrIsOrdered` | packages/shared/src/ipRange.ts:124-126 | a prefix is never an empty interval |
| `IpSpelling.MappedIsV4` | packages/shared/src/ipRange.ts:83-91 | every text that spells an IPv4-mapped address, hex, dotted or in eight groups, is that IPv4 address (section 2.5.5.2 of RFC 4291) |
| `IpSpelling.MappedPrefix` | packages/shared/src/ipRange.ts:116-119 | a prefix on any such spelling is the IPv4 prefix 96 bits shorter, for every length, legal or not |
| `IpSpelling.DottedIsMapped` | packages/shared/src/ipRange.ts:42-69 | an IPv4 text behind ::ffff: is such a spelling |
| `IpSpelling.FormatV4RoundTrip` | packages/shared/src/ipRange.ts:210-212 | every printed IPv4 address parses back |
| `IpSpelling.TruncatedBlock` | packages/shared/src/ipRange.ts:214-220 | a truncated address is a prefix of its own family that contains it, with 2^8 or 2^80 addresses |
| `IpSpelling.ParsedTruncates` | packages/shared/src/ipRange.ts:87-91 | the same for any text that parses |
| `RangeSets.MergeLoop` | packages/shared/src/ipRange.ts:131-143 | the merging loop, which widens the last interval in place |
| `RangeSets.Search` | packages/shared/src/ipRange.ts:145-156 | the binary search finds a value if and only if some interval holds it |
| `RangeSets.MergeIsFaithful` | packages/shared/src/ipRange.ts:131-143 | merging keeps exactly the covered values and leaves a gap between neighbours |
| `RangeSets.MergeIsCanonical` | packages/shared/src/ipRange.ts:131-143 | inputs that cover the same addresses merge to identical lists |
| `RangeSets.GappedIsCanonical` | packages/shared/src/ipRange.ts:131-143 | a sorted list with gaps is determined by what it covers |
| `RangeSets.HasIsContained` | packages/shared/src/ipRange.ts:162-176 | membership in a set is membership in one of the prefixes it was built from |
| `RangeSets.HasIsListed` | packages/shared/src/ipRange.ts:174-187 | an address is in a set built from texts if and only if one of them is a prefix that contains it |
| `IpSpelling.TruncationForgets` | packages/shared/src/ipRange.ts:214-220 | two addresses truncate to one text if and only if they are in the same block: the text says nothing else about an address |
| `IpGrammar.V4Exactly` | packages/shared/src/ipRange.ts:25-36 | a text is an IPv4 address if and only if it is four numbers up to 255, in at most three digits each, with stops between them, and it is then their value |
| `IpGrammar.V6Exactly` | packages/shared/src/ipRange.ts:49-67 | groups are an IPv6 address if and only if they are eight of at most four hex digits, or at most seven with one double colon, and it is then their value |
| `AddressGrammar.IpExactly` | packages/shared/src/ipRange.ts:38-91 | a text is an address if and only if it spells one: dotted, in groups, in groups with a dotted tail or a zone, with spaces around it or in brackets |
| `AddressGrammar.CallerExactly` | packages/shared/src/ipRange.ts:93-106 | a header shows a caller's address if and only if it spells it: an address, one in brackets with or without a port, a dotted one with a port, in quotes or not, spaces aside |
| `AddressGrammar.ShownExactly` | packages/enforce/src/identity.ts:51-51 | a request shows a caller's address if and only if it carries a text that spells it |
| `AddressGrammar.PrefixExactly` | packages/shared/src/ipRange.ts:108-127 | a listed text names an address if and only if it is an address and a length, neither too broad nor too long, and the two agree on that many leading bits |
| `CrawlerRanges.KeepRecent` | packages/shared/src/crawlerRanges.ts:102-103 | the loop that prunes what left the union window |
| `CrawlerRanges.MarkSeen` | packages/shared/src/crawlerRanges.ts:104 | the loop that stamps the prefixes of a good copy |
| `CrawlerRanges.ApplyFetchNow` | packages/shared/src/crawlerRanges.ts:86-113 | one fetch, every outcome |
| `CrawlerRanges.UnionIsExact` | packages/shared/src/crawlerRanges.ts:86-119 | over every run the union is exactly the prefixes of copies applied within the window, pruning notwithstanding |
| `CrawlerRanges.ShrinkGuardIsExact` | packages/shared/src/crawlerRanges.ts:90-101 | over every run a copy is applied if and only if it is not shrunk or is the third identical one among consecutive good fetches since the last applied copy, failures not counting |
| `CrawlerRanges.StartIsSummarised` | packages/shared/src/crawlerRanges.ts:78-80 | the empty state starts that comparison |
| `CrawlerRanges.SignatureIsCopy` | packages/shared/src/crawlerRanges.ts:91 | two copies made of prefixes have one signature if and only if they hold the same prefixes |
| `RangesHealth.StatusIs` | packages/shared/src/crawlerRanges.ts:82-113 | after a fetch the status says how it went, and the final address is kept if and only if a copy was applied that came from elsewhere |
| `RangesHealth.SinceTheStreak` | packages/shared/src/crawlerRanges.ts:82-84 | in any run the status has stood since the first of the latest fetches that all went the same way |
| `RangesHealth.LastGoodIs` | packages/shared/src/crawlerRanges.ts:105-112 | in any run the time and the count of the last good copy are those of the last copy applied |
| `Identity.OverallIsWorst` | packages/enforce/src/identity.ts:67-74 | the overall verdict is the worst claim, and some claim is the one to name |
| `Identity.ForgedExactly` | packages/enforce/src/identity.ts:46-69 | of the claims a request makes, one is called forged if and only if nobody vouches for it, the address is the caller's own public one, its operator's document entry is a fresh list of ranges trusted to accuse, and no listed text names the address |
| `Identity.VerdictFromList` | packages/shared/src/crawlerRanges.ts:191-211 | with a document's entry in force every verdict on a claim is read off its listed texts |
| `Identity.RealCrawlerIsNeverForged` | packages/enforce/src/identity.ts:57-66 | end to end over any run of fetches: an address inside a prefix of a copy applied within the union window has no claim for that operator judged forged, whatever the user agent, and each is verified when the address is the caller's own |
| `IdentityClaims.ClaimsExactly` | packages/shared/src/crawlerProof.ts:77-88 | a request makes one claim, in the order of the table, for every row with a fragment its user agent mentions in any casing, naming the first such fragment, and none otherwise |
| `IdentityClaims.OverallExactly` | packages/enforce/src/identity.ts:67-68 | the verdict is forged if any claim is, else unverified if any is, else verified by address if any is, else signed |
| `IdentityClaims.DecidingExactly` | packages/enforce/src/identity.ts:71-74 | the claim named for a verdict is the first that has it |
| `PublicAddress.ReservedIsExact` | packages/shared/src/ipRange.ts:190-199 | the compiled reserved list holds exactly the addresses of its blocks, written out as intervals |
| `PublicAddress.UsableExactly` | packages/shared/src/ipRange.ts:201-208 | a request is judged by an address if and only if it shows it, no text of any proxy list names it and no reserved interval holds it |
| `PublicAddress.ProxiesAreNotJudged` | packages/enforce/src/identity.ts:51-54 | from an address a proxy list names, or a reserved one, no claim is forged or verified by address |
| `Arming.VerifiedIn` | packages/enforce/src/arming.ts:74-82 | the loop drops hours that left the window and adds up the rest |
| `Arming.ThresholdIsClamped` | packages/enforce/src/arming.ts:84-88 | the silence threshold stays between its two limits |
| `Arming.ThresholdAtMost` | packages/enforce/src/arming.ts:84-88 | the threshold is at most a time if and only if that time is at least the shortest silence and either the longest or the factor times the usual gap between hits |
| `Arming.DisarmsExactly` | packages/enforce/src/arming.ts:132-143 | however its history ran, an event disarms an armed pair if and only if it is at least the third forged claim since the last hit and the silence since then is at least the shortest one and either the longest or the factor times the usual gap |
| `Arming.StepInPlace` | packages/enforce/src/arming.ts:123-145 | one claim against one pair |
| `Arming.MemoryArmingStore.IsArmed` | packages/enforce/src/arming.ts:99-101 | whether a pair is armed; one not held is not |
| `Arming.MemoryArmingStore.RecordResult` | packages/enforce/src/arming.ts:103-148 | one check result: the first claim per operator counts, a known pair moves to the end, a new one may evict the least recently seen |
| `Arming.HistoryDecides` | packages/enforce/src/arming.ts:103-148 | over any run the hourly counters leave a pair armed, counting and clocked exactly as its full list of hits does |
| `Arming.StoreFollowsHistory` | packages/enforce/src/arming.ts:90-148 | over any run of results, evictions included, the store holds exactly the pairs most recently seen, and one is armed as the full list of its hits since it was taken in says |
| `Arming.NothingIsForgotten` | packages/enforce/src/arming.ts:30 | as long as no more pairs than the limit were ever seen a pair is armed as its whole history says |
| `Arming.ArmsExactly` | packages/enforce/src/arming.ts:132 | however its history ran, an event arms an unarmed pair if and only if it is a verified hit that brings the hits in the window since the last disarm to the minimum |
| `ArmingWindow.CountIsHits` | packages/enforce/src/arming.ts:74-82 | the hits the window counts are those whose hour is not over before the window begins, each once |
| `ArmingWindow.DisarmedWhen` | packages/enforce/src/arming.ts:132-143 | in any run a pair says when it was last disarmed |
| `Arming.ReArmingTakesNewHits` | packages/enforce/src/arming.ts:137-143 | between a disarm and a later armed state of the pair there are at least the minimum of new verified hits |
| `Arming.ForgedAloneNeverArms` | packages/enforce/src/arming.ts:4-6 | an install that sees too few verified hits never arms, whatever else it sees |
| `Arming.ForgersCannotDisarm` | packages/enforce/src/arming.ts:8-14 | however many forged claims arrive, and in whatever order hits are reported, a pair whose crawler keeps verifying stays armed |
| `Arming.SilenceDisarms` | packages/enforce/src/arming.ts:11-14 | in any run, once nothing verified for three days the third forged claim leaves the pair disarmed |
| `Accumulate.AddLoop` | packages/shared/src/attribution.ts:76-84 | the get-or-set loop over a Map, keys in first-seen order |
| `Accumulate.InFirstSeenOrder` | packages/shared/src/attribution.ts:76-84 | keys come in the order in which they were first seen |
| `Accumulate.AddAllConserves` | packages/shared/src/attribution.ts:135-143 | adding up by key leaves each key once and loses nothing, for any choice of keys |
| `Credits.ResolveConserves` | packages/shared/src/attribution.ts:31-55 | with unpayable contributors dropped first, exactly the parent's share is paid out of a subtree |
| `Credits.ResolveSucceeds` | packages/shared/src/attribution.ts:37-40 | with positive weights nothing is refused and every share is positive |
| `Credits.MergeConserves` | packages/shared/src/attribution.ts:76-87 | merging by author and wallet keeps the sum and leaves one entry each |
| `Credits.ResolvePayeesLoop` | packages/shared/src/attribution.ts:73-96 | the whole resolution, both refusals included |
| `Credits.PayeesSumToOne` | packages/shared/src/attribution.ts:88-96 | a tree with positive weights resolves to nobody if nobody is payable and otherwise to positive shares summing to exactly 1 |
| `Credits.ResolvesExactlyWhen` | packages/shared/src/attribution.ts:24-50 | with positive weights a tree is resolved if and only if it has no empty wallet string on a payable leaf, or nothing else payable; it reads as free exactly when it names no wallet |
| `Credits.EmptyWalletIsRefused` | packages/shared/src/attribution.ts:24-50 | an author with an empty wallet string beside one with a wallet: the whole tree is refused |
| `CreditShares.SharesAreEarned` | packages/shared/src/attribution.ts:31-55 | whenever a tree resolves, what an author is paid on a wallet is what the leaf paths that name them earn: along each, the product of its weights over the payable weights beside them |
| `CreditShares.SharesAreAsWeights` | packages/shared/src/attribution.ts:31-45 | authors beside each other get shares in proportion to their weights, in the order of the credits |
| `CreditShares.SharesStandAsWeights` | packages/shared/src/attribution.ts:31-45 | the shares of any two of them stand to each other as their weights |
| `MicroSplit.SplitMicrosLoop` | packages/shared/src/attribution.ts:162-184 | the wrapping remainder loop, bumping allocations in place |
| `MicroSplit.FloorsLeave` | packages/shared/src/attribution.ts:169-170 | less than one micro per payee is left over, and never less than nothing |
| `MicroSplit.SplitIsExact` | packages/shared/src/attribution.ts:153-184 | the split sums to the total, and each payee gets its floor plus one exactly if fewer payees are ahead of it than micros are left |
| `MicroSplit.LargerShareIsPaidLessWhen` | packages/shared/src/attribution.ts:153-184 | a larger share is paid less, by one, if and only if its floor is the same, its place later and the left-over ends between the two |
| `MicroSplit.LargerShareIsPaidLess` | packages/shared/src/attribution.ts:153-184 | at 3 micros 40% credited first is paid 2 and 60% credited second is paid 1 |
| `Legs.PrimaryIsLargest` | packages/shared/src/attribution.ts:116-130 | the primary is a credited wallet whose joint share none exceeds; ties go to the least address or to the one credited first |
| `Legs.PrimaryIsOrderFree` | packages/shared/src/attribution.ts:98-105 | with the wallet tie-break, reordering the credits never changes the recipient |
| `Legs.FoldIsOwed` | packages/shared/src/attribution.ts:193-199 | folding gives each address exactly what its authors were allocated |
| `Legs.SplitLegsLoop` | packages/shared/src/attribution.ts:245-267 | the loop that separates the primary amount from the co-author legs |
| `Legs.TotalIsPricePlusExtras` | packages/enforce/src/build402.ts:121-144 | the author and co-author legs charge exactly the price whether or not it is split, and the extra legs are added |
| `Legs.OneLegPerWallet` | packages/enforce/src/build402.ts:121-138 | when the price is split no address is paid twice, an address has a leg if and only if it is the primary or is owed something, and each leg is for what is owed |
| `Build402.AuthorLegsLoop` | packages/enforce/src/build402.ts:113-138 | the author leg cut down to its share, and the co-author legs |
| `Build402.Assemble` | packages/enforce/src/build402.ts:105-159 | the assembled challenge: separate requirement objects, leg 0 the returned one, and in mock mode a nonce bound to each leg's final amount and recipient |
| `Build402.CreditsToWire` | packages/enforce/src/build402.ts:115-144 | from any resolvable credits tree to the legs, the price is charged exactly |
| `Build402.PrimaryLegIsEmptyWhen` | packages/shared/src/attribution.ts:253-263 | the content-gating leg is for nothing if and only if every author behind the primary floors to nothing and the left-over micros run out before them |
| `Build402.WalletHasLegWhen` | packages/shared/src/attribution.ts:260-264 | any other credited wallet has a leg if and only if one of its authors is paid at least a micro |
| `Build402.LargestShareMayGetNothing` | packages/shared/src/attribution.ts:153-157 | an input where the largest share gets a leg of nothing, because the remainder follows the floors |
| `Build402.SettledIsTheRest` | packages/enforce/src/crawlerPrice.ts:154-163 | with some legs forgone, what was settled is exactly the total of the others |
| `CrawlerPrice.PriceRoundTrip` | packages/enforce/src/crawlerPrice.ts:37-83 | every printed price parses back to its amount |
| `CrawlerPrice.FormatIsInjective` | packages/enforce/src/crawlerPrice.ts:44-55 | no two amounts print alike |
| `CrawlerPrice.OnlyZeroPrintsAsFree` | packages/enforce/src/crawlerPrice.ts:40-42 | only a price of nothing prints as free |
| `CrawlerPrice.ReprintIsStable` | packages/enforce/src/crawlerPrice.ts:66-83 | whatever spelling was accepted, printing what was understood is understood the same |
| `CrawlerPrice.ToMicroExactly` | packages/enforce/src/crawlerPrice.ts:165-176 | a wire amount is read, and as n, if and only if it is digits of value n with spaces around them |
| `CrawlerPrice.ToMicroReadsPrint` | packages/enforce/src/crawlerPrice.ts:165-176 | an amount printed for the wire is read back |
| `CrawlerPrice.PrintIsCanonical` | packages/enforce/src/crawlerPrice.ts:37-55 | a price is printed in dollars without leading zeros, with two to six digits after the stop and no more than it takes; a negative one is refused |
| `CrawlerPrice.UnderstoodExactly` | packages/enforce/src/crawlerPrice.ts:57-83 | a header is understood if and only if it spells dollars with at most six digits after the stop, and as exactly that many micro-dollars |
| `Batch.PartsLoop` | packages/attribution/src/batch.ts:48-58 | the forEach that hands out the remainder, in place |
| `Batch.ExpandCutsLoop` | packages/attribution/src/batch.ts:44-62 | all cuts of the ledger |
| `Batch.CutsAreTheSplit` | packages/attribution/src/batch.ts:39-43 | the cuts of an event are, to the micro, the split the toll settled, and sum to the event |
| `Batch.CutsSumToLedger` | packages/attribution/src/batch.ts:39-43 | over a ledger of credited events nothing is created or lost |
| `Batch.CutsSumExactlyWhen` | packages/attribution/src/batch.ts:46-60 | whatever the shares, the cuts of an event sum to its total if and only if the floors leave over between nothing and one micro per payee |
| `Batch.UncreditedEvent` | packages/attribution/src/batch.ts:46-60 | so the total of an event without payees is lost unless it is zero |
| `Batch.BatchLoop` | packages/attribution/src/batch.ts:65-97 | accrual, partition by the minimum, and the sort |
| `Batch.BatchIsExact` | packages/attribution/src/batch.ts:64-97 | a wallet is paid now if and only if its pending cuts reach the minimum, carried if not, by one statement of its events and their sum |
| `Batch.PayoutsAreDistinct` | packages/attribution/src/batch.ts:65-81 | no wallet appears twice among the payouts or among the deferred |
| `Batch.BatchPaysWhatIsOwed` | packages/attribution/src/batch.ts:84-95 | for any choice of wallets the payouts are worth what those that reach the minimum are owed |
| `Settlement.Service.Append` | packages/attribution/src/index.ts:40 | the ledger grows by an event |
| `Settlement.Service.RunPass` | packages/attribution/src/index.ts:39-58 | one settlement pass over ledger and receipts |
| `Settlement.KeyIsCovered` | packages/attribution/src/index.ts:44-49 | the joined key is settled if and only if a receipt covers that event and wallet, as addresses hold no colon |
| `Settlement.PassKeepsValid` | packages/attribution/src/index.ts:44-58 | a pass never covers an event and wallet a second time |
| `Settlement.DueAfterPass` | packages/attribution/src/index.ts:49-58 | after a pass exactly the due cuts of wallets below the minimum are still due |
| `Settlement.EveryRunPaysOnce` | packages/attribution/src/index.ts:1-13 | in every run each event and wallet is in at most one receipt, and receipts plus due cuts equal the ledger, per wallet and in all |
| `Settlement.EveryPassSettles` | packages/attribution/src/index.ts:54-58 | after any pass of any run every wallet's unpaid balance is below the minimum |
| `Settlement.PassIsIdempotent` | packages/attribution/src/index.ts:9-11 | running the pass again at once pays nobody |
| `SettledReceipts.ReceiptsExactly` | packages/attribution/src/index.ts:39-58 | a pass keeps every receipt and adds, at its time, exactly one for each wallet whose unsettled shares reach the minimum: all their events in order, their sum, and the author of the first |
| `RateLimit.RateLimiter.TakeNow` | packages/shared/src/rateLimitCore.ts:126-155 | one take, with sweep and eviction, on the mutable buckets |
| `RateLimit.RateLimiter.PeekNow` | packages/shared/src/rateLimitCore.ts:118-125 | a peek, which changes nothing |
| `RateLimit.RateLimiter.SweepInPlace` | packages/shared/src/rateLimitCore.ts:104-109 | the sweep over the buckets |
| `RateLimit.SweepingIsInvisible` | packages/shared/src/rateLimitCore.ts:100-109 | without eviction every verdict of every interleaving equals that of a limiter that never sweeps |
| `RateLimit.ReachableAgrees` | packages/shared/src/rateLimitCore.ts:100-109 | every reachable state agrees with the ledger that never forgets |
| `RateLimit.WindowBound` | packages/shared/src/rateLimitCore.ts:95-114 | in any stretch of a run one key is granted at most its burst plus what refilled meanwhile |
| `RateEviction.FloodBound` | packages/shared/src/rateLimitCore.ts:81-85 | in any stretch of any run, evictions included, one key is granted at most its burst, one more for each time it was evicted meanwhile, and what refilled |
| `RateEviction.EvictionStartsAfresh` | packages/shared/src/rateLimitCore.ts:82-84 | the extra burst is reached: where one bucket fits, a request of another key lets a key through again at once |
| `RateExact.GrantedExactlyWhen` | packages/shared/src/rateLimitCore.ts:126-155 | in any run a request is granted if and only if, counting it, the key's grants since each of its requests from which on its bucket was held stay within the burst plus what the rate gave |
| `RateExact.BurstIsGranted` | packages/shared/src/rateLimitCore.ts:149-153 | of n requests of an unseen key at one moment the i-th is granted if and only if the burst holds i + 1 whole tokens |
| `RateExact.RefusedOnlyOverRate` | packages/shared/src/rateLimitCore.ts:95-114 | without eviction, and with a burst of at least one token, a request is refused if and only if since one of its key's requests the grants and this one exceed the burst plus what the rate gave |
| `RateExact.NothingIsLimited` | packages/shared/src/rateLimitCore.ts:126-127 | with no rate configured every request and every peek is granted and nothing is kept |
| `RateOrder.ForgottenExactly` | packages/shared/src/rateLimitCore.ts:126-147 | another key's bucket is forgotten by a take if and only if it has refilled by a sweep that is due or needed, or room is needed and too many live ones are newer; else it stays as it is |
| `RateOrder.EvictKeepsNewest` | packages/shared/src/rateLimitCore.ts:136-143 | eviction keeps the newest buckets, one fewer than the limit |
| `RateOrder.OrderIsKept` | packages/shared/src/rateLimitCore.ts:131-147 | buckets keep the order in which they were made, however they are used, and a new one comes last |
| `RateLimit.PeekAgreesWithTake` | packages/shared/src/rateLimitCore.ts:43-50 | peek foretells take if and only if limiting is off, the key has a bucket, or a full bucket holds a token |
| `RateLimit.RetryAfterIsLeast` | packages/shared/src/rateLimitCore.ts:30-31 | a refused key succeeds n whole seconds later if and only if n is at least retryAfter and a full bucket holds a token |
| `RateLimit.SizeStaysBounded` | packages/shared/src/rateLimitCore.ts:133-147 | the number of buckets never passes its limit, whatever the clock does |
| `RateLimit.CeilingHoldsIff` | packages/shared/src/rateLimitCore.ts:60-86 | the configured ceiling holds if and only if it leaves room for one bucket |
| `Console.Store.SignIn` | packages/dashboard/src/console-session.ts:100-133 | a sign-in stamps its row, sweeps by a second look at the clock, and appends, as one committed draft |
| `Console.Store.Resolve` | packages/dashboard/src/console-session.ts:151-186 | a request: verdict, deletion of a dead row, refresh of a stale anchor |
| `Console.Store.SignOut` | packages/dashboard/src/console-session.ts:188-193 | one token is ended |
| `Console.Store.SignOutUser` | packages/dashboard/src/console-session.ts:195-201 | an account's tokens are ended, one kept |
| `Console.Store.Disable` | packages/dashboard/src/console-users.ts:143-169 | switching an account off or on, with its refusals |
| `Console.Store.AddUser` | packages/dashboard/src/console-users.ts:55-83 | a new account, or the refusal of its name |
| `ConsoleRuns.StepRow` | packages/dashboard/src/console-session.ts:117-131 | how each operation moves the row of any one token |
| `ConsoleRuns.NoTokenOutlivesItsDeadline` | packages/dashboard/src/console-session.ts:13-15 | in any run a token resolves only for the account it was issued to, while that account is live, and before the absolute deadline from its issue |
| `ConsoleRuns.DisablingEndsEverySession` | packages/dashboard/src/console-users.ts:161-163 | no token issued before an account was switched off ever resolves afterwards, even once it is switched on again |
| `ConsoleRuns.SignedOutStaysOut` | packages/dashboard/src/console-session.ts:16-18 | a signed-out token never resolves again |
| `ConsoleRuns.InUseStaysValid` | packages/dashboard/src/console-session.ts:61-76 | a token presented at gaps shorter than the idle window less the touch floor is let in until its deadline unless something ends it, whatever late refreshes land; one with an old stamp only sets the time counted from back to that stamp |
| `ConsoleRuns.FloorIsExact` | packages/dashboard/src/console-session.ts:69-76 | that margin cannot be widened |
| `ConsoleRuns.ForgettingIsInvisible` | packages/dashboard/src/console-session.ts:117-129 | sweeping and dropping expired rows never change a verdict, beyond the reason for a refusal, against a store that never forgets, as long as no late refresh misses a row it would have revived |
| `ConsoleRuns.LateRefreshRevives` | packages/dashboard/src/console-session.ts:174-180 | a late refresh makes a later verdict differ if and only if its row was forgotten, never ended, would be live when refreshed, and so is its account; the store that forgets then refuses |
| `ConsoleRuns.SweptWhileInUse` | packages/dashboard/src/console-session.ts:117-131 | a run where that happens: a request inside the idle window whose refresh lands after a sweep |
| `ConsoleRuns.LastAdministratorGuard` | packages/dashboard/src/console-users.ts:153-159 | when the refusal strikes: exact for a live administrator, and also for a disabled one while at most one is live |
| `ConsoleRuns.AdminOfEveryRun` | packages/dashboard/src/console-users.ts:153-159 | from the first live administrator on there is always one |
| `ConsoleRuns.NamesOfEveryRun` | packages/dashboard/src/console-users.ts:67-76 | in every run no two accounts share a name, whatever case or padding was typed |
| `ConsoleAccounts.ToldExactly` | packages/dashboard/src/console-session.ts:151-186 | what a request is told: absent or unknown for a token nobody holds; else expired, disabled or found, by the deadlines of its own session and the account it names |
| `ConsoleAccounts.AnchorMovesExactly` | packages/dashboard/src/console-session.ts:69-76 | a request that is let in moves the idle anchor if and only if more than a minute has passed or more than half the idle window, and changes nothing else |
| `ConsoleAccounts.SwitchIsExact` | packages/dashboard/src/console-users.ts:143-169 | switching an account changes its row and no other; off also ends its sessions, and every other session stays as and where it was |
| `ConsoleAccounts.NoSuchAccountExactly` | packages/dashboard/src/console-users.ts:143-169 | switching is refused for want of an account if and only if no account has the id |
| `ConsoleAccounts.RefusedExactly` | packages/dashboard/src/console-users.ts:153-159 | switching an administrator off is refused if and only if no two live administrators are there |
| `ConsoleAccounts.SomeAdminRemains` | packages/dashboard/src/console-users.ts:153-159 | in any run, once some account is a live administrator some account always is |
| `ConsoleAccounts.AccountIsAddedExactly` | packages/dashboard/src/console-users.ts:24-83 | a name is badly formed if and only if it types none, whatever its case and padding; it is taken if and only if some account's name types the same one; else the account is added under it |
| `ObservationLog.Reader.ReadObservations` | packages/dashboard/src/observations.ts:78-84 | both generations read and concatenated |
| `ObservationLog.Follow` | packages/dashboard/src/observations.ts:38-76 | one path followed: restart, append, prune |
| `ObservationLog.SplitAppend` | packages/dashboard/src/observations.ts:58-59 | splitting a text cut anywhere, with the unfinished line carried over, is splitting the whole |
| `ObservationLog.ReadFollows` | packages/dashboard/src/observations.ts:38-76 | a follower that was right about what it had read is right about the whole file after a read |
| `ObservationLog.ShownAgrees` | packages/dashboard/src/observations.ts:73-76 | cut to the window, what a path shows is what reading its file from the start gives; uncut too if the rows are in time order |
| `ObservationLog.PruneIsExactWhen` | packages/dashboard/src/observations.ts:73-74 | pruning leaves no old row if and only if the first row is old or none is |
| `ObservationLog.ShownIsExactWhen` | packages/dashboard/src/observations.ts:73-76 | one path shows just what re-reading its file would if and only if the first row it remembers is old or none is |
| `ObservationLog.LookShowsTaken` | packages/dashboard/src/observations.ts:38-76 | over any looks at a path, whatever became of its file between them, it shows the rows of the text put together: the file itself after a new inode or a shorter file, else the old text with the new remainder put to it |
| `ObservationLog.RestartReadsWhole` | packages/dashboard/src/observations.ts:47-50 | a new inode or a shorter file is read as if for the first time, and shows its own rows |
| `ObservationLog.LookShowsFile` | packages/dashboard/src/observations.ts:6-10 | when every file taken for the one last seen begins as that did, a look shows each parseable complete line of its file in the window once and in file order, and nothing old besides exactly when the first row remembered is old or none is |
| `ObservationLog.SpliceIsRightWhen` | packages/dashboard/src/observations.ts:47-60 | a file taken for the one last seen is read right if and only if, up to the end of the line the old offset falls in, the text put together reads like the file |
| `ObservationLog.WholeLinesDecide` | packages/dashboard/src/observations.ts:47-60 | with whole lines at the old offset, that is if and only if the rows remembered before the read are those of the file up to there |
| `ObservationLog.RowsLineByLine` | packages/dashboard/src/observations.ts:58-70 | a text without a line end shows nothing, and a whole line shows its row when what is between the spaces is one, and nothing when it is blank or malformed |
| `ObservationLog.RecentRowByRow` | packages/dashboard/src/observations.ts:73-74 | of the rows those no older than the cutoff are kept, in order |
| `ObservationRuns.LookAgrees` | packages/dashboard/src/observations.ts:38-76 | in any run of appends cut anywhere, renames, truncations and removals, a look at either path shows its file as it is at that moment |
| `ObservationRuns.EveryReadAgrees` | packages/dashboard/src/observations.ts:78-84 | in any such run in which no file is mistaken for the one last seen, a read shows each parseable complete line of both files in the window once and in file order |
| `ObservationRuns.ReadIsExactWhen` | packages/dashboard/src/observations.ts:73-84 | such a read shows nothing old besides if and only if, of the rows remembered of each file, the first is old or none is |
| `ObservationRuns.PacedIsHonest` | packages/dashboard/src/observations.ts:6-10 | with appends and renames only, free inodes for new files and at most one rename between two looks at a path, no file is mistaken |
| `ObservationRuns.RenameInBetween` | packages/dashboard/src/observations.ts:82 | a rename between the two looks of one read: with the older path first the moved file is missing from the answer, with the live path first it is there twice |
| `ObservationRuns.MistakenFiles` | packages/dashboard/src/observations.ts:47-50 | runs with a truncation, a removal or two renames between two looks after which a path shows a line its file no longer has |
| `ObservationRuns.OldRowIsShown` | packages/dashboard/src/observations.ts:73-74 | a run in which a row older than the window is shown |
| `ObservationRuns.Sink.Record` | packages/shared/src/observationsink.ts:44-56 | one line recorded: the counted size in UTF-8 bytes, the rotation, the append |
| `ObservationRuns.WidthIsLeast` | packages/shared/src/observationsink.ts:44-46 | a character counts the fewest bytes UTF-8 can write it in |
| `ObservationRuns.RecordedIsOnDisk` | packages/shared/src/observationsink.ts:47-55 | however renames turn out, the files hold the two last generations, and the count is the live file's true size as long as no rename of it has failed |
| `ObservationRuns.RotationBoundsTheDisk` | packages/shared/src/observationsink.ts:30-52 | each file stays within the cap, or within one longer line, once for itself and once more for every rename that failed while it was live |
| `ObservationRuns.RotationHoldsTheCap` | packages/shared/src/observationsink.ts:30-36 | when no rename fails each file stays within the cap, or within one longer line |
| `ObservationRuns.FailuresAddUp` | packages/shared/src/observationsink.ts:48-52 | that bound is reached by lines of the size of the cap while every rename fails |
| `ObservationRuns.DiskHoldsTheLastLines` | packages/shared/src/observationsink.ts:30-36 | however renames turn out, the two files hold the last lines recorded, none missing and none twice |
| `ObservationRuns.RecordedRowsReadBack` | packages/shared/src/observationsink.ts:44-56 | what was recorded parses back as the last rows, in order |
| `Paging.SuffixAfter` | packages/dashboard/src/traffic.ts:385 | the rows after a row's cursor are the rows behind it |
| `Paging.ReadingShowsEveryRowOnce` | packages/dashboard/src/traffic.ts:373-389 | following the cursors ends and shows every row once, newest first, even while newer rows arrive |
| `Paging.PageIs` | packages/dashboard/src/traffic.ts:373-389 | a page holds the lesser of the limit and the rows after the cursor, the first of them, and says where to go on if and only if some are left |
| `Paging.RequestsOfAReading` | packages/dashboard/src/traffic.ts:373-389 | a reading of n rows takes n divided by the limit, rounded up, requests |
| `Paging.ArrivalsStayInFront` | packages/dashboard/src/traffic.ts:384-386 | rows that arrive in front of a cursor change no page after it |
| `Rollup.RollupLoop` | packages/dashboard/src/traffic.ts:256-324 | the rollup loop and its final order, ties in requests by any given order of names |
| `Rollup.EveryRowAddsUp` | packages/dashboard/src/traffic.ts:290-324 | every agent seen has exactly one row, which says what its own observations say, and its columns add up to its requests |
| `Rollup.RowsAreRanked` | packages/dashboard/src/traffic.ts:256-324 | rows come by earned, then missed, then requests, then name |
| `Rollup.NoObservationIsLost` | packages/dashboard/src/traffic.ts:256-324 | the rows returned together count every agent observation once |

## Left out

- Network, files, DNS, HTTP routes, configuration: only the state changes they feed are modelled.
- Floating point: the tolerance on a sum of shares becomes equality, and rounding an amount to micro-USDC becomes a given integer.
- JavaScript numbers: integers are unbounded, so exponent formatting from 1e21 on and precision loss past 2^53 are not modelled.
- Text encoding: positions are counted in characters where the source counts UTF-16 units, and log reads end on character boundaries; the sink counts UTF-8 bytes.
- JSON: parsing of range files, documents, ledgers and log lines is a parameter or a given value (`parseRangeFile`, `parseLineList`, `parseRangesDocument`, `parseState`).
- ConsoleRuns.InUseStaysValid: a request's read and its write are one step, or two with a late refresh in between; a refresh that misses a swept row is `ConsoleRuns.LateRefreshRevives`.
- ConsoleRuns.ForgettingIsInvisible: with late refreshes only where they are harmless; `ConsoleRuns.LateRefreshRevives` says exactly what the others change.
- Console: password hashing, sign-in checks, cookies and the display fields of sessions; each update is one atomic step, as the store's lock makes it.
- ObservationRuns.EveryReadAgrees: for files that are recognised; the splice lemmas say what happens to the others. The `stat` and the read of one path are one step.
- ObservationRuns.RotationBoundsTheDisk: the sink starts on no files, and nothing else moves or cuts them.
- RateLimit.WindowBound: for runs without eviction; `RateEviction.FloodBound` states the bound for all runs.
- Arming.StoreFollowsHistory: without `importPairs`; the NUL-joined key is a pair.
- Identity.RealCrawlerIsNeverForged: for an operator whose document entry holds the union of the source; matching a signer's host to a registry entry is a parameter.
- Credits.PayeesSumToOne: for positive weights and non-empty wallet strings; other trees may be refused.
- Settlement.EveryRunPaysOnce: event ids are unique and addresses hold no colon; the settlement itself is the simulation the source ships.
- Build402: the encoded header, the discovery block and the guide texts; the network and asset fields of a leg are one constant.
- SignedRequests: the header names and values of a request are given in a map from lower-case names; the parser of the `Signature` and `Signature-Agent` headers, replay windows and the key directory are not modelled.
- Rollup: the registry's operator and purpose labels; the locale order of names is a parameter. `rollupPaths`, `missedByCause` and the heatmap are not modelled.
- Decision tables, nonce and proof-of-possession stores, pages, prompts and the WordPress plugin.
