# Verified models of perloxide's strings, containers and parser front end

perloxide keeps Perl's data in fast, in-place or concurrent representations, each of which is supposed to agree with
something simple.  This project states the simple thing, models the code branch by branch, and proves the agreement, for
every input, every run or every interleaving.

The modules, in the order they build on each other:

| area | files |
|---|---|
| Perl's extended UTF-8: the reference encoding, the decoder, decoding whole strings, order | `Wrappers`, `Ordering`, `PerlUtf8`, `Form`, `PerlText` |
| What a scan state claims, the meet, racing writers of one slot, append and slice transitions; standard UTF-8 by its byte ranges (RFC 3629) | `Scan`, `Standard`, `Meet`, `Narrowing`, `Transitions`, `Strongest` |
| The scalar decoder, the blocked classifier and its copying and known-valid forms | `Classify`, `BlockedClassify` |
| Strings kept inline, and mixed-flag comparison, equality and digest | `Inline`, `Compare`, `Equality`, `Digest` |
| Latin-1 widening and contraction, word-at-a-time counting | `Upgrade`, `Latin1`, `Words` |
| Packed alphabets, UUIDs and hex strings in fifteen bytes (RFC 9562 for the UUID forms) | `Nibbles`, `Packed`, `PackedOrder`, `Uuid`, `HexBytes`, `HexClassify` |
| Copy-on-write buffers as a state machine over atomic steps | `CowProtocol` |
| The gap-buffer array, the `each` cursors of three hash engines, iterative teardown | `Values`, `GapArray`, `WalkLog`, `OrderedHash`, `BucketHash`, `ImmutableHash`, `Release` |
| Numification and its warning, decimal text, digit caches | `NumericGrammar`, `Numify`, `DecimalText`, `Render` |
| Lines, lookahead, heredocs, delimited bodies | `SourceLines`, `Lookahead`, `Heredoc`, `DelimiterScan`, `DelimitedBody` |
| Evaluation-context stamping | `Syntax`, `ContextRoles`, `ContextStamp`, `ContextResolve`, `ContextSave` |

Bytes are integers below 256, except in `Words`, which works on machine words; `Latin1.VariantsAreCounted` and
`Numify.WordRunIsDigitRun` join the two.  `CLASSIFY_BLOCK` is any positive block size.  Allocation is a nondeterministic
choice between failing and granting at least the request.

## Where the code and its documentation part

* The comments on slices call an empty view clean.  The byte tests call an empty cut inside a character dirty, and the
  birth table then calls it malformed, which an empty string is not: `Transitions.SliceBirthSoundIff` gives the exact
  condition, `Transitions.EmptyDirtyCut` the case.
* Hex classification accepts a trailing separator, which decoding does not give back
  (`HexClassifier.ClassifyThenDecode`, `HexClassifier.TrailingColonIsLost`).
* A refused allocation leaves an array as it was in every operation but the lvalue door, which returns before storing a
  geometry whose gap it has already reclaimed.  `GapArray.PerlArray.EnsureElement` states what is then seen,
  `GapArray.SlidUnchangedIff` exactly when that is the old sequence, and `GapArray.RefusedEnsureLosesAnElement` a run
  where it is not.
* The ordered hash's cursor adjustment is exact for deletes at or after the current entry and no others
  (`OrderedEngine.DeleteKeepsTallyIff`, `OrderedEngine.RoughDeleteLosesAndRepeats`, `OrderedEngine.RoughRun`).
* A comma stamped `Runtime` sends its earlier items to void even where the frame turns out to want a list
  (`ContextResolve.RuntimeProgram`, `ContextResolve.RuntimeCommaDropsItsFirstItem`).
* The word-wise count of high bytes accumulates in 32 bits and is exact while the part counted by words fits
  (`Words.CountIsExactIff`).

## Model

| member | source | states |
|---|---|---|
| PerlUtf8.DecodeOne | core/src/string.rs:708-757 | the byte loop with its 64-bit checked accumulator answers what unbounded decoding answers |
| PerlUtf8.DecodeAtIff | core/src/string.rs:708-757 | a code point is decoded exactly where the bytes begin with its one shortest encoding, 7- and 13-byte forms included |
| ExtendedForm.EncodeSpells | core/src/string.rs:708-757 | the spelling in full: the fewest of one to seven or thirteen bytes with room, the lead byte's ones above the highest bits, six bits in each byte after it |
| PerlText.DecodeIff | core/src/string.rs:708-757 | a string decodes to a list of code points exactly when it is their encoding |
| PerlText.CleanCut | core/src/string.rs:5766-5776 | cutting decodable text before a byte that continues nothing leaves two decodable texts that share out its characters |
| PerlText.DirtyCut | core/src/string.rs:5766-5776 | cutting it before a continuation byte leaves nothing decodable on either side |
| PerlText.EncodeAllOrder | core/src/string.rs:4290-4329 | byte order on encodings is code-point order |
| Scan.HoldsByClass | core/src/string.rs:433-453 | what a scan state's facts say of a string depends on its class alone, and which classes they allow |
| Scan.FactByClass | core/src/string.rs:433-453 | each single fact is true of a string exactly when it is true of its class |
| StandardUtf8.StandardBytes | core/src/string.rs:708-757 | the one to four octets of a character up to U+10FFFF, bit group by bit group |
| StandardUtf8.RustValidIffStandard | core/src/string.rs:805-821 | the Rust-valid fact is true of exactly the octet sequences of section 4 of RFC 3629, stated by byte ranges alone |
| ScanMeet.MeetIsConjunction | core/src/string.rs:455-497 | the meet of two states true of some string asserts of every string exactly what the two assert together |
| ScanMeet.ContradictionIff | core/src/string.rs:455-497 | the meet's debug assertion fires exactly for states no string satisfies together |
| ScanMeet.StatesAreDistinct | core/src/string.rs:433-453 | no two of the twelve states mean the same |
| ScanMeet.MeetLaws | core/src/string.rs:455-497 | among jointly true states the meet is idempotent, commutative and associative |
| Narrowing.SlotOnlyNarrows | core/src/cow_buffer.rs:572-606 | over every interleaving of compare-exchange loops the shared slot stays true and only gains facts |
| Narrowing.QuiescentSlot | core/src/cow_buffer.rs:1635-1648 | when every thread is done the slot asserts exactly the conjunction of all certifications |
| Narrowing.AtMostFourChanges | core/src/cow_buffer.rs:572-606 | however many threads race, at most four exchanges change the slot |
| Narrowing.LostRaceNarrows | core/src/cow_buffer.rs:572-606 | an exchange lost to another thread strictly narrows what its own thread still has to try |
| Transitions.AppendKeepsTruth | core/src/string.rs:4033-4069 | the state an append moves to is true of the joined text |
| Transitions.AppendKeepsCount | core/src/string.rs:1775-1782 | a character count kept across an append is the joined text's count |
| StrongestTransitions.AppendStrongestIff | core/src/string.rs:4033-4069 | the append state is the strongest of the lattice sure to be true exactly when ASCII is appended or the prior certifies decoding and is not the undecided `MaybeExtendedUtf8` |
| StrongestTransitions.AppendKeepsDecoding | core/src/string.rs:4033-4069 | decodability stays certified exactly when it was, and a count is kept exactly when both sides kept one and it is |
| Transitions.CleanIffDecodable | core/src/string.rs:5766-5776 | for decodable text the two byte tests decide whether a nonempty cut is decodable by itself |
| Transitions.SliceBirthSoundIff | core/src/string.rs:5778-5812 | the birth state is true of the slice exactly when the cut is nonempty, or clean, or the parent's state certifies nothing past ASCII |
| StrongestTransitions.SliceBirthStrongestIff | core/src/string.rs:5778-5812 | the birth state is true of every nonempty cut and the strongest such, but for dirty cuts of ASCII, of which there are none |
| Transitions.EmptyDirtyCut | core/src/string.rs:5766-5812 | an empty cut inside a two-byte character is born malformed, and is not |
| Classify.MalformedRun | core/src/string.rs:770-786 | the malformed region runs to the next byte that is not a continuation byte |
| Classify.TokensSpellSource | core/src/string.rs:788-821 | the reported characters and regions spell exactly the bytes walked |
| Classify.TokensAreDecode | core/src/string.rs:788-821 | without a rejection they are the plain decode; with one no plain decode exists |
| Classify.DecodeSpanReporting | core/src/string.rs:788-821 | the scalar span decoder, stopping or stepping over malformed regions, reports that token list and the facts of its characters |
| BlockedClassify.ClassifyWalk | core/src/string.rs:635-669 | for every block size: the class and count of one plain decode, and emit calls that tile the source in order even when it is malformed |
| BlockedClassify.CopyRanges | core/src/string.rs:599-633 | replaying the emit calls copies the source and touches nothing past it |
| BlockedClassify.ClassifyInto | core/src/string.rs:599-633 | classifying while copying gives the plain answer and the whole copy |
| BlockedClassify.WideLeadIff | core/src/string.rs:828-861 | in decodable text a byte from C4 up occurs exactly when some character is past U+00FF |
| BlockedClassify.LeadCountIsCharCount | core/src/string.rs:828-861 | counting bytes that continue nothing counts characters |
| BlockedClassify.ClassifyKnownValid | core/src/string.rs:828-861 | on Rust-valid text the known-valid walker finds the true class, and the count but where it bails |
| BlockedClassify.ClassifyKnownValidInto | core/src/string.rs:864-898 | its copying twin finds class and count and copies |
| BlockedClassify.ViewBirthState | core/src/string.rs:5814-5821 | a view's birth state is true of it under the exact condition, and is its class below the eager floor |
| InlineCodec.ClassifyInline | core/src/string.rs:2492-2504 | anything up to fifteen bytes, and nothing longer, is kept verbatim in its canonical envelope |
| InlineCodec.DecodeLatin1Range | core/src/string.rs:2407-2440 | strict decoding succeeds exactly on text of at most fifteen characters, none past U+00FF, and gives the octets it upgrades from |
| InlineCodec.ClassifyPackedLatin1 | core/src/string.rs:2509-2515 | past fifteen bytes exactly such text is compressed, canonically, and its bytes come back |
| InlineCodec.EqualEnvelopeIff | core/src/string.rs:4374-4390 | canonical envelopes of one form are equal exactly when their strings are |
| InlineCodec.LenIsLength | core/src/string.rs:2383-2388 | the length read off the nibbles is the length of the bytes |
| Compare.CmpCrossFlag | core/src/string.rs:4332-4352 | the cursor walk with its virtual pairs is lexicographic order against the upgrade |
| Compare.CmpRawBytes | core/src/string.rs:4302-4329 | same-flag comparison is byte order whatever the storage |
| Compare.CmpPerl | core/src/string.rs:4290-4329 | `cmp` is the lexicographic order of one key across any mix of flags |
| Compare.KeyOrderIsTotal | core/src/string.rs:4290-4352 | that order reverses, is transitive, and answers equal exactly for equal keys |
| Compare.KeyOrderIsCodePointOrder | core/src/string.rs:4290-4352 | on decodable strings it is code-point order, and equal keys are equal characters |
| Equality.CrossGridIsSound | core/src/string.rs:4357-4528 | whenever the states are true, a cross-flag early answer is right |
| Equality.SameGridIsSound | core/src/string.rs:4357-4528 | and so is a same-flag one |
| Equality.Walk | core/src/string.rs:4357-4528 | the blocked dual-cursor walk decides whether flagged bytes are the plain side's upgrade, and what it saw is true |
| Equality.EqPerl | core/src/string.rs:4357-4528 | for every pair of true states, `==` is key equality; states are recorded exactly for equal strings of different flags, the flagged side's being its class and the plain side's saying whether it is ASCII |
| Equality.EqualityAgreesWithOrder | core/src/string.rs:4290-4528 | `cmp` answers equal exactly when `==` holds |
| Digest.ChunkFeed.Push | core/src/string.rs:4588-4636 | feeding a byte appends it to what has been fed |
| Digest.ChunkFeed.Extend | core/src/string.rs:4588-4636 | feeding a slice appends it, however it straddles the buffer |
| Digest.ChunkFeed.Finish | core/src/string.rs:4588-4636 | the hasher is told the bytes fed, in calls of sixty-four and one last of what remains, however they were split |
| Digest.WritesSpell | core/src/string.rs:4588-4636 | the calls join to the stream; all but the last are full and none is empty |
| Digest.WritesTellApart | core/src/string.rs:4588-4636 | two streams are told in the same calls exactly when they are equal |
| Digest.ContentDigest | core/src/string.rs:4569-4723 | whichever branch the state takes, the write calls spell the canonical stream; the class and count are found exactly where no terminal state settled the branch |
| Digest.DualDigest | core/src/string.rs:4640-4723 | so do those of the branch that feeds both candidates until the content decides, and it finds the exact class and count |
| Digest.EqualStringsShareAStream | core/src/string.rs:4569-4723 | equal strings have one canonical stream |
| Digest.EqualStringsDigestAlike | core/src/string.rs:4569-4723 | equal strings give a hasher the same calls, whatever true states either carries, and the calls are the same only for equal streams |
| Latin1.ExpandInPlace | core/src/cow_buffer.rs:383-411 | widening backward in place produces the upgrade and touches nothing else |
| Latin1.ContractInPlace | core/src/cow_buffer.rs:413-432 | contraction in place recovers the text |
| UpgradeText.ContractibleIff | core/src/cow_buffer.rs:1331-1348 | contractible text is exactly the upgrade of its characters |
| Latin1.Contractions | core/src/cow_buffer.rs:1331-1348 | the count is defined exactly on contractible text and is the length lost |
| Latin1.Downgraded | core/src/cow_buffer.rs:1350-1378 | a copy is contracted exactly when that is possible, and widens back |
| Latin1.Upgraded | core/src/cow_buffer.rs:1269-1290 | the copying upgrade |
| Latin1.ExpandThenContract | core/src/cow_buffer.rs:383-432 | widening then contracting in place is the identity |
| Latin1.ContractThenExpand | core/src/cow_buffer.rs:383-432 | contracting then widening in place is the identity, where defined |
| Latin1.WidenLatin1 | core/src/cow_buffer.rs:1296-1329 | every chunk is valid text, the chunks join to the upgrade, and a refusing sink has received whole characters |
| Latin1.VariantsAreCounted | core/src/cow_buffer.rs:1238-1250 | the high octets the word loop counts are the bytes widening adds |
| Latin1.UpgradeInPlace | core/src/string.rs:1631-1676 | counted in words and widened where it stands, exactly when there is a high byte and the room; otherwise untouched |
| Words.VariantCount | core/src/cow_buffer.rs:1238-1250 | the word loop counts high bytes modulo 2^32 and the tail exactly |
| Words.CountIsExactIff | core/src/cow_buffer.rs:1238-1250 | the count is right exactly while the part counted by words fits 32 bits |
| Words.FirstVariant | core/src/cow_buffer.rs:1252-1267 | the first high byte, or none when there is none |
| Words.WordDigitsIff | core/src/value.rs:1074-1078 | the masked word test says all eight bytes are digits |
| Words.DigitRunWords | core/src/value.rs:1196-1208 | the word scan measures the longest digit prefix |
| PackedCodec.PackIn | core/src/string.rs:5068-5087 | packing into an alphabet succeeds exactly when it holds every byte, and unpacks to the text |
| PackedCodec.EncodableIff | core/src/string.rs:4917-4974 | which texts an alphabet holds, character by character |
| PackedCodec.Pack | core/src/string.rs:5029-5066 | one pass finds the canonical alphabet, or none |
| PackedCodec.Transcode | core/src/string.rs:5141-5172 | moving to another alphabet keeps the text, exactly when that alphabet holds it |
| PackedCodec.TransitionTable | core/src/string.rs:5141-5172 | how the symbols of the alphabets correspond |
| PackedCodec.Push | core/src/string.rs:5174-5207 | appending in nibbles has the outcome of packing the joined text |
| PackedCodec.PackThenPush | core/src/string.rs:5029-5207 | pack(s) then push(t) is exactly pack(s + t), alphabet, length nibble and padding |
| PackedOrder.CmpSameAlphabetIsTextOrder | core/src/string.rs:5209-5247 | comparing nibbles is comparing text, across both length families and through trailing spaces |
| PackedOrder.EqualRepresentationIff | core/src/string.rs:5029-5066 | canonical values are the same representation exactly when they hold the same text |
| PackedOrder.EqBytes | core/src/string.rs:4357-4528 | packed against plain bytes, equality is of the texts |
| PackedOrder.CmpBytes | core/src/string.rs:4302-4329 | and comparison is byte order |
| UuidCodec.ClassifyUuid | core/src/string.rs:5325-5400 | the recognized spellings, and the form and payload each stores |
| UuidCodec.DecodeUuid | core/src/string.rs:5402-5467 | writes the spelling of a form and payload and nothing past it |
| UuidCodec.OnePairPerSpelling | core/src/string.rs:5325-5467 | a spelling belongs to one form and payload |
| UuidCodec.DecodeThenClassify | core/src/string.rs:5325-5467 | every form and payload survives its text |
| UuidCodec.ClassifyThenDecode | core/src/string.rs:5325-5467 | every recognized text survives its pair |
| HexCodec.DecodeHex | core/src/string.rs:5664-5694 | writes the payload's rendering and nothing past it |
| HexClassifier.ClassifyHex | core/src/string.rs:5547-5662 | finds the canonical payload of every spelling in the band, and nothing else |
| HexClassifier.ClassifyThenDecode | core/src/string.rs:5547-5694 | an accepted text comes back exactly when it does not end in a separator, else without it |
| HexClassifier.DecodeThenClassify | core/src/string.rs:5547-5694 | the identity on canonical payloads rendering at least sixteen bytes |
| HexClassifier.TrailingColonIsLost | core/src/string.rs:5577-5587 | a text that is accepted and loses its last colon |
| CowProtocol.StepKeepsInv | core/src/cow_buffer.rs:736-781 | every atomic step keeps counts, teardowns and holders in agreement |
| CowProtocol.SurrenderKeepsInv | core/src/cow_buffer.rs:1668-1689 | a dying struct's holder has its reference to surrender, once |
| CowProtocol.CountsAreExact | core/src/cow_buffer.rs:1112-1152 | in every run each refcount is the number of its handles, holders and mints in flight |
| CowProtocol.FreedExactlyOnce | core/src/cow_buffer.rs:751-769 | no cell is freed twice, with another capacity, or while named; when no handle, mint or teardown is left every cell has been freed, holders' chains included |
| CowProtocol.NothingLeaks | core/src/cow_buffer.rs:1600-1612 | in every run a cell is still to be freed exactly while something in a thread's hands pins it, through any chain of parents |
| CowProtocol.TeardownMoves | core/src/cow_buffer.rs:1668-1689 | a teardown is never stuck, and each of its steps brings the end of all teardowns nearer |
| CowProtocol.EverythingCanBeFreed | core/src/cow_buffer.rs:1600-1612 | with no handle or mint left, a bounded run of teardown steps frees every cell |
| CowProtocol.NoHandleOutlivesItsBuffer | core/src/cow_buffer.rs:1520-1612 | in every run a handle's bytes lie in a live cell, through any chain of parents |
| CowProtocol.NoStepChangesAnotherView | core/src/string.rs:1218-1321 | no step of any thread changes the bytes another handle sees |
| CowProtocol.WriterIsAlone | core/src/cow_buffer.rs:777-781 | between the uniqueness check and the write no other handle reads that buffer |
| CowProtocol.AppendAddsTheSuffix | core/src/string.rs:1757-1844 | the writer then sees what it had and the suffix after it |
| CowProtocol.CloneSees | core/src/string.rs:1218-1282 | a clone sees the same bytes |
| CowProtocol.SliceSees | core/src/string.rs:1261-1282 | a slice sees the range it names |
| CowProtocol.MintedViewSees | core/src/cow_buffer.rs:1520-1583 | an oversized view, of a struct or a buffer, sees the span it names however deep its parents |
| CowProtocol.UnshareKeepsTheBytes | core/src/string.rs:3225-3244 | with other threads at work between its steps, unique storage is left alone and stays unique, and anything else is copied to storage with one reference; the bytes are the same |
| GapArray.PerlArray.Set | core/src/containers.rs:345-353 | assignment, past the end included, or the sequence unchanged on refusal |
| GapArray.PerlArray.EnsureElement | core/src/containers.rs:359-371 | vivification; on a refused allocation, exactly what the stale geometry shows |
| GapArray.PerlArray.Delete | core/src/containers.rs:375-391 | deletion with truncation through trailing holes at the end only |
| GapArray.PerlArray.Push | core/src/containers.rs:394-403 | appends, or leaves the sequence unchanged |
| GapArray.PerlArray.Pop | core/src/containers.rs:407-421 | removes the last slot and answers it |
| GapArray.PerlArray.Shift | core/src/containers.rs:425-439 | removes the first slot by sliding the window |
| GapArray.PerlArray.Unshift | core/src/containers.rs:446-488 | prepends, paying for moved slots from a potential of twice the live count less the gap |
| GapArray.PerlArray.Clear | core/src/containers.rs:491-503 | empties the sequence |
| GapArray.PerlArray.Run | core/src/containers.rs:345-503 | every run of operations, refusals included, refines the sequence with holes, up to the first refusal that shows, and what it shows |
| GapArray.UnshiftAll | core/src/containers.rs:446-488 | n unshifts from empty move at most 4n live slots |
| GapArray.Grow | core/src/containers.rs:151-193 | growth keeps the live slots, empties what they left, and fails only when the request exceeds the buffer |
| GapArray.StoreParts | core/src/containers.rs:240-286 | either header arm gives back the geometry stored, and the wide arm is never left |
| GapArray.DeleteObserved | core/src/containers.rs:375-391 | deletion changes what one index reads and can cut only the end |
| GapArray.DeleteAnswers | core/src/containers.rs:359-391 | deletion hands back what was assigned there, vivification what is there or undef, and both undef for a hole |
| GapArray.HolesComeAway | core/src/containers.rs:407-439 | popping or shifting a hole, or an empty array, answers undef and takes no more than that slot |
| GapArray.SetObserved | core/src/containers.rs:345-371 | assignment and vivification change what one index reads, with holes between |
| GapArray.EndsInvert | core/src/containers.rs:394-488 | pop undoes push and shift undoes unshift |
| GapArray.TrimmedIsLongestOccupied | core/src/containers.rs:381-388 | truncation stops at the last occupied slot |
| GapArray.SlidUnchangedIff | core/src/containers.rs:359-364 | the refused vivification is harmless exactly when there was no gap or nothing but holes |
| GapArray.RefusedEnsureLosesAnElement | core/src/containers.rs:359-364 | three pushes, a shift and a refused vivification: the first element is lost |
| OrderedEngine.OrderedHash.Store | core/src/containers.rs:1050-1055 | updates in place or appends, leaving the cursor |
| OrderedEngine.OrderedHash.Delete | core/src/containers.rs:1157-1169 | swap-removal with the cursor adjustment |
| OrderedEngine.OrderedHash.Each | core/src/containers.rs:1199-1212 | the entry at the cursor, or a restart |
| OrderedEngine.OrderedHash.Keys | core/src/containers.rs:1242-1246 | every key once, and the cursor reset |
| OrderedEngine.EffectOnLookup | core/src/containers.rs:1050-1169 | a store changes what its own key finds and nothing else, a delete loses its own key and nothing else, a walk nothing |
| OrderedEngine.DeleteKeepsTallyIff | core/src/containers.rs:1157-1169 | a delete keeps the walk exact exactly when it is at or after the current entry, or nothing is left to visit |
| OrderedEngine.WalkYieldsEverySurvivorOnce | core/src/containers.rs:1142-1212 | a walk of such deletes yields every surviving key exactly once before None |
| OrderedEngine.RoughDeleteLosesAndRepeats | core/src/containers.rs:1157-1169 | any other delete loses the last key and brings the current one round again |
| OrderedEngine.RoughRun | core/src/containers.rs:1142-1212 | from empty, three stores, two yields and a delete of the first key: the walk ends having yielded the second key twice and the third never |
| BucketEngine.BucketHash.Each | core/src/containers.rs:1183-1196 | the next occupied bucket, or a restart |
| BucketEngine.EffectOnLookup | core/src/containers.rs:1031-1196 | the same of the bucket table, wherever it puts a key |
| BucketEngine.WalkYieldsEverySurvivorOnce | core/src/containers.rs:1031-1196 | whatever is deleted, a walk that ends has yielded every surviving key once |
| ImmutableEngine.ImmutableHash.Each | core/src/containers.rs:1215-1228 | the snapshot's next key still live, with its live value |
| ImmutableEngine.WalkIsExact | core/src/containers.rs:1142-1228 | no absent key, no key twice, and at None every key live throughout has been yielded |
| Release.Thread.ReleaseValue | core/src/heap.rs:126-159 | the outermost release leaves the graph recursive drop leaves, at constant nesting; nested ones only append |
| Release.Thread.DropValue | core/src/scalar.rs:121-133 | one drop, with counts balanced against outside handles, live edges and pending values |
| Release.Thread.HandBack | core/src/containers.rs:215-227 | a dying container's contents are released in order, accounted for at every moment |
| Release.Thread.Drain | core/src/heap.rs:142-157 | the loop ends with nothing pending and the books balanced |
| Release.DropKeepsBalance | core/src/heap.rs:126-159 | every drop keeps strong(n) = outside handles + edges from live nodes + values in hand |
| Release.OrderLeavesNoTrace | core/src/heap.rs:126-159 | any two complete releases of the same values end in the same graph, cycles included |
| Release.DropAllExplained | core/src/containers.rs:1405-1434 | recursive drop is one of those orders |
| NumericGrammar.WouldWarnIff | core/src/value.rs:1404-1467 | the repository's own predicate accepts exactly the declarative grammar's strings |
| Numify.ClassifyNumericNotingWarning | core/src/value.rs:1479-1525 | the value of the longest token that begins the trimmed text, and a verdict that is the grammar's on every string |
| Numify.FloatSpanIsWholeIff | core/src/value.rs:1324-1395 | the float parse consumes the whole exactly when the whole is one token |
| Numify.FloatSpanIsLongest | core/src/value.rs:1324-1395 | the span consumed is a token of the grammar and no longer prefix is one, or it is empty and no prefix is one |
| Numify.SignedReads | core/src/value.rs:1479-1525 | the answer is the number of that longest token: an integer by its digits where it is one and fits, otherwise the float of its text |
| Numify.ParseIntVisible | core/src/value.rs:1252-1287 | the integer view: exact, wrapped through unsigned, or clamped |
| Numify.SplitSign | core/src/value.rs:1238-1249 | leading whitespace and one optional sign |
| Numify.WordRunIsDigitRun | core/src/value.rs:1196-1208 | the word scan's run is the parse's |
| DecimalText.PrintThenClassify | core/src/value.rs:1479-1525 | every i64, and every u64 from 2^63, prints to silent text that classifies back to itself |
| DecimalText.PrintIsPlain | core/src/numeric.rs:202-224 | a minus exactly for a negative, then digits without a leading zero |
| Render.PresentFloat | core/src/value.rs:958-1006 | the presentation of digits and exponent, each notation in its range |
| Render.PresentedReadsBack | core/src/value.rs:958-1006 | whatever is presented is a silent complete token denoting digits * 10^(exp - count + 1) |
| Render.PresentedLooks | core/src/value.rs:958-1006 | the bytes of each notation: the digits as given, the point or zeros where the exponent puts them, an exponent of at least two digits with its sign outside -4 to 14 |
| Render.SpecialsAreNamed | core/src/value.rs:1014-1031 | the specials' text is the name the parse reads back, with its sign |
| Render.PushZeros | core/src/value.rs:1034-1044 | zeros in runs of twenty-four are that many zeros |
| Render.FloatTextIsSilent | core/src/value.rs:1014-1031 | every float's text, specials included, numifies without a warning |
| Render.Build | core/src/numeric.rs:104-127 | the cache holds the digits and exponent, or nothing |
| Render.CopyDigits | core/src/numeric.rs:85-98 | reading a cache gives the digits it was built from |
| Render.DecimalCache | core/src/numeric.rs:259-274 | an integer's cache is built from its decimal digits |
| Render.RenderInteger | core/src/numeric.rs:202-224 | cached or not, an integer renders as its decimal text |
| Render.FilledInteger | core/src/numeric.rs:210-229 | a filled payload's cache is its own, and is there exactly for at most twelve digits |
| Render.RenderFloat | core/src/numeric.rs:237-245 | cached or not, a float renders the same |
| Render.FilledFloat | core/src/numeric.rs:248-255 | a float's cache is its own, and is there exactly for at most ten digits and an eight-bit exponent |
| SourceLines.SetEofDelivers | parser/src/source.rs:89-112 | a bound withholds exactly the positions at or past it |
| SourceLines.ReadRawLine | parser/src/source.rs:707-739 | the byte loop reads the line the splitting defines |
| SourceLines.RawLineSpells | parser/src/source.rs:707-739 | a line with its ending is the bytes read, and a carriage return is dropped exactly where it stands before the newline |
| SourceLines.RawLinesTile | parser/src/source.rs:707-739 | the lines tile the source |
| Lookahead.Lexer.NextLine | parser/src/source.rs:318-346 | delivers the head of all lines to come, stamped and narrowed, or nothing at the bound |
| Lookahead.Lexer.InstallLine | parser/src/source.rs:356-380 | narrowing, capture, and the closing of the consume window |
| Lookahead.Lexer.EndLookahead | parser/src/source.rs:752-800 | the guard's drop puts back the entry line and every line seen |
| Lookahead.Lexer.Preview | parser/src/source.rs:406-454 | for every scan, lookahead leaves line, lines to come and frames as they were |
| Lookahead.Lexer.ConsumeLookahead | parser/src/source.rs:440-454 | commits to the scan's last line, its cursor and the same lines to come |
| Heredoc.FindHost | parser/src/source.rs:469-486 | the ceiling is the bound of the nearest frame whose line ends in a newline |
| Heredoc.CeilingIsHosts | parser/src/source.rs:469-486 | the host is the innermost level whose line ends in a newline, and the ceiling is what bounds that level |
| Heredoc.FindBody | parser/src/source.rs:491-520 | the scan stops at the first terminator within the bound, or finds none when there is none |
| Heredoc.TerminatesIff | parser/src/source.rs:491-520 | a line terminates exactly when what it shows is the tag, or under `<<~` blanks and then the tag, at one width only |
| Heredoc.ShownIs | parser/src/source.rs:89-112 | what it shows is its bytes from the required indent to the bound |
| Heredoc.StampIndent | parser/src/source.rs:549-563 | indents every body line that is blank or carries the indent, and refuses otherwise |
| Heredoc.IndentedIff | parser/src/source.rs:549-563 | a body can be indented exactly when each line is blank or carries the indent, and each then shows what came after the indent |
| Heredoc.CursorWithinIff | parser/src/source.rs:549-563 | a fresh line can be sliced at its cursor exactly when the bound does not cut its required indent |
| Heredoc.StartHeredoc | parser/src/source.rs:464-529 | body first, then the lines after the terminator; on failure every line still there |
| Heredoc.BoundSeparatesBodyFromHost | parser/src/source.rs:464-529 | the frame's bound lets through every body line whole and no host line |
| Heredoc.DeliverHeredoc | parser/src/source.rs:386-393 | from tag to pop: the body's lines, then the introducer where it was and the host's later lines; only the terminator is missing; and exactly when it is unterminated or badly indented, with every line still to come |
| DelimiterScan.WalkFindsClose | parser/src/source.rs:627-688 | over whole characters the byte walk answers what the search over characters answers |
| DelimiterScan.FindCloseIff | parser/src/source.rs:645-688 | that search finds the least character that is a close, is not escaped by an odd run of backslashes, and has as many unescaped closes as opens before it; none exactly when there is none |
| DelimiterScan.EncodedTextIsDistinct | parser/src/source.rs:592-622 | UTF-8 text qualifies for any delimiters |
| DelimiterScan.ByteTextIsDistinct | parser/src/source.rs:592-622 | and any bytes qualify for one-byte delimiters |
| DelimiterScan.ResetNeedsWholeCharacters | parser/src/source.rs:627-688 | outside valid text the reset misses a close |
| DelimitedBody.ScanToClose | parser/src/source.rs:627-688 | the scan over lines is the walk over their joined bytes |
| DelimitedBody.JoinedIsFlat | parser/src/source.rs:707-739 | the joined bytes are the source's, a carriage return before a newline apart |
| DelimitedBody.StartDelimitedBody | parser/src/source.rs:587-700 | the frame ends where the close begins, the parent resumes past it, and every line is still to come |
| DelimitedBody.StartBodyOfCharacters | parser/src/source.rs:587-700 | the bound is the first unescaped close with its opens and closes balanced before it; unterminated exactly when there is none |
| Syntax.TruthTestedResolves | parser/src/ast.rs:178-184 | truth-testing commutes with resolving, and of a settled context is boolean where no value was wanted or only its truth, scalar otherwise |
| Syntax.PushesAligned | parser/src/ast.rs:371-607 | a node's children are stamped alike under contexts that stand for each other, commas in list context aside |
| Syntax.BodyAligned | parser/src/ast.rs:633-802 | and so are a body's statements |
| ContextRoles.PushesGive | parser/src/ast.rs:371-802 | which context each child gets, place by place: items list, tests boolean, operands scalar, results and tails the construct's own, a sub's tail and a returned operand the caller's, earlier statements void, for every kind of node, statement, part and arrow target |
| ContextStamp.Drain | parser/src/ast.rs:360-365 | draining the queue adds exactly the recursive definition's stamps, each node once |
| ContextStamp.DescendIsMarks | parser/src/ast.rs:371-607 | the descent's order does not matter: it adds one mark to each unstamped node reached |
| ContextSave.SaveContext | parser/src/ast.rs:360-365 | queue-driven stamping leaves what a recursive descent leaves: each newly stamped node has handed its unstamped children the contexts of their places, and no other node is stamped |
| ContextSave.SaveProgram | parser/src/ast.rs:621-628 | for a whole program too, from the places of its statements |
| ContextSave.OverlayIsStamped | parser/src/ast.rs:371-607 | the marks of a descent, laid over the stamps there were, are exactly such stamps |
| ContextResolve.StampedStay | parser/src/ast.rs:371-376 | first writer wins, and nothing beneath a stamped node, an assignment or a reference is touched |
| ContextResolve.SameKeys | parser/src/ast.rs:371-607 | which nodes are stamped does not depend on the context |
| ContextResolve.ResolvesAlikeIff | parser/src/ast.rs:585-597 | stamping dynamically then resolving agrees with stamping for the context that arrives exactly when no comma splits |
| ContextResolve.RuntimeProgram | parser/src/ast.rs:621-628 | so a program stamped `Runtime` agrees in scalar, boolean and void frames, and in list frames exactly when its value, through what inherits its context, comes to no comma with an unstamped earlier item |
| ContextResolve.SplitsIff | parser/src/ast.rs:371-607 | beneath any node a comma splits exactly when the node passes `Runtime` for list down to such a comma |
| ContextResolve.RuntimeCommaDropsItsFirstItem | parser/src/ast.rs:585-597 | the smallest program where it does not |

## Left out

- Storage forms other than inline, compressed, packed and plain bytes in equality and comparison: immortal, static, view, UUID and hex forms give their bytes and take the plain path.
- The vector kernels for digit runs; the word loop they fall through to is modelled.
- Floating-point values: parsing and `{:.14e}` formatting are opaque, as is the shortcut to infinity past 309 digits. A float is what its digits and exponent are.
- Weak memory orderings: atomic steps are sequentially consistent, and the refcount is unbounded, so its overflow abort is not modelled.
- Character counts and scan states riding along in `append_heap_in_place`: the transitions are modelled in `Transitions`, the bytes in `CowProtocol`.
- Immortal and static images, which carry no count, and the external owners of adopted buffers, which are cells owning their bytes.
- The system barrier, the allocator backend, and size classes, beyond granting at least the request or failing.
- The internals of hashbrown, IndexMap and imbl: a table of buckets, an entry sequence, and a map with some listing of its keys. Key hashing, laundering and the read lock are left out.
- Drop-exactly-once of stored values in the array: slot contents are modelled, not destructor runs.
- Canonical representation of a whole string across codecs: canonicity is per codec, for the lengths each is given.
- The weak count and the thread-local teardown fallback of the release worklist.
- `effective_utf8`, BOM detection and UTF-16 transcoding, and offsets past 32 bits.
- Line numbers after a heredoc is popped: the terminator is never counted in the code shown.
- Heredoc.StampIndent: a cursor past a narrowed line's end reads as an empty rest, where slicing would panic; `Heredoc.CursorWithinIff` says exactly when that is.
- Latin1.UpgradeInPlace: asks for fewer than 2^32 high bytes, past which the count may wrap (`Words.CountIsExactIff`).
- The table of paired delimiters: any pair of distinct nonempty delimiters without a newline inside is allowed.
- Constructors and spans of syntax nodes, and the stamping constructors do: whatever they stamped is the starting state. A missing block is an empty one.
- Debug and Display rendering, warning text, and the finite tables of keywords, pragmas and errors.
