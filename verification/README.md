# CatCard's pure logic, modelled and proved

CatCard is hardware-wallet firmware. These files model seven of its components in Dafny, in the form
the code has, and prove what each of them is for.

- **The heap** (`heap_*.dfy`): an address-ordered, coalescing free list threaded through the free
  memory itself. `heap_free_list.dfy` is the list as a value, `heap_model.dfy` what each call does,
  `heap_safety.dfy` what holds over every run, `heap_requests.dfy` what a caller is promised, `heap.dfy` the
  loops over a byte array.
- **The fountain transport** (`alias_table.dfy`, `fountain.dfy`, `bit_words.dfy`, `generator.dfy`,
  `ur_encode.dfy`, `ur_collector.dfy`, `ur_run.dfy`): which fragments a part mixes, how a mixture is
  written and reduced, and a whole reception.
- **CBOR** (`cbor.dfy`): heads, parts, and the iterative `skip` against the recursive grammar.
- **The 7-Zip container** (`sevenz_*.dfy`): numbers, the header as the parser reads it and as the
  writer lays it out, the cursors, and sealing and opening whole archives.
- **The backup body** (`body_*.dfy`): the line writer with its sticky error, the reader, the escapes, and
  the grammar the reader is held against.
- **BBQr** (`bbqr.dfy`, `bbqr_run.dfy`): placing parts by index without holding data.
- **Block Cutter and the health tests** (`cutter_*.dfy`, `health.dfy`): flood fill, breadth-first
  search and the game's invariant; the SP 800-90B continuous tests as an online machine.

A method that changes state is tied to a relation or function on values, and the theorems are about
those. Methods keep the code's branches, their order and its constants.

What comes from outside is a parameter, with only what is needed of it: the cipher is a
length-preserving inverse pair, CRCs are any function of the bytes, the generator is any stream of
fractions below one, the base32 and hex codec is any pair that round-trips with the lengths of the
BBQr specification, JSON validity is any predicate that does not mind surrounding blanks, and random
draws are any in range. `usize` is 32 bits wide, as on the device.

Where the code and its comments disagree the model follows the code. `cbor.rs` says that every failing
read leaves the cursor where it was; `skip` can fail after advancing, and only the head readers are
shown to stay. The module comment of the collector says that only pure parts are read; `accept_mixing`
reads mixtures too. `encode.rs` calls a part number past `seq_len` an error; `part` makes a mixture of
it. The comment on the adaptive cutoff gives a derivation; 5 and 13 are taken as constants.

Some promises do not hold as they stand. `skip` steps over the two-byte form of a simple value below 32,
which RFC 8949 (section 3.3) says is not well-formed; `Cbor.SkipTakesBadSimple` is that input, and
`Cbor.SkipMeetsGrammar` says exactly when the walk and the grammar agree. And a cut into more than 48
pieces leaves more than one of them black: `CutterSafety.CutKeepsBestPiece` and
`CutterSafety.OverflowLeavesMore` are the two sides of that condition, `CutterSafety.CutKeepsCounted`
says for any number of pieces which ground and which enemies stay, and `CutterSafety.ManyPieces` gives
a grid with that many, as sound as any other state (that a game can be played to it is not claimed).
A body over 1024 bytes is cut without a word: `UrEncode.CutIsUnreadable` says that such parts, and of
those with fragments below 65536 bytes only they, are refused by whoever reads them. And a collector's `offset` can lie past the message's end, with
nothing to write there: `UrRun.PlacedPastTheEnd` is such a message, and `UrRun.PlacedDelivers` says when.

## Model

| member | source | states |
|---|---|---|
| `HeapSafety.RunsAreSafe` | crates/catcard-alloc/src/lib.rs:186-500 | after any sequence of add, allocate, free, remove and wipe: the list is sorted, aligned, of blocks of at least the minimum size and no two touching; free blocks and live extents partition the regions; `used` plus the free sizes is `size` |
| `HeapRequests.HighWaterIsPeak` | crates/catcard-alloc/src/lib.rs:300-308 | in every state of every run the high-water mark is the most that was ever in use, and was in use |
| `HeapRequests.PowersOfTwo` | crates/catcard-alloc/src/lib.rs:333-336 | the alignments a layout can have: one, and twice any of them |
| `HeapRequests.TakenIsGranted` | crates/catcard-alloc/src/lib.rs:333-428 | what best fit takes, in the terms of the request alone |
| `HeapRequests.RefusedForLackOfRoom` | crates/catcard-alloc/src/lib.rs:333-365 | refusing the rounded size refuses only requests that have no room |
| `HeapRequests.RegionTrimmed` | crates/catcard-alloc/src/lib.rs:186-200 | what is used of a region, and when nothing is |
| `HeapSafety.AddKeepsInv` | crates/catcard-alloc/src/lib.rs:186-200 | adding a region keeps the invariant |
| `HeapSafety.AllocKeepsInv` | crates/catcard-alloc/src/lib.rs:333-428 | allocating, or refusing, keeps it |
| `HeapSafety.FreeKeepsInv` | crates/catcard-alloc/src/lib.rs:435-446 | freeing any live extent keeps it |
| `HeapSafety.RemoveKeepsInv` | crates/catcard-alloc/src/lib.rs:214-272 | taking a region back, or refusing to, keeps it |
| `HeapSafety.SomeBlockFitsIffRoom` | crates/catcard-alloc/src/lib.rs:333-365 | some listed block fits exactly when some aligned address anywhere has all its bytes and its header's free: no refusal is spurious |
| `HeapSafety.LargestFreeIsExact` | crates/catcard-alloc/src/lib.rs:309-325 | a request is satisfiable exactly when it is at most the largest-free figure |
| `FreeList.CanonicalForm` | crates/catcard-alloc/src/lib.rs:453-500 | a well-formed list is a function of the set of free bytes alone |
| `FreeList.InsertedSound` | crates/catcard-alloc/src/lib.rs:453-500 | inserting a block and merging it with what it touches frees exactly its bytes and keeps the list well formed |
| `FreeList.CarvedSound` | crates/catcard-alloc/src/lib.rs:372-428 | cutting a stretch out of a block takes exactly its bytes off the list and keeps it well formed |
| `HeapModel.AlignUpIsLeast` | crates/catcard-alloc/src/lib.rs:106-108 | `align_up` gives the least multiple not below its argument |
| `HeapModel.GainIsInsert` | crates/catcard-alloc/src/lib.rs:453-500 | any well-formed list that has gained a block's bytes is the one `insert` makes |
| `HeapModel.LossIsCarve` | crates/catcard-alloc/src/lib.rs:372-428 | any well-formed list that has lost a stretch of one block is the one `take` makes |
| `HeapSafety.FreesCommute` | crates/catcard-alloc/src/lib.rs:453-500 | two blocks inserted in either order leave the same list |
| `HeapSafety.FreedStepsCommute` | crates/catcard-alloc/src/lib.rs:435-500 | freeing any two live extents in either order ends in the same state: list, live extents and figures |
| `HeapSafety.AllFreedRestoresStart` | crates/catcard-alloc/src/lib.rs:435-500 | with nothing live at the end of a run the list is exactly the one the current regions give at the start |
| `HeapSafety.RemovableIffAllFree` | crates/catcard-alloc/src/lib.rs:214-272 | a region can be taken back exactly when all its bytes are free and each neighbour left is empty or a whole block |
| `HeapSafety.TakenBackStaysOut` | crates/catcard-alloc/src/lib.rs:202-272 | a byte taken back is in no free block and no live extent of any later state, until it is added again |
| `HeapAllocator.Heap.Insert` | crates/catcard-alloc/src/lib.rs:453-500 | the nodes rewritten in memory are the list with the block inserted, and only bytes free afterwards are written |
| `HeapAllocator.Heap.AddRegion` | crates/catcard-alloc/src/lib.rs:186-200 | all of the region but less than a word at each end becomes free and `size` grows by it; nothing changes when no block of words lies within it |
| `HeapAllocator.Heap.TryAlloc` | crates/catcard-alloc/src/lib.rs:333-428 | `None`, with nothing changed, when nowhere is there an aligned address with the bytes asked for and a header in front of them all free; else the new extent holds every byte asked for from an address aligned as asked, ends less than a block past the rounded size, and comes out of the block with fewest bytes behind its first such address; no byte that was not free is written |
| `HeapAllocator.Heap.Search` | crates/catcard-alloc/src/lib.rs:337-363 | the walk finds the first of the tightest fitting blocks, or that none fits |
| `HeapAllocator.Heap.Take` | crates/catcard-alloc/src/lib.rs:372-428 | the extent, its header and the leftover block, with the figures `used` and `high_water` |
| `HeapAllocator.Heap.Dealloc` | crates/catcard-alloc/src/lib.rs:435-446 | the extent is found from the header in memory and all of it becomes free; no other live byte is written |
| `HeapAllocator.Heap.RemoveRegion` | crates/catcard-alloc/src/lib.rs:214-272 | success removes exactly the region's bytes; failure leaves list, memory and `size` as they were |
| `HeapAllocator.Heap.WipeFree` | crates/catcard-alloc/src/lib.rs:279-293 | every free byte past a block's own bookkeeping is zero, the list and every other byte unchanged |
| `HeapAllocator.Heap.LargestFree` | crates/catcard-alloc/src/lib.rs:315-325 | the figure is the largest request that would succeed |
| `AliasTable.TableIsExact` | crates/catcard-bcur/src/fountain.rs:99-149 | over exact reals, each degree's mass in the table is n*(1/(j+1))/H_n, for every number of fragments |
| `AliasTable.DegreeIsWeighed` | crates/catcard-bcur/src/fountain.rs:99-159 | the pairs of draws that give degree j+1 are one rectangle a column and together measure exactly 1/((j+1)*H_n) |
| `AliasTable.PairingLeavesNoSmall` | crates/catcard-bcur/src/fountain.rs:129-149 | when the pairing loop ends no small column is left and every large one weighs one |
| `AliasTable.PickedOnShare` | crates/catcard-bcur/src/fountain.rs:151-159 | the second draw picks a degree from a column on an interval as long as the column's share of that degree |
| `AliasTable.DegreeInRange` | crates/catcard-bcur/src/fountain.rs:99-159 | the degree is between one and the number of fragments |
| `AliasTable.BuildTable` | crates/catcard-bcur/src/fountain.rs:103-149 | the loops over the stacks build the table |
| `AliasTable.ChooseDegree` | crates/catcard-bcur/src/fountain.rs:99-159 | the degree two draws give: the first draw is in the chosen column's `n`th of the draws, the second in the column's interval for that degree |
| `Generator.Rng.NextInt` | crates/catcard-bcur/src/fountain.rs:88-90 | one draw `d` gives the number `low + k` exactly when k <= d*(high-low+1) < k+1 |
| `Fountain.DrawnAndLeft` | crates/catcard-bcur/src/fountain.rs:186-199 | drawn items and remaining items stay a permutation of what there was |
| `Fountain.ChosenIsProper` | crates/catcard-bcur/src/fountain.rs:166-200 | a nonempty set of fragment numbers in range, the part's own for a pure part and exactly `degree` of them for a mixture |
| `Fountain.CloseGap` | crates/catcard-bcur/src/fountain.rs:194-196 | shifting closes the gap the draw left |
| `Fountain.DrawInto` | crates/catcard-bcur/src/fountain.rs:181-199 | the loop marks exactly the items drawn |
| `Fountain.ChooseFragments` | crates/catcard-bcur/src/fountain.rs:166-200 | `None` for impossible counts, else the bitmap of the set: the pure part's own fragment, or as many as the degree says, each drawn where its draw falls among those left |
| `BitWords.WithSound` | crates/catcard-bcur/src/fountain.rs:214-218 | setting a bit adds the number to the set |
| `BitWords.WithoutBitSound` | crates/catcard-bcur/src/fountain.rs:220-224 | clearing a bit takes it out |
| `BitWords.CountSound` | crates/catcard-bcur/src/fountain.rs:230-232 | the count of ones is the size of the set |
| `BitWords.IsEmptySound` | crates/catcard-bcur/src/fountain.rs:234-236 | all words zero exactly when the set is empty |
| `BitWords.OnlySound` | crates/catcard-bcur/src/fountain.rs:239-244 | the only member, exactly when there is one |
| `BitWords.MinusSound` | crates/catcard-bcur/src/fountain.rs:247-251 | word-wise and-not is set difference |
| `BitWords.WithinSound` | crates/catcard-bcur/src/fountain.rs:254-259 | word-wise containment is set inclusion |
| `Cbor.Reader.Skip` | crates/catcard-bcur/src/cbor.rs:308-342 | the pending counter succeeds exactly on an item of at most 4096 data items and stands at its end; one with more is `TooDeep` |
| `Cbor.SkipMeetsGrammar` | crates/catcard-bcur/src/cbor.rs:308-355 | what the walk accepts without a bad simple value is exactly the well-formed definite-length items of that size |
| `Cbor.SkipTakesBadSimple` | crates/catcard-bcur/src/cbor.rs:315-318 | a concrete family the walk accepts and the grammar does not: F8 followed by a byte below 32 |
| `Cbor.WalkSplit` | crates/catcard-bcur/src/cbor.rs:308-342 | walking m+n items is walking m and then n |
| `Cbor.Reader.ReadHead` | crates/catcard-bcur/src/cbor.rs:171-177 | the head at the cursor; on an error the cursor stays |
| `Cbor.Reader.HeadOf` | crates/catcard-bcur/src/cbor.rs:180-187 | a head of one major type, or an error that leaves the cursor |
| `Cbor.HeadRoundTrip` | crates/catcard-bcur/src/cbor.rs:387-408 | a written head reads as its major type and argument, for every 64-bit argument |
| `Cbor.HeadReadsIff` | crates/catcard-bcur/src/cbor.rs:75-94 | a head is read exactly when one stands there whole, in any of its five lengths; reserved and indefinite forms are refused by name |
| `Cbor.WrittenIsItem` | crates/catcard-bcur/src/cbor.rs:308-342 | a written number or string is one item of the strict grammar, to its last byte |
| `Cbor.HeadIsShortest` | crates/catcard-bcur/src/cbor.rs:387-408 | no head that reads as the same is shorter |
| `Cbor.Writer.WriteHead` | crates/catcard-bcur/src/cbor.rs:387-408 | the head's bytes are appended, or there is no room |
| `Cbor.PartRoundTrip` | crates/catcard-bcur/src/cbor.rs:100-141 | an encoded five-element part reads as its header and its fragment's range |
| `Cbor.PartReadsIff` | crates/catcard-bcur/src/cbor.rs:100-138 | a part is read exactly when an array of five, four unsigned numbers of 32 bits and a whole byte string stand there |
| `Cbor.ReadPart` | crates/catcard-bcur/src/cbor.rs:100-138 | the reads and checks in the code's order |
| `UrEncode.UnmixInvertsMix` | crates/catcard-bcur/src/lib.rs:386-396 | XORing the other fragments of a mixture back out leaves the one that was missing |
| `UrEncode.PureIsFragment` | crates/catcard-bcur/src/encode.rs:157-166 | a mixture of one fragment is that fragment, padding included |
| `UrEncode.FragmentIs` | crates/catcard-bcur/src/encode.rs:157-166 | past the end of the message a fragment is zeros |
| `UrEncode.HeaderIntoWrites` | crates/catcard-bcur/src/encode.rs:149-156 | for fragments below 65536 bytes the pushes are the CBOR header, which always fits |
| `UrEncode.MixInto` | crates/catcard-bcur/src/encode.rs:157-166 | the loops append the mixture, as far as it fits |
| `UrEncode.Part` | crates/catcard-bcur/src/encode.rs:121-166 | the part's body, cut at 1024 bytes, or nothing for an impossible number |
| `UrEncode.CutIsUnreadable` | crates/catcard-bcur/src/encode.rs:148-166 | a part is readable exactly when its body is at most 1024 bytes; a longer one, which the code cuts without a word, is refused as short |
| `UrCollector.Collector.AcceptMixing` | crates/catcard-bcur/src/lib.rs:239-341 | every check in its order; type and message recorded; where a pure or reduced fragment belongs and what is left in the buffer |
| `UrRun.PlacedDelivers` | crates/catcard-bcur/src/lib.rs:326-339 | for a sender's part the first `len` bytes left are the message's bytes at `offset`, and all of the fragment that is message; `offset + len` is within the message exactly when the fragment starts within it |
| `UrRun.PlacedPastTheEnd` | crates/catcard-bcur/src/lib.rs:326-328 | a concrete fragment that does not: five bytes cut in four put the last at six, with length zero |
| `UrRun.OthersRefused` | crates/catcard-bcur/src/lib.rs:281-292 | with a message being collected, a sound part of another is refused, by type when the types differ but for case and by `Mismatch` when a length or the checksum does; no other is |
| `UrCollector.SameTypeIff` | crates/catcard-bcur/src/lib.rs:284-286 | types agree exactly when they do letter by letter, whatever the case |
| `UrEncode.FragmentIsLeast` | crates/catcard-bcur/src/encode.rs:131 | fragments are as short as can hold the message |
| `UrCollector.Collector.Unmix` | crates/catcard-bcur/src/lib.rs:359-398 | refused unless exactly one fragment is missing and the others are held; else the mixture is reduced in place |
| `UrCollector.Collector.Target` | crates/catcard-bcur/src/lib.rs:372-384 | the only chosen fragment not stored |
| `UrCollector.Collector.Confirm` | crates/catcard-bcur/src/lib.rs:401-413 | the fragment is counted once |
| `UrCollector.LowerTwice` | crates/catcard-bcur/src/lib.rs:301-309 | lower-casing is settled after once, so the recorded type still agrees |
| `UrRun.Collect` | crates/catcard-bcur/src/lib.rs:239-424 | any parts in any order with repeats: what is counted is what peeling stores, each stored fragment is the message's own padding and all; a caller that writes only `len` bytes at `offset` holds exactly the message on completion and nothing past it; `verify` then accepts just what has the message's checksum |
| `UrRun.Feed` | crates/catcard-fw/src/qrload.rs:383-407 | one caller step: accept, hand on `len` bytes at `offset` and store the padded fragment when new, confirm; every mixture that is placed is new |
| `UrRun.CompleteIsMessage` | crates/catcard-bcur/src/lib.rs:209-211 | complete implies the held prefix is the message and its checksum agrees |
| `UrRun.AssembledIsMessage` | crates/catcard-bcur/src/lib.rs:322-325 | with every fragment in its slot the buffer begins with the message |
| `UrRun.ReducedIsFragment` | crates/catcard-bcur/src/lib.rs:359-398 | reducing a sender's mixture against what is held gives the missing fragment |
| `UrRun.Admitted` | crates/catcard-bcur/src/lib.rs:253-298 | a sender's own parts, sequenced or whole, pass every check |
| `UrRun.SeenGrows` | crates/catcard-bcur/src/lib.rs:401-413 | nothing stored is lost, and only fragments of the message are stored |
| `UrRun.PurePartsSuffice` | crates/catcard-bcur/src/lib.rs:314-319 | once every pure part has been met the collection is complete, whatever came between |
| `CutterSafety.RunsAreSafe` | apps/games/src/lib.rs:524-815 | in every state of every run the claimed squares are one 4-connected piece, every enemy is on black, and a player not drawing is on a claimed border square while any black is left |
| `CutterSafety.NewLevelIsSafe` | apps/games/src/lib.rs:524-548 | a new level is such a state |
| `CutterSafety.CutKeepsGround` | apps/games/src/lib.rs:686-770 | a cut leaves the claimed ground in one piece, no line, and the enemies on black |
| `CutterSafety.PlayerStepKeepsInv` | apps/games/src/lib.rs:619-681 | every step of the player keeps it |
| `CutterSafety.EnemyStepKeepsInv` | apps/games/src/lib.rs:774-815 | every step of the enemies keeps it |
| `CutterSafety.RespawnKeepsInv` | apps/games/src/lib.rs:605-617 | a respawn keeps it |
| `CutterSafety.OnlyTheLineIsBreached` | apps/games/src/lib.rs:807-812 | an enemy step only ever ends the run at the line: the test for standing on the player never fires |
| `CutterSafety.SteppedIsSwept` | apps/games/src/lib.rs:774-815 | what the enemies did, square by square, in terms of the grid alone |
| `CutterSafety.BorderIsFound` | apps/games/src/lib.rs:563-599 | with no line and any black left, the square found is claimed, on the border and nearest |
| `CutterModel.BorderPlayerStays` | apps/games/src/lib.rs:564-567 | a player already on the border stays |
| `CutterGrid.BlackHasBorder` | apps/games/src/lib.rs:550-558 | left of any black square there is a claimed border square |
| `CutterGrid.OnBorderIff` | apps/games/src/lib.rs:550-558 | a border square is one with a black square among the nine around it |
| `CutterSafety.AllLabelledIff` | apps/games/src/lib.rs:698-705 | every black square is labelled exactly when there are at most 48 pieces |
| `CutterSafety.CutKeepsBestPiece` | apps/games/src/lib.rs:686-770 | then what stays black is exactly one former piece: every other has fewer enemies, or as many and fewer squares, or as many of both and comes later; the enemies left are those on it in order |
| `CutterSafety.CutKeepsCounted` | apps/games/src/lib.rs:686-770 | however many pieces: what stays black is the best of the first 48 pieces in reading order and every piece after them, and the enemies left are exactly those on that best piece; one standing on a later piece is removed though its ground stays black |
| `CutterSafety.FewAreCounted` | apps/games/src/lib.rs:703-705 | with at most 48 pieces every piece is counted and no ground is left over |
| `CutterSafety.ManyPieces` | apps/games/src/lib.rs:703-705 | a state that satisfies the game's invariant and has more than 48 pieces |
| `CutterSafety.OverflowLeavesMore` | apps/games/src/lib.rs:703-705 | with more pieces than that, what stays black is not one piece |
| `CutterSearch.NearestFrom` | apps/games/src/lib.rs:564-598 | the breadth-first loop ends at a border square at minimum walking distance, or at the start when none can be walked to |
| `CutterSearch.QueueHasRoom` | apps/games/src/lib.rs:568-596 | the queue never overruns |
| `CutterSearch.FoundIsNearest` | apps/games/src/lib.rs:574-582 | the first border square met is nearest |
| `CutterLabels.Flood` | apps/games/src/lib.rs:706-743 | one flood numbers exactly one piece and counts its squares |
| `CutterLabels.LabelPieces` | apps/games/src/lib.rs:698-744 | same label exactly when a path of black squares joins, in the order of least squares, up to 48 |
| `CutterLabels.CountEnemies` | apps/games/src/lib.rs:746-751 | the enemies on each piece |
| `CutterLabels.PickWinner` | apps/games/src/lib.rs:753-762 | the first piece no other beats |
| `BlockCutter.Cutter.CloseCut` | apps/games/src/lib.rs:686-770 | the whole cut, in place |
| `BlockCutter.Cutter.MoveToBorder` | apps/games/src/lib.rs:564-599 | the player's square after the search, nothing else changed |
| `BlockCutter.Cutter.StepPlayer` | apps/games/src/lib.rs:619-681 | one player step, in place, keeping the invariant |
| `BlockCutter.Cutter.StepEnemies` | apps/games/src/lib.rs:774-815 | in place, keeping the invariant: up to the first enemy beside the line, which ends the run, each turns round on exactly the axes whose next square is not black and goes on if the square it then faces is black, else stays |
| `BlockCutter.Cutter.Respawn` | apps/games/src/lib.rs:605-617 | the line dropped and the player back on the border |
| `BlockCutter.Cutter.StartLevel` | apps/games/src/lib.rs:524-548 | the new grid, player and enemies |
| `SevenZipNumbers.NumberRoundTrip` | crates/catcard-backup/src/sevenz.rs:961-995 | every 64-bit number reads back from its written form, consuming exactly it |
| `SevenZipNumbers.WrittenIsShortest` | crates/catcard-backup/src/sevenz.rs:977-995 | no form that reads as the same number is shorter |
| `SevenZipNumbers.WriteNumber` | crates/catcard-backup/src/sevenz.rs:977-995 | the loop writes that form |
| `SevenZipReader.Reader.Number` | crates/catcard-backup/src/sevenz.rs:961-974 | the loop over the mask reads it |
| `SevenZipLayout.HeaderRoundTrip` | crates/catcard-backup/src/sevenz.rs:339-681 | the strict parser gets back from a written header exactly what was put in, with nothing left over |
| `SevenZipLayout.EncodedHeaderRoundTrip` | crates/catcard-backup/src/sevenz.rs:205-216 | an encoded header reads as the stream it describes, and one only stored is refused |
| `SevenZipArchive.ClearHeaderIs` | crates/catcard-backup/src/sevenz.rs:835-917 | byte for byte, the header of a short body stored in the clear |
| `SevenZipLayout.UnitsSpellName` | crates/catcard-backup/src/sevenz.rs:905-914 | the UTF-16 written spells the name |
| `SevenZipLayout.FolderReads` | crates/catcard-backup/src/sevenz.rs:448-567 | the same for the folder: coders, bind pair, sizes |
| `SevenZipLayout.PropsRead` | crates/catcard-backup/src/sevenz.rs:576-600 | the same for the AES properties, for every salt of at most 16 bytes and cycles of at most 63 |
| `SevenZipLayout.UnitsAreFew` | crates/catcard-backup/src/sevenz.rs:88-94 | a name has no more UTF-16 units than UTF-8 bytes |
| `SevenZipLayout.Utf8LenIs` | crates/catcard-backup/src/sevenz.rs:88-94 | the UTF-8 length counted for a name is the least that holds each character |
| `SevenZipReader.Reader.StreamsInfo` | crates/catcard-backup/src/sevenz.rs:362-429 | the parse loop against the format, errors included |
| `SevenZipReader.Reader.UnpackInfo` | crates/catcard-backup/src/sevenz.rs:448-567 | the folder parser against the format |
| `SevenZipReader.Reader.SubstreamsInfo` | crates/catcard-backup/src/sevenz.rs:604-635 | the sub-stream parser against the format |
| `SevenZipReader.Reader.FilesInfo` | crates/catcard-backup/src/sevenz.rs:638-661 | the file list parser against the format |
| `SevenZipReader.Open` | crates/catcard-backup/src/sevenz.rs:171-218 | `open` against the format |
| `SevenZipFormat.OpenReadsIff` | crates/catcard-backup/src/sevenz.rs:171-202 | a header is read exactly when signature, both checksums and the range agree; else one of four errors |
| `SevenZipReader.FileIn` | crates/catcard-backup/src/sevenz.rs:224-233 | `file_in` against the format |
| `SevenZipWriter.Writer.WriteHeader` | crates/catcard-backup/src/sevenz.rs:835-917 | the run of writes lays the header out, in a buffer that is big enough |
| `SevenZipWriter.Writer.Finish` | crates/catcard-backup/src/sevenz.rs:1040-1046 | the length when everything fitted, else an error |
| `SevenZipArchive.ArchiveOpens` | crates/catcard-backup/src/sevenz.rs:171-218 | an archive opens as what its header says |
| `SevenZipArchive.SealRoundTrip` | crates/catcard-backup/src/sevenz.rs:730-823 | whatever is sealed opens as one file with those parameters and lengths, and decrypts with the key to the body |
| `SevenZipArchive.ClearRoundTrip` | crates/catcard-backup/src/sevenz.rs:782-823 | the same for a body sealed in the clear |
| `SevenZipArchive.WholeRoundTrip` | crates/catcard-backup/src/sevenz.rs:171-233 | an archive whose header is encrypted too opens in two steps: its header's stream, and through that the file's, which decrypts to the body |
| `SevenZipArchive.BoundIsEnough` | crates/catcard-backup/src/sevenz.rs:88-94 | a buffer of `len_bound` bytes always holds the archive |
| `SevenZipArchive.SealAt` | crates/catcard-backup/src/sevenz.rs:730-760 | the archive in the buffer, or which error |
| `SevenZipArchive.SealClearAt` | crates/catcard-backup/src/sevenz.rs:782-793 | the same in the clear |
| `SevenZipArchive.FinishArchive` | crates/catcard-backup/src/sevenz.rs:797-823 | both headers around what is stored |
| `SevenZipArchive.DecryptInPlace` | crates/catcard-backup/src/sevenz.rs:289-336 | the file at the front of the buffer, or which error: with sound lengths, `BadChecksum` exactly when a checksum is recorded and the decrypted file has another; what is handed back has it; unsound lengths leave the buffer alone |
| `SevenZipArchive.ExtractInPlace` | crates/catcard-backup/src/sevenz.rs:250-271 | the same in the clear |
| `BodyRoundTrip.WrittenIsRead` | crates/catcard-backup/src/body.rs:59-243 | any sequence of writer calls that finishes is read as exactly the fields written, in order, comments and blank lines skipped |
| `BodyRoundTrip.FieldsGiveBack` | crates/catcard-backup/src/body.rs:267-351 | each field gives back the text, the hex or the setting's name put in |
| `BodyRoundTrip.FieldLineReads` | crates/catcard-backup/src/body.rs:393-434 | one written line is one field, its value without the space around it |
| `BodyText.QuotedRoundTrip` | crates/catcard-backup/src/body.rs:211-230 | `text_into` inverts `quoted` for every string |
| `BodyText.PlainIffUnescaped` | crates/catcard-backup/src/body.rs:277-287 | `text` returns the string exactly when nothing in it was escaped |
| `BodyText.HexRoundTrip` | crates/catcard-backup/src/body.rs:354-370 | `unhex` inverts the hex writer |
| `BodyGrammar.TextIff` | crates/catcard-backup/src/body.rs:290-345 | `text_into` succeeds exactly on a quoted text spelt by JSON's escapes for which there is room, and gives what it spells |
| `BodyGrammar.HexValueIff` | crates/catcard-backup/src/body.rs:354-370 | a hex digit in either case is worth its place |
| `BodyGrammar.HexDigitIs` | crates/catcard-backup/src/body.rs:97-103 | hex is written in lower case |
| `BodyGrammar.NameOkIff` | crates/catcard-backup/src/body.rs:249-254 | a name is letters, digits, underscores, dots and dashes, at least one |
| `BodyGrammar.SplitFieldIff` | crates/catcard-backup/src/body.rs:420-434 | a line is a field exactly when it is a name, the first equals sign and a JSON value, with spaces and tabs around each |
| `BodyGrammar.NoFieldIs` | crates/catcard-backup/src/body.rs:420-434 | a line that is no field is `NotJson` when a name stands before its first equals sign, and `MalformedLine` when none does |
| `BodyGrammar.LineIsRead` | crates/catcard-backup/src/body.rs:393-417 | a line on its own: skipped, or one field before those of the lines after it, or the last error |
| `BodyText.TextInto` | crates/catcard-backup/src/body.rs:290-345 | the escape loop, errors and room included |
| `BodyText.Unhex` | crates/catcard-backup/src/body.rs:354-370 | the digit loop, errors and room included |
| `BodyFields.Fields.Next` | crates/catcard-backup/src/body.rs:393-417 | the walk yields the fields one by one and stops at the first error |
| `BodyFields.FieldsConcat` | crates/catcard-backup/src/body.rs:393-417 | whole lines and what follows them read one after the other |
| `BodyWriting.WriteBody` | crates/catcard-backup/src/body.rs:59-243 | the whole writer, sticky first error included |
| `BodyWriting.BodyWriter.PutSection` | crates/catcard-backup/src/body.rs:81-86 | a heading with one blank line above it, or which error |
| `BodyWriting.BodyWriter.PutText` | crates/catcard-backup/src/body.rs:89-93 | a string field, or which error |
| `BodyWriting.BodyWriter.PutJson` | crates/catcard-backup/src/body.rs:111-123 | a checked JSON field, or which error |
| `BodyWriting.BodyWriter.PutSetting` | crates/catcard-backup/src/body.rs:126-144 | a checked setting, or which error |
| `BbqrRun.TakeAll` | crates/catcard-bbqr/src/lib.rs:144-250 | any order of a file's parts with repeats: what is counted, each counted part at its place, and completion means the file and its length |
| `BbqrRun.TakeKeeps` | crates/catcard-bbqr/src/lib.rs:234-240 | one part keeps everything held; it is put off only as the last one met first |
| `BbqrRun.CountedAre` | crates/catcard-bbqr/src/lib.rs:181-190 | the parts counted are exactly those that came once another had given a length |
| `BbqrRun.CompleteIsFile` | crates/catcard-bbqr/src/lib.rs:246-250 | complete means the buffer is the file and `file_len` its length |
| `Bbqr.DecodableIff` | crates/catcard-bbqr/src/lib.rs:144-160 | the length test lets through exactly the lengths an encoder can produce |
| `Bbqr.EncodedLenIsLeast` | crates/catcard-bbqr/src/lib.rs:144-160 | as few characters as hold the bits |
| `Bbqr.FitsIsMost` | crates/catcard-bbqr/src/lib.rs:262-273 | the most bytes in whole groups whose line fits |
| `Bbqr.PartsNeededIsLeast` | crates/catcard-bbqr/src/lib.rs:276-282 | as many parts as it takes and no more |
| `Bbqr.Collector.Accept` | crates/catcard-bbqr/src/lib.rs:144-206 | every check in its order, what is learned, and where the part goes; a part of another encoding, type or number of parts is a `Mismatch` and changes nothing |
| `Bbqr.Collector.Confirm` | crates/catcard-bbqr/src/lib.rs:212-228 | the part is counted once, the last one's length kept |
| `Bbqr.Collector.Take` | crates/catcard-bbqr/src/lib.rs:234-240 | which error comes first and what it leaves; else the part's bytes at `index` times the part length and no other byte changed, the part counted once |
| `Health.CheckAll` | crates/catcard-entropy/src/health.rs:66-115 | for any split into reads every check passes exactly when the judged stream has no five equal bytes in a row and no aligned window with thirteen copies of its first byte |
| `Health.ContinuousTest.Check` | crates/catcard-entropy/src/health.rs:66-115 | one read: passes exactly when the stream with it is clean, what the error says, and that a constant read is called that |
| `Health.CleanNext` | crates/catcard-entropy/src/health.rs:77-112 | one more byte spoils a clean stream only by its end run or its open window |
| `Health.CleanBefore` | crates/catcard-entropy/src/health.rs:66-115 | what comes before in a clean stream is clean |
| `Health.StandsIff` | crates/catcard-entropy/src/health.rs:188-205 | the start-up test has passed exactly when the shortest run of judged reads reaching 1024 bytes is clean |
| `Health.VerdictIsFinal` | crates/catcard-entropy/src/health.rs:140-145 | neither verdict changes, whatever is read after it |
| `Health.StartupTest.Feed` | crates/catcard-entropy/src/health.rs:188-205 | one read moves the start-up test on, and a short one does not |

## Left out

- HeapModel.AlignUp: the overflow of `n + to - 1` near the top of the address space is not modelled; addresses and sizes are unbounded numbers below a 32-bit limit on the memory.
- Heap `init`, `used`, `size`, `high_water`: one call or one field each; the figures are part of the state.
- Xoshiro256** and the SHA-256 that seeds it: the generator is any stream of fractions below one, so every theorem holds for the real one.
- AliasTable.TableIsExact: over exact reals; the rounding of double precision is not modelled, and with it neither is the clamp of the column index to `n - 1` as anything but a limit never reached.
- UrEncode.Part: bytewords, the `UR:` text frame and `TooLong`; what is written for fragments of 65536 bytes and more, whose length wraps in the header, is not stated.
- UrCollector.Collector.AcceptMixing: parsing the line's text and decoding bytewords are its input; what a failed decode leaves in the scratch buffer is not modelled.
- The UR registry's own types, `encoded_len`, `single_len` and `fits`: sizes and names with no state.
- CBOR `int`, `text`, `bool`, `map`, `tag`: one head and a branch each.
- Block Cutter's drawing, keys, timers, lives and the level-clear threshold: a run is any sequence of the operations, whatever triggers them.
- CutterSearch.NearestFrom: which of several equally near border squares is found is not stated.
- SevenZipReader.Open: AES-256, SHA-256 key derivation and CRC-32 are abstract; `write`, `write_clear`, `decrypt` and `extract` are the in-place forms with a copy.
- SevenZipArchive.SealAt: the overflow of rounding a body length up to whole blocks at the top of `usize`.
- BodyText.TextInto: text is its UTF-8 bytes, so the final check that the output is UTF-8, which cannot fail on UTF-8 input, is not there.
- BodyRoundTrip.WrittenIsRead: that `quoted` output is valid JSON is assumed of the validator for the strings written, which some validator meets whatever is written (`BodyRoundTrip.SomeValidator`); the validator is not part of this model.
- Body `scan` and `Details`: a match on names over the fields.
- Bbqr.Collector.Take: after a failed decode only the bytes outside the part's own place are promised, since the decoder is handed that place to write in; trimming `=` from a line, which the caller does, is not modelled.
- BBQr header text, base32 digits and deflate: the codec is not part of this model.
- Health `check_once`: a fresh test and one check.
- The derivation of the cutoffs from a false-positive rate.
- Block Mine, Flappy, the app SDK, drivers, key derivation slicing, clone files, Tapsigner, and every host tool.
