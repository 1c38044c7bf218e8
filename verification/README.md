# Verification of the file search daemon and its codecs

This project models the hard parts of the search daemon in `filesearch/` and of the streaming
base64 codec in `browserGtk/base64/`, and proves what they promise. `dafny verify dfyconfig.toml`
checks all of it.

**String matchers** (`chars`, `kmp`, `boyer_moore`, `turbo_bm`, `turbo_trap`, `bits`, `bit_parallel`, `hanzi`).
Every fast matcher is measured against `brute_force`: KMP, Boyer-Moore, BNDM and Shift-Or agree with
it in both case modes, with the meaning of every table and every bit proved on the way. Turbo-BM
does not agree, see below. The packed search over three-byte Chinese characters finds the earliest
of them, and the search over blocks of ten homophones is characterised exactly.

**History ring** (`history`). A ring of MAX slots with pinned view positions: the translation
between positions and slots is a bijection, and adding, deleting, pinning and unpinning do to the
view what they should, for all VIEW and MAX with VIEW + 1 < MAX.

**File index** (`file_tree`, `file_edits`, `file_index`, `journal`, `build_dir`, `loaded_list`, `scan`, `index_store`,
`tree_records`, `index_round_trip`, `index_io`, `streams`, `little_endian`). Memory is a map from addresses to
entries, so a freed entry is absent and a stale address dangles. Moving, renaming and deleting keep
parent and child links consistent, acyclic and counted. Replaying any run of journal records leaves
the tree that the records describe. A list of records in any order, scanned or read from any bytes, is
attached to the directories it names, and the result is sound exactly when ids are unique and parent ids
make no cycle. Any sound index written to a file and read back is the same tree with the same child order.

**Codecs** (`md5`, `memory`, `file_digest`, `base64`, `base64_decode`). Both are buffered code that
is equal to a one-shot specification for every way of cutting the input: MD5 for any block
function (RFC 1321, sections 3.1 to 3.5), base64 in both directions (RFC 2440, sections 6.3 to 6.5).

**Pinyin, keys and order** (`pinyin`, `packed_keys`, `path_order`). Every segmentation of a text
into syllables is enumerated once and its fuzzy closure is exact; packed dates and sizes keep the
order and say how precisely they keep the value; the path order is a total preorder.

Where the code does less than its purpose or its comments say, the model follows the code. For each of
these the exact condition is proved:

- Turbo-BM (`filesearch/str_match.c:230-233`): when the bad-character shift wins, the code also
  insists on a shift of at least u + 1, which can jump over an occurrence. `TurboExact` gives the
  condition on the pattern under which it never does, and `FooledMissesIt` a concrete miss.
- BNDM and Shift-Or look at no more than 32 bytes of the pattern: the clamp at
  `filesearch/str_match.c:322` is to the pointer width, but the masks are 32 bits wide.
- `hz_match_one` passes length 0 for the last block when the number of homophones is a positive
  multiple of ten, so ten of them are not looked for (`filesearch/chinese.c:144-145`).
- `history_delete` does not move up "the next record" as `filesearch/history.h:18-20` says; it moves
  the record of view position MAX-2 and blanks that position. The two agree before that position exactly
  when the two records are equal (`DeleteTakesNext`); `DeleteSkipsNext` is a state where they are not.
- `renameFile` replaces the node, and the id-to-directory map keeps the freed one when a directory is
  renamed in place (`RenameSound`); so such records are excluded from the replay
  (`filesearch/fs_common2.cpp:171-194`).
- A rename record into another directory moves the entry and drops the new name
  (`filesearch/ntfs.c:180-187`); `NamesAfter` says exactly which names are wrong after a run of records,
  and `MovedKeepsOldName` is a run of two records with a wrong one.
- The root test of `readfile` (`filesearch/write.c:273`) uses a macro without parentheses: it refuses
  a root whose id has a zero low word, not one that differs from 5. `RootTestExact` says when the two agree.
- `MD5Update` reads past its input when `i + 63` wraps, which takes an input of more than
  2^32 - 64 bytes; `GuardIsExact` says exactly when, and `LongestWraps` is such an input.
- `parse_pinyin_1` drops the prefix already read when it meets two words around an apostrophe: "woxi'an"
  is read as "xi an" (`WoIsLost`). `LostExactly` says when words are lost.
- Dates outside 1990 to 2021 and sizes of 1024 * 10^9 bytes or more do not survive their packing.
- A failure value above 127 does not fit the eight-bit entries of the KMP table; up to 128 bytes there is none
  (`ShortFits`, `TableFits`), but 129 equal bytes before another one make one (`LongMisfits`).
- An entry with id 0 is looked for among its siblings by a prefix of the name
  (`filesearch/fs_common2.cpp:157`), so a sibling may be erased in its place: `EraseByName` says exactly when it is
  not, `WrongSiblingErased` is a case where it is.

Bytes are the integers 0 to 255, characters of names as well, although the source's `UTF8` is a
plain `char` (`filesearch/env.h:112`) and no build file makes that unsigned. Where it is signed, a byte of 128 or
more indexes the tables of Boyer-Moore, Turbo-BM, BNDM, Shift-Or and the character search (`bmBc`, `prestr`,
`preNext`) below their start; there the matcher theorems speak of bytes below 128 only. KMP indexes no table by
a byte. Without case, `STR_CMP` compares with `strnicmp`, which stops at a NUL, so `BruteForce` is for names and
patterns without NUL. Machine words, casts, shifts and wrap-around are written out where they matter.

## Model

| member | source | states |
|---|---|---|
| Chars.CharEquIsFold | filesearch/str_match.c:91 | `CHAR_EQU` is equality of case-folded bytes, hence an equivalence, in both case modes |
| Chars.CharEquExact | filesearch/str_match.c:6-91 | which bytes CHAR_EQU does not tell apart: without case the two forms of each of the letters A to Z and nothing else, with case none |
| Chars.OccursFolds | filesearch/str_match.c:46-54 | a pattern occurs in a text exactly when its folding occurs in the folded text |
| Chars.WindowEqual | filesearch/str_match.c:10-15 | one window compared: true exactly when every byte is `CHAR_EQU` to its partner |
| Chars.BruteForce | filesearch/str_match.c:46-54 | the specification matcher: true exactly when some window matches |
| Kmp.PreKmp | filesearch/str_match.c:93-108 | the table is the strong failure function: the longest border followed by another byte, or -1; for every pattern whose values fit an eight-bit entry |
| Kmp.ShortFits | filesearch/str_match.c:93-108 | the values fit for every pattern of at most 128 bytes |
| Kmp.TableFits | filesearch/str_match.c:93-108 | and where they do not fit, no table of such entries is right |
| Kmp.LongMisfits | filesearch/str_match.c:93-108 | after 129 equal bytes and another one the value is 128, which does not fit |
| Kmp.EntryIsStrong | filesearch/str_match.c:101-106 | copying the entry of the border when the next bytes are equal gives the strong value, else the border itself is it |
| Kmp.FallbackStep | filesearch/str_match.c:99-100 | following the table never drops a border that the next byte could extend |
| Kmp.FallbackStops | filesearch/str_match.c:98-102 | where the fallback stops, one more byte gives the longest border of the longer prefix |
| Kmp.CandidateStep | filesearch/str_match.c:115-116 | after a mismatch in the search, no longer match that the text byte could extend is lost |
| Kmp.TableOfPrefix | filesearch/str_match.c:93-108 | the table computed with the extra byte x[m] serves the pattern of m bytes |
| Kmp.Search | filesearch/str_match.c:111-125 | `KMP` is true exactly when the pattern occurs; at most twice as many comparisons as text bytes over all fallback loops together |
| BoyerMoore.SuffixCopied | filesearch/str_match.c:152-153 | inside a known run, the longest common suffix is the one of the mirror position |
| BoyerMoore.SuffixResumed | filesearch/str_match.c:154-160 | otherwise the run can be resumed at its left end without comparing anything twice |
| BoyerMoore.Suffixes | filesearch/str_match.c:146-163 | `suffixes` gives at each i the length of the longest common suffix of x[..i+1] and x |
| BoyerMoore.ShiftStep | filesearch/str_match.c:178-179 | recording the shift of one position keeps every entry least among the shifts seen |
| BoyerMoore.PreBmGs | filesearch/str_match.c:165-180 | each entry is the smallest shift consistent with what a mismatch there has shown, and at least 1 |
| BoyerMoore.PreBmBc | filesearch/str_match.c:128-143 | each entry is the distance from the end to the last place of that byte (in either case), before the last position |
| BoyerMoore.OccurrenceIsCompatible | filesearch/str_match.c:187-202 | an occurrence to the right of a mismatch is a shift that the good-suffix table does not skip |
| BoyerMoore.ShiftsAreSafe | filesearch/str_match.c:199-200 | no occurrence lies strictly inside the larger of the two shifts |
| BoyerMoore.BM | filesearch/str_match.c:187-202 | `BM` is true exactly when the pattern occurs, in both case modes |
| TurboBM.GoodIsTable | filesearch/str_match.c:165-180 | the good-suffix shift as a function of the pattern is the table that `preBmGs` fills |
| TurboBM.BadIsTable | filesearch/str_match.c:128-144 | the bad-character entry as a function of the pattern is the table that `preBmBc` fills |
| TurboBM.ScanMatches | filesearch/str_match.c:211-216 | the scan that jumps over the remembered factor stops at a genuine mismatch, with everything to its right matched |
| TurboBM.TurboShiftSafe | filesearch/str_match.c:223-227 | the turbo shift never jumps over an occurrence |
| TurboBM.NoneWithinMemory | filesearch/str_match.c:231-232 | when the scan went past the remembered factor, the extended shift u + 1 is safe |
| TurboBM.JumpedIsTrap | filesearch/str_match.c:231-232 | an occurrence that the extended shift u + 1 jumps over springs the trap of the pattern |
| TurboTrap.TrapMisses | filesearch/str_match.c:204-239 | a pattern with a trap has a text on which the search walks past an occurrence and answers 0 |
| TurboTrap.ConfusableMisses | filesearch/str_match.c:204-239 | for every confusable pattern there is a text that contains it and on which `TBM` answers 0 |
| TurboBM.NotConfusableFinds | filesearch/str_match.c:204-239 | for every other pattern and every text `TBM` agrees with the specification matcher |
| TurboTrap.TurboExact | filesearch/str_match.c:204-239 | `TBM` is correct for a pattern over all texts if and only if the pattern is not confusable |
| TurboBM.TBM | filesearch/str_match.c:204-239 | the method computes the answer above on the two tables, terminates, and is right for patterns that are not confusable |
| TurboTrap.FooledMissesIt | filesearch/str_match.c:230-234 | a concrete miss: "abacaaba" lies on "bbacaabaabacaaba" at offset 8 and `TBM` answers 0 |
| BitParallel.PreBNDM | filesearch/str_match.c:302-317 | bit b of a byte's word is set exactly when that byte (in either case) is at distance b from the pattern's end, b < 32 |
| BitParallel.ReadStep | filesearch/str_match.c:328-330 | after t bytes of the window bit b means x[m-1-b..m-1-b+t) equals the last t window bytes |
| BitParallel.StateStep | filesearch/str_match.c:328-338 | one turn of the inner loop keeps that meaning, and the suggested shift with it |
| BitParallel.WindowAdvances | filesearch/str_match.c:324-340 | every shift is at least 1 and skips no occurrence |
| BitParallel.BNDM | filesearch/str_match.c:319-342 | for every pattern length: true exactly when the last w = min(m, clamp) bytes occur and w <= 32; so equal to the specification up to 32 bytes |
| BitParallel.BndmExact | filesearch/str_match.c:319-342 | `BNDM` agrees with the specification matcher on all texts if and only if the pattern has at most 32 bytes |
| BitParallel.ShiftOrExact | filesearch/str_match.c:366-375 | and so does Shift-Or |
| BitParallel.Substr | filesearch/str_match.c:380-388 | the live matcher with its preprocessing gives that answer, for up to 32 bytes the specification's |
| BitParallel.BelowLimMeansFound | filesearch/str_match.c:366-375 | `state < lim` holds exactly when the whole pattern (its first 32 bytes) ends at the byte just read |
| BitParallel.ShiftOr.PreShiftOr | filesearch/str_match.c:345-364 | a clear bit b means the byte is x[b] (in either case); `lim` is the complement of the low bits |
| BitParallel.ShiftOr.Search | filesearch/str_match.c:366-375 | Shift-Or is true exactly when the first min(m, 32) bytes of the pattern occur |
| Hanzi.ShiftsBit | filesearch/str_match.c:271-272 | the ten shift and mask words: which bits may be shifted into, and which are first bytes of a character |
| Hanzi.PreBndmHzMulti | filesearch/str_match.c:241-247 | the table of a list of three-byte characters is filled at its place and nowhere else |
| Hanzi.HzScanStep | filesearch/str_match.c:283-296 | one turn of the inner loop: no match crosses a character boundary, and the shift skips no first byte that was seen |
| Hanzi.BndmHzMulti | filesearch/str_match.c:274-300 | the end of the earliest occurrence of any character of the list, or 0 |
| Hanzi.PreBndmCn | filesearch/chinese.c:118-132 | one table per block of ten homophones, the last block getting count % 10 of them |
| Hanzi.CoveredByBlocks | filesearch/chinese.c:118-150 | the blocks hold exactly the covered characters |
| Hanzi.HzMatchOne | filesearch/chinese.c:134-150 | non-zero exactly when a covered character occurs, and then the end of such a place |
| Hanzi.HzMatchExact | filesearch/chinese.c:134-150 | it looks for every homophone if and only if their number is not a positive multiple of ten (or the last ten are repetitions) |
| History.SlotOfInjective | filesearch/history.c:60-75 | two view positions never show the same slot |
| History.SlotOfOnto | filesearch/history.c:60-75 | every slot is shown at some position: with the above a bijection on [0, MAX) |
| History.FreeSlotsCount | filesearch/history.c:33-41 | as many free slots as unpinned positions; the start is never pinned and is the last of them |
| History.FreeTurns | filesearch/history.c:53-58 | a step of the start over a pinned slot changes nothing, over a free slot it moves that slot from last to first |
| History.PinKeepsView | filesearch/history.c:144-150 | pinning a position changes neither what it shows nor what any other position shows |
| History.UnpinReturnsSlot | filesearch/history.c:158-160 | unpinning puts the slot back at its place among the free ones and keeps every invariant |
| History.AddShifts | filesearch/history.c:123-132 | writing at the start and moving it turns the unpinned sequence into the new record followed by all but the last |
| History.LastButOne | filesearch/history.c:134-142 | the slot after the start is that of view position MAX-2, which is never pinned |
| History.UnpinnedPlace | filesearch/history.c:60-75 | the record at an unpinned position is the one at its place in the unpinned sequence |
| History.History.constructor | filesearch/history.c:5-15 | nothing pinned, every position blank, for any VIEW and MAX with VIEW + 1 < MAX |
| History.History.Occupied | filesearch/history.c:33-41 | true exactly for the slots of valid pins |
| History.History.PinnedBefore | filesearch/history.c:25-31 | the number of pinned positions before one |
| History.History.NIndexFromW | filesearch/history.c:60-75 | the counting loop ends, at the slot of the position |
| History.History.IncStart | filesearch/history.c:53-58 | the loop ends at a free slot; the slot left behind becomes the first unpinned one |
| History.History.HistoryGet | filesearch/history.c:190-192 | the record shown at a position |
| History.History.InView | filesearch/history.c:118-128 | true exactly when the file is shown on the home page |
| History.History.HistoryAdd | filesearch/history.c:123-132 | a file in view changes nothing; any other becomes first of the unpinned records, the last is dropped, and pinned positions show what they showed |
| History.History.SlotAfterStart | filesearch/history.c:134-139 | the walk ends at the slot of view position MAX-2 |
| History.History.HistoryDelete | filesearch/history.c:134-142 | the record of position MAX-2 moves to the deleted position, MAX-2 becomes blank, nothing else changes |
| History.DeleteTakesNext | filesearch/history.h:18-20 | the next record moves to a deleted position before MAX-2 if and only if it equals the record of MAX-2 |
| History.DeleteSkipsNext | filesearch/history.h:18-20 | a valid state with four slots showing a, b, c, d in which deleting the first shows c there, not b |
| History.History.HistoryPin | filesearch/history.c:144-150 | exactly that position becomes pinned (if it is on the home page) and no position shows another slot |
| History.History.HistoryUnpin | filesearch/history.c:158-160 | exactly that position becomes unpinned, its slot returns to the ring and its record to the unpinned ones, which otherwise stay in order; positions still pinned show what they showed |
| History.UnpinReturnsRecord | filesearch/history.c:158-160 | the record of the unpinned position joins the unpinned records, none of which is lost or moved past another |
| FileTree.UnderUnfolds | filesearch/fs_common2.cpp:196-232 | hanging below an entry, as the closure of the parent pointers |
| FileTree.LinkLinked | filesearch/fs_common2.cpp:108-120 | attaching a detached entry keeps parent and child links consistent |
| FileTree.MovedLinked | filesearch/fs_common2.cpp:196-201 | a move keeps parent and child links mutually consistent, each child in exactly its parent's vector, once |
| FileTree.MovedRanked | filesearch/fs_common2.cpp:196-201 | a move to a directory outside the moved subtree keeps the tree acyclic |
| FileTree.MovedKeeps | filesearch/fs_common2.cpp:196-201 | a move keeps every address, id, kind and name, and changes one parent pointer |
| FileTree.RenamedLinked | filesearch/fs_common2.cpp:171-194 | replacing an entry by its renamed copy keeps the links consistent and acyclic |
| FileTree.DeletedLinked | filesearch/fs_common2.cpp:221-232 | unlinking an entry and freeing its subtree keeps the links consistent and acyclic |
| FileTree.TreeDeletedLinked | filesearch/main_win.c:85-90 | freeing a whole tree from its root leaves the links of the others consistent and acyclic |
| FileTree.OneTree | filesearch/main_win.c:85-90 | when only one entry is without a parent, every entry hangs below it |
| FileEdits.TreeDeleted | filesearch/main_win.c:85-90 | deleting the root leaves links, ids and count in order, and nothing if and only if every entry hung below it |
| FileTree.UnderSomeChild | filesearch/fs_common2.cpp:203-219 | what hangs below a directory, other than itself, hangs below one of its children |
| FileTree.SiblingsDisjoint | filesearch/fs_common2.cpp:203-219 | and below only one of them: no entry is freed twice |
| FileTree.BelowIsSubtree | filesearch/fs_common2.cpp:203-219 | a subtree is its top and the subtrees of its children, disjointly |
| FileEdits.EraseIsRemove | filesearch/fs_common2.cpp:149-169 | with unique ids, erasing the first child with the same id erases the entry itself |
| FileEdits.EraseByName | filesearch/fs_common2.cpp:149-169 | an entry with id 0 is erased itself if and only if no sibling before it has a name beginning with its name |
| FileEdits.WrongSiblingErased | filesearch/fs_common2.cpp:149-169 | of "ab" and "a", in this order and without ids, erasing "a" erases "ab" |
| FileEdits.RenameSteps | filesearch/fs_common2.cpp:171-194 | although the copy with the same id is appended first, the entry erased is the old one |
| FileEdits.RenameSound | filesearch/fs_common2.cpp:171-194 | after a rename the map finds every live directory if and only if the renamed entry is not a directory |
| FileIndex.Index.AddChildren | filesearch/fs_common2.cpp:108-120 | the parent pointer is set and the entry is appended to the vector |
| FileIndex.Index.Add2Map | filesearch/fs_common2.cpp:122-125 | appended to the list, and to the map if it is a directory |
| FileIndex.Index.DeleteFromParentVector | filesearch/fs_common2.cpp:149-169 | the first child that the entry is taken for is erased, if there is one: the same id or, for an entry with id 0, a name beginning with its name |
| FileIndex.Index.MoveFile | filesearch/fs_common2.cpp:196-201 | exactly the moved tree results; the invariant and the map survive; NULL arguments change nothing |
| FileIndex.Index.RenameFile | filesearch/fs_common2.cpp:171-194 | exactly the renamed tree results; ids and count are conserved; the map survives if and only if the entry is no directory |
| FileIndex.Index.RedirectChildren | filesearch/fs_common2.cpp:186-190 | every child of the old entry points to the new one, and nothing else changes |
| FileIndex.Index.DeleteDir | filesearch/fs_common2.cpp:203-219 | exactly the subtree is freed, and the count drops by its size |
| FileIndex.Index.DeleteFile | filesearch/fs_common2.cpp:221-232 | an entry, or the root as the readers leave it: it leaves its parent's vector if it has one, exactly its subtree is freed, the count drops by its size; links, ranks, ids and count stay in order; nothing is left if and only if it was the only entry without a parent |
| FileIndex.Index.FindFile | filesearch/fs_common.c:25-33 | the child with that id of the directory with that id, or NULL when there is none |
| FileIndex.Index.InitFileEntry | filesearch/ntfs.c:83-103 | a new unattached entry, listed, counted, and in the map if it is a directory |
| FileIndex.Index.AttachParent | filesearch/fs_common.c:13-23 | linked below the directory that its parent id names, if the map knows it; the root is left alone |
| Journal.ClimbShown | filesearch/ntfs.c:167-196 | climbing parent pointers in memory is climbing parent ids on the volume |
| Journal.ShowsItsVolume | filesearch/ntfs.c:167-196 | a tree shows its own volume of parents, kinds, names and attributes, and no other |
| Journal.AddedShows | filesearch/ntfs.c:154-160 | the tree after a create record shows the volume with the new id, its name and its attributes |
| Journal.MovedShows | filesearch/ntfs.c:180-187 | the tree after a move shows the volume with that id's parent changed, and its old name and attributes |
| Journal.RenamedShows | filesearch/ntfs.c:177-179 | the tree after a rename in place shows the volume with that id's name changed and nothing else |
| Journal.DeletedShows | filesearch/ntfs.c:188-195 | the tree after a delete shows the volume without everything inside the deleted id |
| Journal.DirFound | filesearch/fs_common2.cpp:135-137 | `findDir` gives the live entry of every live directory |
| Journal.FileFound | filesearch/fs_common.c:29-33 | every live id with a parent has its one entry below the entry of that parent |
| Journal.Monitor.GenFileEntryOne | filesearch/ntfs.c:154-160 | a created id appears below its directory with the kind, name and attributes of its record, and tree, map and volume stay in step |
| Journal.Monitor.UpdateFileEntry | filesearch/ntfs.c:167-196 | one record that can follow: tree, map and pending old name are in step with the volume after it |
| Journal.Monitor.Replay | filesearch/ntfs.c:167-196 | any run of records: the tree shows the fold of the records, names as the code keeps them; every entry has the attributes of the last create record of its id, or those it started with; the map finds every live directory |
| Journal.NameStep | filesearch/ntfs.c:177-187 | creates and renames in place make a kept name right; a rename into another directory leaves it right only if the name did not change |
| Journal.NamesAfter | filesearch/ntfs.c:167-196 | after any records, parents and kinds are those of the volume, and a name is wrong exactly when the last create or rename of its id was a rename into another directory to a name other than the one kept |
| Journal.MovedKeepsOldName | filesearch/ntfs.c:177-187 | a run of two records, the rename of 7 from directory 5 to 6 and from a to b, after which the tree has a where the volume has b |
| Journal.AttrsAfter | filesearch/ntfs.c:167-196 | after any records a live id has the attributes and the kind of its last create record or, without one, those it had before: moves and renames keep them |
| Journal.ClosedMatter | filesearch/ntfs.c:167-196 | a record without the close bit changes nothing: any run gives what its closed records alone give |
| Journal.DeleteUndoesCreate | filesearch/ntfs.c:167-196 | a create record and then the delete record of that id leave the volume as it was |
| LittleEndian.LeRoundTrip | filesearch/write.c:46-59 | a number below 256^w comes back from its w bytes |
| LittleEndian.FourBytes | filesearch/write.c:46-59 | of a number of four bytes the lowest is written first |
| BuildDir.BuildStep | filesearch/fs_common2.cpp:139-147 | one turn of `build_dir`: exactly one more entry joins the vector of the directory it names, wherever that stands in the list; with an unknown parent nothing changes |
| BuildDir.BuiltSound | filesearch/fs_common2.cpp:139-147 | the attached entries satisfy the invariant under a rank if and only if ids are unique, root and count are right, and the rank puts every parent before its child |
| BuildDir.PreorderIsOrdered | filesearch/fs_common2.cpp:139-147 | a list in which every parent stands before its children has such a rank |
| BuildDir.NamedKids | filesearch/fs_common2.cpp:135-147 | with unique ids a directory gets exactly the entries that name its id, in list order, and a file gets none |
| BuildDir.Build | filesearch/fs_common2.cpp:139-147 | for a list in any order: each vector holds the entries whose directory it is, in list order; links are consistent; the map is kept; the invariant holds if and only if ids are unique and parent ids make no cycle |
| IndexStore.FlagsRead | filesearch/fs_common.h:18-31 | the flag bits and the size nibble come back from the packed byte |
| IndexStore.ParseRecBytes | filesearch/write.c:256-266 | one turn of the reading loop gives back one written record, whatever follows it |
| IndexStore.ParseAllBytes | filesearch/write.c:242-295 | the reading loop gives back all written records and ends at the end of the file |
| IndexStore.AllBytesConcat | filesearch/write.c:46-68 | records written one after another |
| IndexStore.RecordLayout | filesearch/write.c:46-68 | the bytes of one record whose fields all differ: id, parent, flags and size, lengths, time bytes and suffix type, name, in this order |
| IndexStore.CutFile | filesearch/write.c:255-266 | a written file cut off anywhere is read as its whole records if fewer bytes than two keys follow them, and refused otherwise |
| IndexStore.CutRecord | filesearch/write.c:255-266 | of a record that was cut off, fewer bytes than two keys end the file, more are an error |
| IndexStore.CutPlace | filesearch/write.c:46-68 | every cut falls behind some number of whole records |
| TreeRecords.RecsDistinct | filesearch/fs_common2.cpp:55-64 | the preorder of a proper tree has no id twice and no id 0 |
| TreeRecords.ParentsFirst | filesearch/fs_common2.cpp:55-64 | every record but the first names a directory that stands before it |
| TreeRecords.KidsOfRecs | filesearch/write.c:46-68 | of a subtree's records only the first names the subtree's parent |
| LoadedList.LoadedMore | filesearch/ntfs.c:83-103 | reading one more record adds its entry to memory, list and map |
| LoadedList.LoadedIsListed | filesearch/write.c:242-295 | the entries read are a list of unattached entries that `build_dir` can take, one for each record |
| LoadedList.LoadedIds | filesearch/write.c:242-295 | ids in memory are unique and not 0 if and only if those of the records are |
| LoadedList.LoadedMap | filesearch/fs_common2.cpp:122-137 | with distinct ids the map finds every directory |
| LoadedList.PreorderBuilds | filesearch/write.c:242-295 | records with good ids, each but the first after its parent's, can be built into a sound tree |
| IndexRoundTrip.Rebuilt | filesearch/fs_common2.cpp:139-147 | a stretch of the list holding a tree's records becomes that tree when nothing outside names its ids |
| IndexRoundTrip.ReadBack | filesearch/fs_common2.cpp:139-147 | loading the records of a proper tree and attaching them gives that tree, with the same child order |
| IndexRoundTrip.SavedProper | filesearch/write.c:46-68 | what a sound index saves has unique non-zero ids, and only directories with children, in the NTFS and in the address branch |
| Streams.Stream.Read | filesearch/write.c:256-266 | fread: how many items are complete, what is consumed, and when the end is noticed |
| IndexIO.FileWriteVisitor | filesearch/write.c:46-68 | exactly the record's bytes are appended, with the parent's id or 0 |
| IndexIO.FilesIterate | filesearch/fs_common2.cpp:55-64 | the subtree's records are appended in preorder |
| IndexIO.Save | filesearch/write.c:151-175 | the whole index goes out as the records of a proper tree that it represents |
| IndexIO.ReadEntry | filesearch/write.c:255-266 | one turn of the loop on any bytes: end of file, error, or the record and how much it took |
| IndexIO.ReadFile | filesearch/write.c:242-295 | on any bytes at all: accepted exactly when they parse and the first record passes the root test; then memory holds exactly the records |
| IndexIO.Accepted | filesearch/write.c:269-282 | the bytes of a proper tree are accepted, unless on NTFS the low word of the root's id is zero |
| IndexIO.CutAccepted | filesearch/write.c:255-282 | a written file that was cut off is accepted exactly when fewer bytes than two keys follow its last whole record and its first one passes the root test |
| IndexIO.RootTestExact | filesearch/write.c:273 | the test agrees with the one it is named for if and only if the low word of the id is 0 or 5; 6 is wrongly let through |
| IndexIO.Load | filesearch/main_mac.c:16-22 | any bytes: when they are accepted, every record is attached to the directory it names, and the invariant holds if and only if ids are unique and parent ids make no cycle; the bytes of a proper tree give back that tree |
| IndexIO.RoundTrip | filesearch/write.c:46-295 | whatever sound index was written, the bytes read back and attached are the same tree under the ids written |
| Scan.GenRootFileEntry | filesearch/fs_common.c:42-56 | a new root entry with id 5, no parent and the drive's name, counted and set as the root |
| Scan.RootOfDrive | filesearch/fs_common.c:42-56 | the root of a drive has the id 5, is a directory of suffix type 2 without flags, and is named by the letter of the drive and a colon: "C:" for the third |
| Scan.ScanDrive | filesearch/main_win.c:54-62 | the scan of an NTFS drive, root listed last: whatever the order of the records, each directory holds the entries that name it, the root those that name id 5, and the invariant holds if and only if parent ids make no cycle and ids are unique |
| Scan.ScannedKids | filesearch/main_win.c:54-62 | with unique ids the vector of every directory is exactly the records that name it, in scan order |
| MD5.PaddingFills | filesearch/md5c.c:169-174 | the padding fills the last block with the fewest zeros that do (RFC 1321, section 3.1) |
| MD5.AbsorbMore | filesearch/md5c.c:137-153 | absorbing a message in two pieces with the tail carried over is absorbing it at once |
| MD5.CountAdds | filesearch/md5c.c:127-131 | the two additions with their carry keep the counters at 8 times the length modulo 2^64 |
| MD5.CutsDoNotMatter | filesearch/md5c.c:117-154 | however a message was cut into updates, state, counters and pending bytes are the same |
| MD5.InitBytes | filesearch/md5c.c:107-110 | the initial state is 01 23 45 67 89 ab cd ef fe dc ba 98 76 54 32 10 in bytes, low byte first (RFC 1321, section 3.3) |
| MD5.AbcPadded | filesearch/md5c.c:169-177 | the message "abc" is padded to one block: the byte 80, zeros, and 24 as the low byte of the length |
| MD5.GuardIsExact | filesearch/md5c.c:142-143 | the unsigned test `i + 63 < inputLen` means that a block is left if and only if no sum wraps; otherwise it reads on past the end |
| MD5.FirstInputs | filesearch/md5c.c:142-143 | with nothing pending no sum wraps, for any input whose length fits 32 bits |
| MD5.LongestWraps | filesearch/md5c.c:142-143 | with one byte pending and an input of 2^32 - 1 bytes it wraps: at the end of the input the guard lets 64 more bytes pass |
| MD5.Context.constructor | filesearch/md5c.c:101-111 | the context of the empty message, its state the bytes 01 23 45 67 to 54 32 10 |
| MD5.Context.AddBits | filesearch/md5c.c:127-131 | the counters with the carry |
| MD5.Context.TransformBlocks | filesearch/md5c.c:142-143 | all complete blocks of the input are absorbed, in order, and only the tail is left |
| MD5.Context.Update | filesearch/md5c.c:117-154 | the context of a message becomes the context of the message with the input after it |
| MD5.Context.Final | filesearch/md5c.c:159-184 | the digest of the whole message with the padding of RFC 1321, sections 3.1 and 3.2; the context is cleared |
| MD5.Encode | filesearch/md5c.c:281-294 | each word as four bytes, low byte first |
| MD5.Decode | filesearch/md5c.c:299-309 | the words whose encoding the bytes are |
| MD5.WordBytesInjective | filesearch/md5c.c:281-309 | different words encode differently, so Decode undoes Encode |
| Memory.MemCpy | filesearch/md5c.c:314-325 | the bytes are copied to their place and nothing else changes |
| FileDigest.MD5Print | filesearch/util.c:175-178 | two hexadecimal digits for each byte |
| FileDigest.HexInjective | filesearch/util.c:175-178 | different digests print differently |
| FileDigest.DigitExact | filesearch/util.c:175-178 | the digits are 0 to 9 and a to f, in this order |
| FileDigest.HighDigitFirst | filesearch/util.c:175-178 | of a byte the high digit is printed first |
| FileDigest.MD5Str | filesearch/util.c:180-188 | the printed digest of the text, for every length that fits 32 bits |
| FileDigest.MD5File | filesearch/util.c:190-202 | the printed digest of the whole file, although it is fed in pieces of 1024 bytes |
| Base64.TablesAgree | browserGtk/base64/base64.c:74-100 | the two tables are inverse to each other on the alphabet |
| Base64.Bin2AscExact | browserGtk/base64/base64.c:74-75 | the encoding table is the base64 alphabet (RFC 2440, section 6.3), entry by entry |
| Base64.Asc2BinExact | browserGtk/base64/base64.c:77-100 | the decoding table gives the place of every character of the alphabet, IGN exactly for bytes 9 to 13 and the blank, PAD exactly for the equals sign, and ERR for all others |
| Base64.EncodeLength | browserGtk/base64/base64.c:352-360 | an encoding has 4 * ceil(n / 3) characters |
| Base64.EncodeConcat | browserGtk/base64/base64.c:306-342 | whole groups encode on their own |
| Base64.Examples | browserGtk/base64/base64_test.c:26-32 | the three examples of RFC 2440, section 6.5 |
| Base64.QuadBits | browserGtk/base64/base64.c:316-324 | the shifts and masks on three bytes are the four six-bit groups of their 24 bits |
| Base64.EncodeBlock | browserGtk/base64/base64.c:306-342 | the encoding of the whole source and a NUL are written, nothing else, within base64_encode_length |
| Base64.Context.EncodeLeftover | browserGtk/base64/base64.c:142-152 | pending bytes are filled up to a group if the source has enough |
| Base64.Context.EncodeGroups | browserGtk/base64/base64.c:153-167 | all whole groups are encoded, the rest is kept |
| Base64.Context.EncodeUpdate | browserGtk/base64/base64.c:120-170 | everything sent is the encoding of the whole groups fed so far, at most 2 bytes pending; an empty source leaves dstlen unset |
| Base64.Context.EncodeFinal | browserGtk/base64/base64.c:173-193 | everything sent is the encoding of everything fed, however it was cut |
| Base64.EncodePieces | browserGtk/base64/base64_test.c:89-113 | feeding pieces, empty ones included, to update and then final gives the encoding of the whole |
| Base64Decode.PushGroup | browserGtk/base64/base64.c:240-255 | the four cases of the switch put the three bytes of a group together again |
| Base64Decode.RunStrip | browserGtk/base64/base64.c:229-231 | white space changes nothing, wherever it stands |
| Base64Decode.RunEncode | browserGtk/base64/base64.c:227-257 | running over an encoding gives the bytes back with no error and the right padding |
| Base64Decode.RunShape | browserGtk/base64/base64.c:227-257 | no error exactly for alphabet characters followed by at most two pad characters |
| Base64Decode.Accepted | browserGtk/base64/base64.c:345-349 | one-shot decoding succeeds exactly for such texts with a multiple of four characters, white space aside |
| Base64Decode.DecodeRoom | browserGtk/base64/base64.c:363-371 | bytes and NUL fit base64_decode_length, whatever the context carries over |
| Base64Decode.PutSextet | browserGtk/base64/base64.c:240-256 | the switch on the buffer through the moving pointer |
| Base64Decode.DecodeUpdate | browserGtk/base64/base64.c:196-273 | with or without a context: output, return code and carried state are those of the run; nothing is written beyond |
| Base64Decode.DecodeFinal | browserGtk/base64/base64.c:276-291 | success exactly when characters and padding make whole groups |
| Base64Decode.SessionIsRun | browserGtk/base64/base64.c:196-273 | a run cut into calls is the run over the whole text, if that has no error |
| Base64Decode.DecodesInPieces | browserGtk/base64/base64.c:196-291 | an encoding with white space anywhere, cut in any way, decodes to the original bytes with success throughout |
| Base64Decode.DecodePieces | browserGtk/base64/base64_test.c:124-148 | feeding pieces to update and then final: success exactly for the texts accepted whole, with the same bytes; an encoding with white space, cut in any way, gives back what was encoded |
| Pinyin.MatchPinyin | filesearch/chinese.cpp:27-33 | the first word from the given index that begins the text, or -1 |
| Pinyin.ExactMatchPinyin | filesearch/chinese.cpp:35-41 | the index of the word, or -1 |
| Pinyin.SegsRead | filesearch/chinese.cpp:57-73 | the enumerated lists are exactly the lists of words that spell the text |
| Pinyin.SegsOnce | filesearch/chinese.cpp:57-73 | and each of them comes once |
| Pinyin.CallReads | filesearch/chinese.cpp:43-73 | without an apostrophe a call appends its prefix before every segmentation, in that order |
| Pinyin.SplitDropsPrefix | filesearch/chinese.cpp:45-56 | two words around an apostrophe are appended without the prefix read before them |
| Pinyin.CallAround | filesearch/chinese.cpp:43-73 | of a text with an apostrophe a call finds something if and only if what follows it is a word and what precedes it can be read; all it finds is a last word of the latter, then the former |
| Pinyin.LostExactly | filesearch/chinese.cpp:43-56 | words are lost if and only if a word follows the apostrophe and what precedes it can be read but is not itself a word |
| Pinyin.WoIsLost | filesearch/chinese.cpp:43-56 | a concrete loss: "woxi'an" gives the list xi, an |
| Pinyin.ParsePinyin1 | filesearch/chinese.cpp:43-73 | exactly those lists are appended to the vector |
| Pinyin.AppendedMore | filesearch/chinese.cpp:94-125 | one row of a fuzzy table appends the variant that it makes, if that is a word, and nothing else |
| Pinyin.SwappedExactly | filesearch/chinese.c:40-41 | one step of the fuzzy tables exchanges z and zh, c and ch, s and sh or l and n at the beginning, or an and ang, en and eng or in and ing at the end, in one direction or the other, and nothing else |
| Pinyin.Mohu01 | filesearch/chinese.cpp:82-126 | exactly the one-step variants of one column, in one direction, are appended |
| Pinyin.SpreadNext | filesearch/chinese.cpp:128-140 | after a column the lists are the base lists varied in one column more |
| Pinyin.Mohu | filesearch/chinese.cpp:128-140 | the base lists stay, and the lists are all their mixes over the columns |
| Pinyin.ParsePinyin0 | filesearch/chinese.cpp:142-150 | NULL exactly when nothing can be read; else the readings first, then their variants |
| Pinyin.AllReadings | filesearch/chinese.cpp:142-150 | without an apostrophe: every segmentation once, and the set of lists is the column-wise product of words and one-step variants |
| PackedKeys.DateUnpacked | filesearch/fs_common.c:122-141 | unpacking a packed date gives it back with minutes rounded down to even |
| PackedKeys.DateSurvives | filesearch/fs_common.c:58-66 | and so do the three stored bytes, if and only if the year is from 1990 to 2021 |
| PackedKeys.DateOrder | filesearch/fs_common.c:122-175 | comparing stored keys is comparing dates to the even minute |
| PackedKeys.DateBytes | filesearch/fs_common.c:58-66 | the three stored bytes of one date, high byte first |
| PackedKeys.FileSizeShorten | filesearch/util.c:124-133 | amount and unit of the result tell the size to within the unit if and only if size < 1024 * 10^9 |
| PackedKeys.SizeTold | filesearch/util.c:124-141 | and so does the key once stored: amount * 1000^unit <= size < (amount + 1) * 1000^unit if and only if size < 1024 * 10^9 |
| PackedKeys.SizeBits | filesearch/fs_common.c:68-75 | the four and eight bits stored for 700 million bytes |
| PackedKeys.SizeOrder | filesearch/fs_common.c:68-75 | below that bound a larger file never has a smaller stored key |
| PathOrder.NameOrderLaws | filesearch/search.c:279-287 | names: antisymmetric, transitive, zero only for equal names |
| PathOrder.PathsOrderLaws | filesearch/search.c:318-339 | paths: antisymmetric, transitive, zero exactly for equal name lists |
| PathOrder.NameOrderIsBefore | filesearch/search.c:279-287 | a name comes before another exactly when it has the smaller byte where they first differ, or ends there |
| PathOrder.PathsOrderIsBefore | filesearch/search.c:318-339 | a path comes before another exactly when its name comes first where they first differ, or it ends there |
| PathOrder.LongerIsLater | filesearch/search.c:333-338 | a longer path comes after each of its beginnings |
| PathOrder.FileNameCmp | filesearch/search.c:279-287 | negative exactly when the first name has the smaller byte at the first difference or ends there, positive exactly the other way round; NULL first |
| PathOrder.Collect | filesearch/search.c:324-331 | the entries from one up to the root |
| PathOrder.PathCmp2 | filesearch/search.c:318-339 | negative exactly when the first path has the earlier name at the first difference or ends there, zero exactly for equal paths, for entries at most 32 levels deep |
| PathOrder.AncestorsFirst | filesearch/search.c:318-339 | every ancestor stands before its descendants |

## Left out

- Kmp.PreKmp: for patterns whose failure values fit an eight-bit `char`, as those of all patterns of at most 128 bytes do; how larger values wrap is not modelled.
- BoyerMoore.BM: the two halves of the shared `prestr` buffer are two arrays; patterns are at most XSIZE bytes, as the tables are.
- MD5.Context.Update: `MD5Transform` is any block function, so the rounds of RFC 1321, section 3.4, are not modelled; UINT4 is 32 bits wide as its comment says, although `unsigned long` may be wider.
- FileIndex.Index.DeleteFile: for an index whose ids are unique and not 0; so are MoveFile and RenameFile. Without ids the wrong sibling may be erased, see EraseByName.
- FileIndex.Index.DeleteFromParentVector: for names without NUL, at which `strncmp` would stop; the exception handler around the search is not modelled.
- FileIndex.Index.RenameFile: the new name is given as its UTF-8 bytes; the conversion from wide characters is a library call.
- Journal.Monitor.Replay: one drive; a record that the volume cannot follow, and a rename in place of a directory, are outside a run; file ids keep their full width, the truncating cast to KEY is not modelled.
- Journal.Monitor.GenFileEntryOne: attributes come with the record, as `is_hidden` and the like and `SuffixProcess` read them off it; the size and time that `init_size_time` asks the operating system for are not modelled.
- IndexIO.Save: the header, and the four zero bytes behind `ZERO` where KEY is wider than an int, are assumed as the writer means them.
- IndexIO.ReadFile: for a drive; the name that an offline root gets (`set_root_name_offline`) and `readfile_header` are not modelled.
- IndexIO.Load: for an empty index; what a refused file leaves in memory, and the check of every entry after `build_dir` (`check_file_entry`), are not modelled.
- Scan.ScanDrive: the records are given; how the operating system delivers them in buffers is not modelled.
- Pinyin.ParsePinyin1: the table is a parameter with words of one to six letters and known length; the six-letter entries of the built-in table have no terminator, so `strlen` runs on into the next one.
- PathOrder.PathCmp2: for at most 32 levels, the size of its two local arrays, and names without NUL bytes.
- The count of all files is per drive here; the source adds up all drives.
- `findDir` uses operator[] on the map, which also inserts NULL for an unknown id; that entry changes no later answer and is not modelled.
- Quick Search, word, begin and end matching, `w_index_from_n`, `history_unpin_`, saving and loading the history.
- `hz_match_two`, the query passes of `search.c`, statistics, sorting calls and paging.
- Scanning directories through the file system (`scanUnix`), the device calls behind the MFT and the journal, threads, pipes, sockets, services, hotkeys and all user interface.
- The Rails server and the vendored scripts.
