# Splax kernel: proofs about its stateful and arithmetic cores

This project models, in Dafny 4.11, the parts of the Splax kernel that hold the most state and
arithmetic, and proves what they keep over every run and for every input:

* **RamFs** (`Paths`, `PathMap`, `RamFs`): the in-memory filesystem, an inode vector with a free list
  and a directory tree, refined to a finite map from locations to bytes or "directory".
* **SplaxFS** (`Bitmap`, `SplaxDisk`, `SplaxSteps`, `SplaxStore`, `SplaxPaths`, `SplaxFormat`,
  `SplaxFs`): the disk filesystem, bitmap allocators and direct pointers over a disk of typed 4 KiB
  blocks, with formatting, mounting, path lookup, creation, writing and reading.
* **X25519** (`Field25519`, `Powers25519`, `Ladder25519`, `Decode25519`) and **Poly1305**
  (`Poly1305`): limb arithmetic against exact integers modulo the prime, with every machine-word bound;
  `Bits` and `Congruence` hold the shared facts about words and residues.
* **Capabilities** (`CapTokens`, `CapForest`, `CapTable`) and the separate **revocation engine**
  (`DelegationForest`, `BloomFilter`, `Revocation`).
* **Block I/O** (`Cfq`, `Deadline`, `Bio`, `NvmeRing`): two schedulers, request splitting and merging,
  and the NVMe rings with the device as an interleaved actor.
* **Streaming and indexing** (`ShaStream`, `Pixels`, `Framebuffer`, `Ext4`): hash buffering and padding,
  overlapping rectangle copies, and the extent-tree search.

`Wrappers` holds optional values and duplicate-free sequences.

Objects whose methods update fields are classes; each method is proved equal to, or against, a
specification on values, and the properties are lemmas about those values. Collections that the kernel
keeps in ordered maps are `map`s, vectors are `seq`s and fixed buffers are arrays. Operations are
atomic, as they are under the kernel's locks. Time stamps and clock readings are parameters or absent.

## Where the code does not do what its documentation says

Each of these is a lemma with its exact condition, not a repair of the model:

* `RamFs` creates objects whose own path does not read back (`PathMap.CreatedFileIsReadable`,
  `PathMap.CreatedButUnreadable`).
* A grant from a revoked capability succeeds, and then a later revocation of an ancestor can miss the
  grantee (`CapForest.GrantKeepsClosed`, `CapForest.RevocationIsComplete`). `revoke` is documented to
  need the REVOKE right and does not ask for it (`CapTable.CapabilityTable.Revoke`).
* Registering a delegation token after it was named as a parent can close a cycle, from which a cascade
  does not end (`DelegationForest.RegisterKeepsForest`, `Revocation.CyclePossible`).
* `invert` raises to 2^105 - 21, not to 2^255 - 21, and so inverts exactly the twelfth roots of one
  (`Powers25519.InvertsExactlyTwelfthRoots`, `Powers25519.InvertFails`).
* The ladder's doubling is off by the square of E from RFC 7748 (`Ladder25519.DoublingDiffers`).
* The deadline scheduler loses a request when another repeats its sector (`Deadline.RepeatLoses`,
  `Deadline.LosesExactlyByRepeats`). Once it serves writes it lets all pending reads wait until the writes
  run out, so for as long as they keep arriving (`Deadline.ReadsWaitExactly`, `Deadline.ReadsWaitAtMost`,
  `Deadline.ReadsStarve`). One particular read can also wait for as long as reads nearer the head arrive
  (`Deadline.ReadServedExactly`, `Deadline.NearerReadsStarve`).
* `bio_split` leaves the transfer cursor outside its segment when it had gone beyond the cut
  (`Bio.CursorAfter`, `Bio.CursorCanBeLost`).
* `clear` ignores its colour in the 24-, 16- and 8-bit formats (`Pixels.ClearShowsColor`).
* An extent of 0x8000 blocks reads as a hole (`Ext4.CoversNothing`).
* Rewriting a SplaxFS file takes as many fresh blocks as a new one (`SplaxFs.SplaxFs.WriteFile`).

## Model

| member | source | states |
|---|---|---|
| `RamFs.RamFs.constructor` | kernel/src/fs/mod.rs:191-203 | the empty filesystem is just a root directory and satisfies the invariant |
| `RamFs.RamFs.AllocInode` | kernel/src/fs/mod.rs:206-215 | the last free index if there is one, else a new last index |
| `RamFs.RamFs.FreeInode` | kernel/src/fs/mod.rs:218-224 | the slot is cleared and freed and its bytes leave the counter; the root and bad indices are ignored |
| `RamFs.RamFs.ResolvePath` | kernel/src/fs/mod.rs:227-257 | the index found is the one placed at the location the path spells, with the same errors |
| `RamFs.RamFs.ResolveParent` | kernel/src/fs/mod.rs:260-282 | the directory and name a create or remove acts on, with the same errors |
| `RamFs.LookupIsWalk` | kernel/src/fs/mod.rs:227-257 | walking inode numbers is walking the location map |
| `RamFs.RamFs.CreateFile` | kernel/src/fs/mod.rs:285-297 | refines creation in the location map, keeping the invariant |
| `RamFs.RamFs.CreateDir` | kernel/src/fs/mod.rs:300-312 | as for files, with a directory |
| `RamFs.RamFs.ReadFile` | kernel/src/fs/mod.rs:315-324 | refines reading in the location map |
| `RamFs.RamFs.WriteFile` | kernel/src/fs/mod.rs:327-351 | refines writing; the byte counter moves by the difference and stays within the limit |
| `RamFs.RamFs.AppendFile` | kernel/src/fs/mod.rs:354-377 | refines appending, with the size and space errors |
| `RamFs.RamFs.RemoveFile` | kernel/src/fs/mod.rs:404-418 | refines removal; the counter gives back exactly the file's bytes |
| `RamFs.RamFs.RemoveDir` | kernel/src/fs/mod.rs:421-443 | refines removal of an empty directory; a nonempty one and the root are refused |
| `RamFs.FreeOrReachable` | kernel/src/fs/mod.rs:206-257 | in every reachable state an index is free exactly when no path reaches it |
| `RamFs.EdgeInto` | kernel/src/fs/mod.rs:285-312 | every live index but the root has a directory entry |
| `RamFs.OneEdgeIn` | kernel/src/fs/mod.rs:285-312 | and only one, and the root has none |
| `RamFs.DistinctPathsDistinctInodes` | kernel/src/fs/mod.rs:227-257 | different component lists never lead to the same inode, so there are no cycles |
| `RamFs.ContentInTotal` | kernel/src/fs/mod.rs:327-351 | a file's bytes are part of the counter, so the subtraction in a write cannot underflow |
| `RamFs.RamFs.ViewWellFormed` | kernel/src/fs/mod.rs:191-312 | in every reachable state every object lies in a directory, up to the root |
| `PathMap.WalkFinds` | kernel/src/fs/mod.rs:227-257 | a walk succeeds exactly at locations that exist and ends at the one spelled |
| `PathMap.TargetIsLocation` | kernel/src/fs/mod.rs:260-282 | a create acts on the location its path resolves to, unless the last component is one resolution skips |
| `PathMap.CreatedFileIsReadable` | kernel/src/fs/mod.rs:285-324 | a file just created reads back exactly when its path is at most 256 bytes and does not end in a skipped component |
| `PathMap.CreatedButUnreadable` | kernel/src/fs/mod.rs:285-324 | creating ".." in an empty filesystem succeeds and then does not read back |
| `PathMap.OnlyTheTargetChanges` | kernel/src/fs/mod.rs:327-351 | a write reads back and changes no other path |
| `PathMap.RemoveUndoesCreate` | kernel/src/fs/mod.rs:285-418 | removing a file right after it came, whatever it holds, restores the filesystem and the byte counter |
| `PathMap.RemoveFileExactly` | kernel/src/fs/mod.rs:404-418 | exactly a file can be removed; only it goes and exactly its bytes are given back |
| `PathMap.RemoveDirExactly` | kernel/src/fs/mod.rs:421-443 | exactly an empty directory can be removed, and only it goes |
| `PathMap.RemoveDirUndoesCreate` | kernel/src/fs/mod.rs:300-443 | removing a directory just created restores the filesystem |
| `PathMap.CreatedDirectoryIsUsable` | kernel/src/fs/mod.rs:300-312 | a directory just created reads as no file, takes any plain name, and nothing else changed |
| `PathMap.SuffixIgnored` | kernel/src/fs/mod.rs:227-257 | "/", "/." and "/.." at the end of a path are walked past |
| `PathMap.WalkErrors` | kernel/src/fs/mod.rs:227-257 | a walk fails for a file on its way exactly when one is there, else for something missing |
| `PathMap.WriteExactly` | kernel/src/fs/mod.rs:327-351 | exactly when a write succeeds, in terms of what the path spells, and what it leaves |
| `PathMap.AppendExactly` | kernel/src/fs/mod.rs:354-377 | the same for an append |
| `PathMap.LastWriteWins` | kernel/src/fs/mod.rs:327-351 | a second write has the outcome it would have had alone |
| `PathMap.WriteThenAppend` | kernel/src/fs/mod.rs:327-377 | writing then appending is writing the concatenation |
| `PathMap.CreateKeepsWellFormed` | kernel/src/fs/mod.rs:285-312 | creation keeps the view prefix-closed with children only under directories |
| `Paths.SplitLastComponents` | kernel/src/fs/mod.rs:260-282 | a path's components are its parent's followed by its last one |
| `Bitmap.AllocFirst` | kernel/src/fs/splaxfs.rs:1587-1614 | the lowest clear bit of a range is taken; none exactly when none is clear |
| `SplaxFormat.Format` | kernel/src/fs/splaxfs.rs:977-1072 | a device below 16 blocks is refused; otherwise the disk holds exactly a root directory and can be mounted |
| `SplaxFormat.RootOnlyIsMountable` | kernel/src/fs/splaxfs.rs:1046-1112 | the formatted disk satisfies the whole invariant, both free counters one above the clear bits |
| `SplaxPaths.LookupPath` | kernel/src/fs/splaxfs.rs:1277-1319 | the block-by-block search finds what the specification's lookup finds, an allocated inode |
| `SplaxPaths.SlashOrDot` | kernel/src/fs/splaxfs.rs:1277-1319 | "/" and "/." at the end of a path change nothing |
| `SplaxPaths.DotDotFollowed` | kernel/src/fs/splaxfs.rs:1277-1319 | "/.." leads where the directory's own ".." entry points |
| `SplaxFs.CreatedDirLeadsBack` | kernel/src/fs/splaxfs.rs:1418-1469 | from a directory just created, ".." leads to the directory it was created in |
| `SplaxDisk.PointersDistinct` | kernel/src/fs/splaxfs.rs:1376-1614 | in every reachable state nonzero direct pointers are in the data area, marked, and pairwise distinct across all inodes |
| `SplaxDisk.NodeAfterWrite` | kernel/src/fs/splaxfs.rs:1154-1187 | writing one inode changes that inode and no other |
| `SplaxFs.SplaxFs.Mount` | kernel/src/fs/splaxfs.rs:1075-1105 | the cached superblock and bitmaps are the device's first blocks; the invariant holds exactly on a mountable disk |
| `SplaxFs.SplaxFs.AllocInode` | kernel/src/fs/splaxfs.rs:1587-1600 | succeeds exactly while a clear bit is left, marks one unused inode, lowers the counter |
| `SplaxFs.SplaxFs.AllocBlock` | kernel/src/fs/splaxfs.rs:1602-1614 | succeeds exactly while a data block is clear; the block belongs to no inode |
| `SplaxFs.SplaxFs.AllocBlocks` | kernel/src/fs/splaxfs.rs:1480-1484 | distinct fresh blocks, or none left at all |
| `SplaxFs.SplaxFs.AddDirent` | kernel/src/fs/splaxfs.rs:1322-1350 | the first free slot of the directory takes the entry, or there is no room |
| `SplaxFs.SplaxFs.SyncBitmaps` | kernel/src/fs/splaxfs.rs:1353-1373 | the cached state reaches the disk and nothing that resolves or reads changes |
| `SplaxFs.SplaxFs.SyncedIsMountable` | kernel/src/fs/splaxfs.rs:1353-1373 | a synced device can be mounted again and keeps the invariant |
| `SplaxFs.SplaxFs.CreateFile` | kernel/src/fs/splaxfs.rs:1376-1415 | exact success condition; the path leads to a new empty file, and every other path fares as before, errors included, unless it asks the parent for the new name |
| `SplaxFs.SplaxFs.CreateDir` | kernel/src/fs/splaxfs.rs:1418-1469 | the same with a block, for a directory holding only its two standing entries |
| `SplaxFs.SplaxFs.WriteFile` | kernel/src/fs/splaxfs.rs:1472-1532 | exact success condition; the path reads back the data, no path moves, other inodes read as before, and the blocks counted are taken even by a rewrite |
| `SplaxFs.SplaxFs.ReadFile` | kernel/src/fs/splaxfs.rs:1535-1569 | returns exactly the bytes the inode's blocks and size denote, with the lookup's errors |
| `SplaxStore.StoreKeeps` | kernel/src/fs/splaxfs.rs:1491-1524 | storing data over shrinking and growing sizes keeps the invariant and every other inode |
| `SplaxFs.StoreLoop` | kernel/src/fs/splaxfs.rs:1491-1519 | the write loop fills empty pointers with fresh blocks and stores every chunk; its own out-of-blocks exit cannot be taken |
| `Decode25519.FromBytesValue` | kernel/src/crypto/asymmetric.rs:38-46 | the five overlapping loads denote the little-endian number without its top bit |
| `Field25519.Add` | kernel/src/crypto/asymmetric.rs:191-200 | exact sum, limb bound for what multiplication accepts |
| `Field25519.Sub` | kernel/src/crypto/asymmetric.rs:205-215 | exact difference plus twice the prime; no limb below zero |
| `Field25519.SubCong` | kernel/src/crypto/asymmetric.rs:205-215 | which is the difference modulo the prime |
| `Field25519.ColumnsFit` | kernel/src/crypto/asymmetric.rs:220-233 | with limbs below 2^54 every column sum fits 128 bits with room for a carry |
| `Field25519.ColumnsValue` | kernel/src/crypto/asymmetric.rs:220-233 | the folded columns differ from the exact product by a multiple of the prime |
| `Field25519.CarryUp` | kernel/src/crypto/asymmetric.rs:239-258 | carries preserve the value and fit their words |
| `Field25519.Fold` | kernel/src/crypto/asymmetric.rs:259-262 | the top carry folds back times 19 without wrapping |
| `Field25519.Mul` | kernel/src/crypto/asymmetric.rs:220-264 | for limbs below 2^54 the product is exact modulo the prime and its limbs are close to 51 bits |
| `Field25519.MaskIsRemainder` | kernel/src/crypto/asymmetric.rs:239-258 | the 51-bit masks are remainders |
| `Powers25519.Times` | kernel/src/crypto/asymmetric.rs:220-264 | the operator: reduced limbs, congruent to the product |
| `Powers25519.Pow` | kernel/src/crypto/asymmetric.rs:112-125 | the n-th power for every u64 n |
| `Powers25519.Invert` | kernel/src/crypto/asymmetric.rs:128-163 | for every element the (2^105 - 21)-th power |
| `Powers25519.InvertsWhen` | kernel/src/crypto/asymmetric.rs:127-163 | an inverse exactly when the (2^105 - 20)-th power is one |
| `Powers25519.InvertsExactlyTwelfthRoots` | kernel/src/crypto/asymmetric.rs:127-163 | for elements obeying Fermat's little theorem, modulo whatever number, exactly when the twelfth power is one |
| `Powers25519.InvertFails` | kernel/src/crypto/asymmetric.rs:127-163 | an invertible element that is not inverted |
| `Ladder25519.CondSwap` | kernel/src/crypto/asymmetric.rs:178-185 | choice 1 swaps and 0 does nothing; no choice byte changes the xor of the two |
| `Ladder25519.LadderStep` | kernel/src/crypto/asymmetric.rs:652-667 | one step on limbs stands for the exact integer step, with no overflow or underflow |
| `Ladder25519.AdditionFormulas` | kernel/src/crypto/asymmetric.rs:648-663 | for every state, x3 becomes 4 (x2 x3 - z2 z3)^2 and z3 becomes 4 u (x2 z3 - z2 x3)^2 modulo the prime |
| `Ladder25519.DoublingFormulas` | kernel/src/crypto/asymmetric.rs:648-666 | for every state, x2 becomes (x2^2 - z2^2)^2 and z2 becomes e ((x2 + z2)^2 + 121666 e), e being 4 x2 z2 |
| `Ladder25519.Iterate` | kernel/src/crypto/asymmetric.rs:642-667 | the lazy swap keeps the state one swap away from the textbook ladder |
| `Ladder25519.ScalarMul` | kernel/src/crypto/asymmetric.rs:632-673 | for every scalar and coordinate the result is x2 times z2^(2^105 - 21) of the exact 255-step ladder |
| `Ladder25519.LadderClimbs` | kernel/src/crypto/asymmetric.rs:636-670 | whatever states stand for, if a step turns multiples a and b one apart into 2a and a + b, the ladder ends at the scalar's multiple and the next, the scalar taken modulo 2^255 |
| `Ladder25519.BitOfNumber` | kernel/src/crypto/asymmetric.rs:643-644 | the bits read are those of the scalar's little-endian number |
| `Ladder25519.TopIsScalar` | kernel/src/crypto/asymmetric.rs:642-644 | and all 255 spell it, without its top bit |
| `Congruence.CongIsMod` | kernel/src/crypto/asymmetric.rs:220-264 | the residues the field statements speak of are remainders |
| `Ladder25519.DoublingDiffers` | kernel/src/crypto/asymmetric.rs:664-666 | the coded doubling exceeds RFC 7748's by exactly E squared modulo the prime, and E is 4 x2 z2 |
| `Poly1305.ClampIsMask` | kernel/src/crypto/cipher.rs:587-596 | the byte masks are the clamp of section 2.5 of RFC 8439 |
| `Poly1305.DecodeIsLittleEndian` | kernel/src/crypto/cipher.rs:606-629 | the shifted and masked limbs denote the little-endian number |
| `Poly1305.MultiplyLimbs` | kernel/src/crypto/cipher.rs:637-645 | the double loop is the product modulo 2^130 - 5, with no 128-bit overflow |
| `Poly1305.Carry` | kernel/src/crypto/cipher.rs:647-661 | carrying keeps the residue and restores the limb bound |
| `Poly1305.AbsorbBlock` | kernel/src/crypto/cipher.rs:617-661 | one block, full or partial, is one step of the accumulator |
| `Poly1305.Accumulate` | kernel/src/crypto/cipher.rs:586-664 | after every message the limbs are congruent to the accumulator of section 2.5 of RFC 8439 |
| `Poly1305.BlockNumberIs` | kernel/src/crypto/cipher.rs:617-620 | a block of n bytes counts as its little-endian value plus 2^(8n) |
| `Poly1305.AccumulatorIsPolynomial` | kernel/src/crypto/cipher.rs:617-661 | the accumulator is the polynomial in r with the blocks' numbers as coefficients, the first of the highest power |
| `Bits.ShiftRightIsQuotient` | kernel/src/cap/mod.rs:448-453 | shifting right by k is dividing by 2^k |
| `CapTokens.MixInjective` | kernel/src/cap/mod.rs:448-453 | the mixing closure never maps two words to one |
| `CapTokens.MakeInjective` | kernel/src/cap/mod.rs:447-464 | a token tells its counter value and its time stamp |
| `CapTable.NextIsNew` | kernel/src/cap/mod.rs:397-464 | a token from the next counter value differs from every issued one |
| `CapTable.CapabilityTable.GenerateToken` | kernel/src/cap/mod.rs:397-464 | the counter advances and all four words are mixed from it and the time stamp |
| `CapTable.CapabilityTable.InsertEntry` | kernel/src/cap/mod.rs:474-492 | a full table is refused; otherwise the entry joins table and owner index, and a new admissible one keeps the invariant |
| `CapTable.CapabilityTable.CreateRoot` | kernel/src/cap/mod.rs:202-236 | a fresh root entry and nothing else; the counter moves even when the table is full |
| `CapTable.CapabilityTable.Grant` | kernel/src/cap/mod.rs:249-296 | succeeds exactly for the owner of a GRANT-holding parent in a table with room, each error exactly when its condition holds; then the grantee alone can do what was both asked for and held by the parent, in the parent's time |
| `CapTable.GrantedUsable` | kernel/src/cap/mod.rs:249-296 | a check of the granted token passes exactly then |
| `CapTable.CapabilityTable.Check` | kernel/src/cap/mod.rs:311-345 | passes exactly when the caller owns a live, unexpired entry that covers the operation; each error exactly when its condition is the first to hold |
| `CapTable.PassedMeansAllowedByAncestors` | kernel/src/cap/mod.rs:311-345 | a passing check means every ancestor allowed the operation on the same resource |
| `CapTable.CapabilityTable.RevokeDerived` | kernel/src/cap/mod.rs:494-522 | terminates and revokes exactly the live descendants, in whatever order children are visited |
| `CapTable.CapabilityTable.Revoke` | kernel/src/cap/mod.rs:354-387 | the owner's call changes only revoked flags: those of the token and of descendants reached through live entries |
| `CapForest.RevocationIsComplete` | kernel/src/cap/mod.rs:354-387 | all descendants end revoked exactly when no live one hung under an already revoked one |
| `CapForest.ClosedStaysClosed` | kernel/src/cap/mod.rs:354-387 | if children of revoked entries are revoked, revocation reaches every descendant and keeps it so |
| `CapTable.RevokedMeansDenied` | kernel/src/cap/mod.rs:311-387 | after that no check on the token or a descendant passes |
| `CapForest.GrantKeepsClosed` | kernel/src/cap/mod.rs:249-296 | a grant keeps that property exactly when its parent is not revoked |
| `CapForest.AncestorsAttenuate` | kernel/src/cap/mod.rs:249-296 | along every derivation the resource stays, rights only shrink, and every proper ancestor holds GRANT |
| `CapForest.BranchUnique` | kernel/src/cap/mod.rs:494-522 | the subtrees of two children are disjoint |
| `DelegationForest.Validate` | kernel/src/cap/revocation.rs:162-186 | the first node that breaks its depth limit or widens its predecessor's rights, or none |
| `DelegationForest.ValidExactly` | kernel/src/cap/revocation.rs:162-186 | a chain validates exactly when every node lies within its depth limit and rights shrink from node to node |
| `DelegationForest.ValidAttenuates` | kernel/src/cap/revocation.rs:162-186 | a valid chain is attenuated between any two nodes |
| `DelegationForest.RegisterKeepsForest` | kernel/src/cap/revocation.rs:360-412 | chains and children stay one forest exactly when the token is no one's child and, to get a parent other than itself, has no children |
| `DelegationForest.UnderIsOnChain` | kernel/src/cap/revocation.rs:360-412 | deriving from a token is having it on one's chain |
| `DelegationForest.PathPrefix` | kernel/src/cap/revocation.rs:360-412 | each token on a chain has the part up to it as its own chain |
| `DelegationForest.Stages` | kernel/src/cap/revocation.rs:468-485 | a subtree is the disjoint union of its children's |
| `DelegationForest.CascadeIsSubtree` | kernel/src/cap/revocation.rs:415-485 | in a forest a cascade visits exactly the subtree, each token once |
| `DelegationForest.CascadeIsLeast` | kernel/src/cap/revocation.rs:415-485 | whatever was registered, an ending cascade visits the least set with the token that is closed under children |
| `DelegationForest.ForestEnds` | kernel/src/cap/revocation.rs:415-485 | in a forest every cascade ends |
| `DelegationForest.CycleNeverEnds` | kernel/src/cap/revocation.rs:415-485 | no cascade ends at two tokens that are each other's children |
| `Revocation.RevocationEngine.Register` | kernel/src/cap/revocation.rs:360-412 | the new chain and child entry; the filter keeps agreeing, and the forest survives exactly when the token can be registered there |
| `Revocation.RevocationEngine.Revoke` | kernel/src/cap/revocation.rs:415-465 | adds the token, or all a cascade that ends visits, and returns the number of visits; in a forest that is the subtree and its size |
| `Revocation.RevocationEngine.RevokeChildren` | kernel/src/cap/revocation.rs:468-485 | adds what the children's cascades visit and counts the visits |
| `Revocation.RevocationEngine.IsRevoked` | kernel/src/cap/revocation.rs:488-498 | membership in the revoked set, with the filter or without, whatever was registered |
| `Revocation.RevocationEngine.GetChain` | kernel/src/cap/revocation.rs:562-564 | the path to the token, its depth its length, holding exactly its ancestors |
| `Revocation.CyclePossible` | kernel/src/cap/revocation.rs:360-485 | two registrations in the wrong order make two tokens each other's child, and no cascade from them ends |
| `BloomFilter.RevocationBloomFilter.Insert` | kernel/src/cap/revocation.rs:257-265 | all four bits of the token are set and none is lost |
| `BloomFilter.RevocationBloomFilter.MayContain` | kernel/src/cap/revocation.rs:267-277 | true exactly when all four are set |
| `BloomFilter.ComputeHash` | kernel/src/cap/revocation.rs:280-289 | the loop is the fold of the seeded hash over the bytes |
| `BloomFilter.OrBit` | kernel/src/cap/revocation.rs:257-265 | setting a bit leaves all others |
| `BloomFilter.PlaceIsRemainder` | kernel/src/cap/revocation.rs:257-277 | word and bit are the hash's place among 16384 bits |
| `Cfq.CfqScheduler.AddRequest` | kernel/src/block/scheduler.rs:397-424 | equals the specification's submission |
| `Cfq.CfqScheduler.NextRequest` | kernel/src/block/scheduler.rs:426-459 | equals the specification's dispatch; its recursion terminates |
| `Cfq.CfqScheduler.HasPending` | kernel/src/block/scheduler.rs:461-463 | true exactly when the next dispatch returns a request |
| `Cfq.AddKeepsValid` | kernel/src/block/scheduler.rs:397-424 | the round-robin list stays a duplicate-free listing of the queues; one request joins the end of its queue |
| `Cfq.NextDispatches` | kernel/src/block/scheduler.rs:426-459 | a dispatch takes exactly the oldest request of one process, an idle one only when no process has any, none only when nothing is pending |
| `Cfq.RunConserves` | kernel/src/block/scheduler.rs:417-459 | over any run each process's requests come out in the order they went in, none lost or repeated |
| `Cfq.NextWait` | kernel/src/block/scheduler.rs:426-459 | every dispatch to another process lowers a waiting process's bound |
| `Cfq.ServedInTime` | kernel/src/block/scheduler.rs:417-459 | a process with work at index i is served within 100 (i + 1) dispatches of others, whatever arrives |
| `Cfq.TurnLasts` | kernel/src/block/scheduler.rs:426-441 | while the process whose turn it is has requests, every dispatch is its own until its hundred are used up, whatever is submitted |
| `Cfq.NextInOrder` | kernel/src/block/scheduler.rs:443-455 | otherwise the turn goes to the first process of the list with work |
| `Deadline.DeadlineScheduler.AddRequest` | kernel/src/block/scheduler.rs:295-307 | equals the specification's submission |
| `Deadline.DeadlineScheduler.DispatchRead` | kernel/src/block/scheduler.rs:224-252 | the expired oldest read, else the nearest from the head |
| `Deadline.DeadlineScheduler.DispatchWrite` | kernel/src/block/scheduler.rs:254-282 | the same for writes |
| `Deadline.DeadlineScheduler.NextRequest` | kernel/src/block/scheduler.rs:309-339 | equals the specification's dispatch |
| `Deadline.HeadMoves` | kernel/src/block/scheduler.rs:224-282 | an expired oldest request leaves the head where it was; any other moves it to its sector |
| `Deadline.ArrivesLast` | kernel/src/block/scheduler.rs:295-307 | a request queues behind all of its direction |
| `Deadline.OrderKept` | kernel/src/block/scheduler.rs:224-282 | a dispatch keeps the order of arrival of what it leaves |
| `Deadline.StarvedCounts` | kernel/src/block/scheduler.rs:309-322 | a served read uses one of the fifteen, a write taken out of turn gives reads all of them again |
| `Deadline.DeadlineScheduler.HasPending` | kernel/src/block/scheduler.rs:341-343 | true exactly when the next dispatch returns a request, in any state |
| `Deadline.AddKeepsValid` | kernel/src/block/scheduler.rs:295-307 | each FIFO stays a permutation of its map's keys exactly when the sector is not repeated |
| `Deadline.NextDispatches` | kernel/src/block/scheduler.rs:309-339 | whenever requests are filed under their sector and direction a dispatch removes exactly one pending request, and keeps the two indexes in agreement |
| `Deadline.NextFinds` | kernel/src/block/scheduler.rs:309-339 | in any state at all a dispatch finds a request exactly when one is pending |
| `Deadline.RunConserves` | kernel/src/block/scheduler.rs:295-339 | over any run what was pending and came is what was served, what was replaced and what is pending, counted with multiplicity |
| `Deadline.LosesExactlyByRepeats` | kernel/src/block/scheduler.rs:295-339 | a run loses a request exactly when a submission repeats a pending sector; otherwise each FIFO stays a permutation of its map's keys |
| `Deadline.RepeatLoses` | kernel/src/block/scheduler.rs:295-307 | a repeated sector drops the earlier request |
| `Deadline.WritesWaitAtMost` | kernel/src/block/scheduler.rs:309-339 | while a write is pending at most 15 dispatches in a row are reads, whatever is submitted, repeated sectors included |
| `Deadline.ReadsWaitAtMost` | kernel/src/block/scheduler.rs:309-339 | while a read is pending, a run that returns none dispatches at most the writes pending at its start and those submitted |
| `Deadline.ReadsWaitExactly` | kernel/src/block/scheduler.rs:309-339 | a run serves no read while one is pending exactly when at each dispatch a write is pending and reads are not being served or have had their fifteen |
| `Deadline.ReadsStarve` | kernel/src/block/scheduler.rs:324-336 | that bound is met for every number of writes submitted |
| `Deadline.StarvingFromEmpty` | kernel/src/block/scheduler.rs:295-339 | four operations lead from the empty scheduler to such a start |
| `Deadline.ReadServedExactly` | kernel/src/block/scheduler.rs:224-339 | a dispatch serves a particular pending read exactly when it is not the writes' turn and that read is the expired oldest or, if the oldest is not expired, none is nearer from the head |
| `Deadline.NearerReadsStarve` | kernel/src/block/scheduler.rs:224-252 | from the empty scheduler one particular read waits through n dispatches with no write, when reads nearer the head keep coming |
| `Deadline.DrainIsElevator` | kernel/src/block/scheduler.rs:224-339 | draining one direction serves its sectors ascending from the head and then from the bottom, whatever the FIFO holds |
| `Bio.Bio.AddPage` | kernel/src/block/bio.rs:158-162 | the segment's bytes join the end and the size |
| `Bio.CanMergeExactly` | kernel/src/block/bio.rs:180-207 | exactly requests of one operation and device whose sectors adjoin can merge |
| `Bio.Bio.Merge` | kernel/src/block/bio.rs:210-213 | byte sequences concatenate and sizes add |
| `Bio.Bio.Advance` | kernel/src/block/bio.rs:216-232 | exactly that many bytes are dropped from what remains |
| `Bio.MovedTwice` | kernel/src/block/bio.rs:216-232 | advancing by a then b is advancing by a + b |
| `Bio.MovedRest` | kernel/src/block/bio.rs:216-232 | what remains after advancing is what remained less that many bytes |
| `Bio.FindSplit` | kernel/src/block/bio.rs:431-448 | where the split falls, before or inside a segment |
| `Bio.SplitBytes` | kernel/src/block/bio.rs:431-465 | wherever it falls the two parts denote the original bytes in order |
| `Bio.Split` | kernel/src/block/bio.rs:420-472 | exact refusal condition, exact sizes, bytes concatenate, sums kept, the parts can merge, and when the cursor survives |
| `Bio.CursorAfter` | kernel/src/block/bio.rs:420-472 | the cursor ends out of bounds exactly when it was beyond the cut in the segment cut |
| `Bio.CursorCanBeLost` | kernel/src/block/bio.rs:420-472 | one segment of 1024 bytes advanced by 600 and split at one sector is such a case |
| `Bio.SplitAndMerge` | kernel/src/block/bio.rs:210-472 | merging the parts restores sector, size and bytes |
| `ShaStream.Hasher.Update` | kernel/src/crypto/hash.rs:153-185 | the message grows by the data and the buffer never stays full |
| `ShaStream.Hasher.Fill` | kernel/src/crypto/hash.rs:156-171 | topping up the buffer, compressing when it fills |
| `ShaStream.Hasher.CompressBlocks` | kernel/src/crypto/hash.rs:173-177 | whole blocks go straight to compression |
| `ShaStream.Hasher.Finalize` | kernel/src/crypto/hash.rs:187-228 | compression folded over the message padded as sections 5.1.1 and 5.1.2 of FIPS 180-4 ask, length modulo its width |
| `ShaStream.LastBlocksPad` | kernel/src/crypto/hash.rs:187-228 | the one or two last blocks are the standard's padding |
| `ShaStream.PaddedBytes` | kernel/src/crypto/hash.rs:187-228 | the padded message byte by byte: message, 0x80, zeros, and the length most significant byte first |
| `ShaStream.BigEndianByte` | kernel/src/crypto/hash.rs:211-214 | byte i of the length field is the digit that n - 1 - i bytes follow |
| `ShaStream.ZeroCountSolves` | kernel/src/crypto/hash.rs:194-211 | the zero bytes make whole blocks |
| `ShaStream.ZeroCountLeast` | kernel/src/crypto/hash.rs:194-211 | and no fewer would |
| `ShaStream.FieldIsLength` | kernel/src/crypto/hash.rs:189-214 | the length field is the true length exactly below its modulus |
| `ShaStream.HashPieces` | kernel/src/crypto/hash.rs:153-228 | for any split into updates only the concatenation matters |
| `NvmeRing.NvmeQueue.Submit` | kernel/src/block/nvme.rs:303-308 | the command goes to the slot returned; the last `depth` commands are in place |
| `NvmeRing.NvmeQueue.Post` | kernel/src/block/nvme.rs:249-254 | the modelled device posts at its own tail with the tag of its pass |
| `NvmeRing.NvmeQueue.PollCompletion` | kernel/src/block/nvme.rs:311-323 | in every interleaving the posted entries come back in order, once each; none exactly when nothing is outstanding |
| `NvmeRing.HeadTag` | kernel/src/block/nvme.rs:249-323 | the tag at the head matches exactly when an entry is outstanding |
| `NvmeRing.IndexIsRemainder` | kernel/src/block/nvme.rs:303-323 | ring positions are remainders by the depth |
| `Pixels.DecodeEncode` | kernel/src/gpu/framebuffer.rs:168-258 | a written pixel reads back as the colour less what its format cannot hold |
| `Pixels.ChannelOrder` | kernel/src/gpu/framebuffer.rs:168-203 | each byte is the channel its format names for that place |
| `Pixels.Rgb565Word` | kernel/src/gpu/framebuffer.rs:204-208 | the 16-bit format's bytes are its three fields shifted and or-ed, little-endian |
| `Pixels.Argb32Word` | kernel/src/gpu/framebuffer.rs:168-173 | the word 0xAARRGGBB, little-endian |
| `Pixels.ClearShowsColor` | kernel/src/gpu/framebuffer.rs:261-291 | clearing shows the colour exactly in 32-bit formats or when it encodes as zeros |
| `Framebuffer.Framebuffer.MoveBytes` | kernel/src/gpu/framebuffer.rs:326-334 | the byte loop, in either direction, equals a copy from a snapshot |
| `Framebuffer.Framebuffer.CopyRect` | kernel/src/gpu/framebuffer.rs:306-336 | with any overlap the destination is what the source was and nothing else changes |
| `Framebuffer.Framebuffer.SetPixel` | kernel/src/gpu/framebuffer.rs:142-158 | exactly that pixel's bytes, nothing off screen |
| `Framebuffer.Framebuffer.FillRect` | kernel/src/gpu/framebuffer.rs:294-303 | exactly the part of the rectangle on the screen |
| `Framebuffer.Framebuffer.Clear` | kernel/src/gpu/framebuffer.rs:261-291 | every pixel takes the prepared data, padding stays |
| `Framebuffer.Framebuffer.ScrollUp` | kernel/src/gpu/framebuffer.rs:338-352 | rows move up byte for byte, the bottom is filled, padding stays; out of range clears |
| `Framebuffer.OneMoreRow` | kernel/src/gpu/framebuffer.rs:315-335 | the row order never overwrites a source row before it is read |
| `Ext4.FindIsLookup` | kernel/src/fs/ext4.rs:764-816 | on a well-formed tree of any depth the search equals linear search over all extents, and terminates |
| `Ext4.LeafFinds` | kernel/src/fs/ext4.rs:765-780 | a leaf search yields the first covering extent's physical start plus the block's distance from its first, in terms of the entry's fields |
| `Ext4.IndexDescends` | kernel/src/fs/ext4.rs:783-815 | an inner search goes on in the node the first matching entry's fields name |
| `Ext4.ChildrenLookup` | kernel/src/fs/ext4.rs:783-815 | the chosen child holds whatever any child holds |
| `Ext4.LookupIsTheExtent` | kernel/src/fs/ext4.rs:765-780 | with disjoint extents the result is the covering extent's |
| `Ext4.ZeroIsHole` | kernel/src/fs/ext4.rs:765-780 | zero means a hole when no extent starts at block 0 |
| `Ext4.CoversNothing` | kernel/src/fs/ext4.rs:494-497 | an extent covers nothing exactly when the low fifteen bits of its length are zero |
| `Ext4.JoinIsShiftOr` | kernel/src/fs/ext4.rs:489-518 | the two parts of a block number are shifted and or-ed |
| `Ext4.LengthIsMask` | kernel/src/fs/ext4.rs:494-497 | the length is the masked field |

## Left out

- `Revocation.RevocationEngine.Revoke`: a cascade that does not end has no outcome to state; `n` is a bound on its levels, of which any will do.
- `Framebuffer.Framebuffer.CopyRect`: states in-bounds rectangles only; the source checks nothing, and beyond a row it would touch neighbouring rows or padding.
- `Poly1305.Accumulate`: the accumulator's residue, not the final tag, which lacks a last reduction.
- `CapTable.CapabilityTable.GenerateToken`: a counter below 2^64 - 1 and the path without hardware randomness.
- `Powers25519.InvertsExactlyTwelfthRoots`: takes Fermat's little theorem for the element as a hypothesis, since the primality of 2^255 - 19 is not proved here.
- `ShaStream.Hasher.Finalize`: the compression functions are a parameter, and turning the final words into bytes is not modelled.
- `SplaxFs.SplaxFs.Mount`: the check of the magic number, which a typed superblock stands for; the device has its first three blocks.
- `SplaxFs.SplaxFs.CreateFile`: for a name that already exists the source adds a second, hidden entry; the statement then is that every path fares as before.
- `NvmeRing.NvmeQueue.Post`: a device that runs more than `depth` entries ahead, which the completion protocol forbids.
- `Ext4.FindIsLookup`: nodes are three-word entries, not raw bytes, and the header's magic number is not looked at, as in the search itself.
- SplaxFS journaling, `readdir` and `stat`, and the copying of records to and from raw bytes: blocks hold records.
- Timestamps, link counts, the audit log, revocation history, time-limited tokens and their renewal.
- Failing block devices, and the locks: every operation is one atomic step.
- `to_bytes`, the Edwards curve, signatures and scalar reduction; no conformance to RFC 7748 or RFC 8032 is claimed.
- The deadline check as a latency guarantee: the source compares a deadline with the submission time.
- Double buffering of the framebuffer, and the u32 overflow of `x + width`.
- Sizes and counters (`usize`, `u32` totals) are unbounded unless a bound is stated; field limbs, hashes, ring indices and lengths are bounded as in the source.
- The no-op scheduler, other filesystems and drivers, which would add only easier members.
