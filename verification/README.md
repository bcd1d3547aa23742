# MicroTBX: a verified model

MicroTBX is a toolbox for microcontroller firmware written in C. This project models the modules of
it that carry state, protocols or arithmetic, and proves what they promise:

- **Heap, memory pools, linked lists**: one stack. The heap is a bump allocator over a static buffer;
  the pools are segregated free lists carved out of it; the headers and nodes of the lists are blocks
  of the pools. `Heap.dfy`, `MemPool.dfy` and `Lists.dfy` are classes that follow the pointers of the
  C code through one array of words. `PoolSpec.dfy` says what the pools do as functions on an abstract
  state, `ListSpec.dfy` and `ListSort.dfy` what the lists do to sequences; every method's contract
  equates the new state with one of these functions. `PoolMemory.dfy` and `ListMemory.dfy` say how the
  structures lie in memory. `ListBlocks.dfy` defines what every list operation does to the pools and to
  the blocks of the lists; the contracts of `Lists.dfy` are stated with these steps, and `ListRuns.dfy`
  proves what runs of them keep. `PoolTheorems.dfy` and `PoolRuns.dfy` have what follows for single calls
  and for whole runs of the pools. `Sequences.dfy` has what both need of sequences.
- **AES-256**: `AesField.dfy` and `AesSpec.dfy` state FIPS 197 (the field, the S-box, the cipher, the
  key expansion and the inverse cipher) and prove the cipher invertible; `Aes.dfy` has the in-place
  code with its rolling key window, proved against that; `Crypto.dfy` has the loops over blocks and
  `AesVector.dfy` the example of FIPS 197.
- **CRC-16/CCITT-FALSE and CRC-32/MPEG-2**: `Gf2.dfy` defines polynomial division over GF(2) and proves
  what its remainders detect; `Checksum.dfy` has the bit loops, proved to compute them, and
  `CheckValues.dfy` the check values of both.
- **Critical sections**: `CritSectSingle.dfy` for one core with interrupts and `CritSectMulti.dfy` for
  several cores with a spin lock, as state machines whose steps are the single reads and writes.
- **Random numbers**: `Random.dfy`, two linear feedback shift registers.

## How memory is modelled

A pointer and a `size_t` take one machine word of 2, 4 or 8 bytes (`Target.W`), and memory is an array
of words: a pointer is the index of a word, and 0 is NULL. A ghost map gives every word that a pool
structure uses a tag with its role, its pool and, for data words, its block. The representation
predicate `PoolMemory.Rep` ties the words with these tags to the abstract state.

`TbxMemPoolRelease` takes any node from the used list and overwrites the block pointer in it, so that the
used list does not name the blocks in use: the others of its nodes keep stale pointers. The invariant
that holds is the one of `PoolMemory.Lists`: the nodes of the free list name the free blocks, and the
used list has as many nodes as blocks are held, whatever these nodes name. Which blocks are held is ghost
state.

## Model

| member | source | states |
|---|---|---|
| Target.RoundUpIsLeast | source/tbx_heap.c:84-88 | the size taken from the heap is the least multiple of the word size that holds the request |
| Target.Arithmetic | source/tbx_heap.c:84-88 | what is done by case on the word size is division by it, multiplication with it and the test for its multiples |
| Target.RoundingWraps | source/tbx_heap.c:87 | for every `size_t`, the rounding of the code gives that least multiple exactly if the sum does not wrap around, and 0 if it does |
| Target.BlockTooShortIff | source/tbx_mempool.c:772-799 | for every `size_t`, a block is as long as its header says exactly if header and size, rounded up, do not wrap around; what it gets otherwise |
| Heap.Heap.Allocate | source/tbx_heap.c:70-106 | NULL and no change for size 0 or if the rounded size does not fit; otherwise a new region right behind the others; for a size whose rounding wraps around an address, and no region |
| Heap.Heap.GetFree | source/tbx_heap.c:114-127 | the free bytes and the sizes of all regions handed out add up to the heap size |
| Heap.PackedDisjoint | source/tbx_heap.c:70-106 | all regions ever handed out are aligned, inside the heap and pairwise disjoint |
| Heap.PackedTotal | source/tbx_heap.c:70-106 | the rounded sizes of all regions add up to the allocated bytes |
| MemPool.MemPool.BlockListInsert | source/tbx_mempool.c:936-961 | puts a node at the head of a block list and changes nothing else |
| MemPool.MemPool.BlockListExtract | source/tbx_mempool.c:971-1003 | takes the node at the head of a block list, NULL if there is none |
| MemPool.MemPool.BlockListIsEmpty | source/tbx_mempool.c:1013-1033 | true exactly if the list has no node |
| MemPool.MemPool.BlockListCreate | source/tbx_mempool.c:910-927 | an empty list in a word of its own, or NULL and no change |
| MemPool.MemPool.ListFind | source/tbx_mempool.c:551-584 | the node of the pool with exactly this block size, NULL exactly if there is no such pool |
| MemPool.MemPool.ListFindBestFit | source/tbx_mempool.c:604-642 | the smallest pool that fits, and NULL exactly if there is none or that one has no free block |
| MemPool.MemPool.LinkSorted | source/tbx_mempool.c:654-751 | links the node in behind the last smaller pool and before the first larger one |
| MemPool.MemPool.ListInsert | source/tbx_mempool.c:654-751 | the pool list stays strictly ascending by block size, with the new pool in it; only links change |
| MemPool.MemPool.Allocate | source/tbx_mempool.c:305-356 | succeeds exactly if the smallest pool that fits exists and has a free block, which it then hands out; NULL exactly for size 0, if all pools are smaller, or if that one has none; keeps the representation and the invariant, and changes no data word |
| MemPool.MemPool.Release | source/tbx_mempool.c:474-536 | reads the size of the right pool from the header and frees exactly the given block, although any used node may carry it |
| MemPool.MemPool.ClientWrite | source/tbx_mempool.c:40-69 | a client may write any word of a block that it holds; every header, node and pool record stays intact |
| MemPool.MemPool.ApplicationAllocates | docs/heap.md:31-64 | a request that the application makes to the heap itself gets words above all that the pools use and changes nothing of them |
| MemPool.MemPool.BlockCreate | source/tbx_mempool.c:772-799 | a block behind its header with the size in it, or NULL and no change |
| MemPool.MemPool.AddBlock | source/tbx_mempool.c:230-271 | one iteration of the loop refines PoolSpec.AddBlock, also when the node fits and the block does not |
| MemPool.MemPool.PoolCreate | source/tbx_mempool.c:172-222 | a new empty pool, or NULL with exactly the bytes lost that were taken before the failure |
| MemPool.MemPool.PoolListsCreate | source/tbx_mempool.c:201-204 | both list heads, with exactly the bytes taken if only one fits |
| MemPool.MemPool.MakePool | source/tbx_mempool.c:172-218 | refines PoolSpec.MakePool, with the new pool linked in at its place |
| MemPool.MemPool.Create | source/tbx_mempool.c:147-281 | refines PoolSpec.Create, with every partial failure |
| MemPool.MemPool.AllocateAuto | source/tbx_mempool.c:390-461 | refines PoolSpec.AllocateAuto |
| MemPool.MemPool.AllocateOrGrow | source/tbx_mempool.c:428-451 | allocates, and after a failure adds one block and tries once more |
| PoolMemory.RepDataWritten | source/tbx_mempool.c:40-106 | whatever is written into data words, all bookkeeping stays what it is |
| PoolMemory.HeldBlock | source/tbx_mempool.c:488-497 | a held block's header holds the size of the pool that the block belongs to |
| PoolMemory.TakeBlock | source/tbx_mempool.c:325-345 | moving the first free node hands out the block that it names, inside this pool's bookkeeping only |
| PoolMemory.GiveBlock | source/tbx_mempool.c:508-530 | moving any used node back, renamed, frees exactly that block and keeps the used count right |
| PoolMemory.RepCells | source/tbx_mempool.c:474-536 | the used list has as many nodes as blocks are held, so that a release always finds one |
| PoolMemory.ShapeInserted | source/tbx_mempool.c:654-751 | the pool list stays ascending and without cycles when a pool is linked in |
| PoolTheorems.BestFitExists | source/tbx_mempool.c:604-642 | if any pool is large enough there is exactly one best fit, the smallest of these |
| PoolTheorems.AllocateFailsIff | source/tbx_mempool.c:305-356 | an allocation fails exactly for size 0, if no pool is large enough, or if the smallest that is has no free block |
| PoolTheorems.AllocateOrGrowIs | source/tbx_mempool.c:428-451 | what comes after a failed allocation is that of the exact size |
| PoolTheorems.AllocateGivesFreshBlock | source/tbx_mempool.c:305-356 | from the smallest pool that is large enough; never a held block; apart from every held block; no other pool changes |
| PoolTheorems.ReleaseUndoesAllocate | source/tbx_mempool.c:305-536 | releasing what was just allocated restores the state |
| PoolTheorems.AllocateUndoesRelease | source/tbx_mempool.c:305-536 | allocating the same size again gives back the released block and the state |
| PoolTheorems.HeldOnce | source/tbx_mempool.c:488-497 | a held block belongs to one pool |
| PoolTheorems.CreateExtendsExactly | source/tbx_mempool.c:223-274 | extending a pool adds min(n, A div (N+B)) blocks, in front of the free ones, succeeds exactly if that is n, and wastes N * min(failures, (A mod (N+B)) div N) bytes |
| PoolTheorems.CreateNewExactly | source/tbx_mempool.c:172-274 | without its seven words of bookkeeping no pool results and 0, 2, 5 or 6 words are lost; otherwise the same closed form over what is left |
| PoolTheorems.CountedInClosedForm | source/tbx_mempool.c:230-271 | the closed form agrees with counting iteration by iteration |
| PoolRuns.RunInv | source/tbx_mempool.c:147-536 | in every reachable state, the application taking heap for itself at any time, the free blocks of each pool are all different and with the held ones partition all its blocks, and all blocks lie apart |
| PoolRuns.PoolsStay | source/tbx_mempool.c:147-536 | no call removes a pool |
| PoolRuns.AllocateAutoIsExact | source/tbx_mempool.c:390-461 | the block is from the pool of exactly that size, and NULL exactly if that pool is empty and the heap cannot supply what is missing |
| PoolRuns.NothingForZero | source/tbx_mempool.c:147-461 | asking for no block, or for blocks of no bytes, fails and changes nothing |
| PoolRuns.GrowFullPool | source/tbx_mempool.c:442-455 | extending a full pool by one block hands out exactly that block, or changes no pool and loses a node if that fits, and nothing otherwise |
| PoolRuns.GrowNewPool | source/tbx_mempool.c:426-437 | making a pool hands out its one block; or without room for the seven words none is made and 0, 2, 5 or 6 are lost, or it stays empty and a node is lost if that fits |
| PoolRuns.BlocksAreThePeak | docs/mempools.md:120-148 | without direct creates, but with any requests of the application to the heap, every pool has exactly as many blocks as were held of it at the same time |
| ListMemory.LinkIn | source/tbx_list.c:262-297 | the pointers after an insertion are a list again, its items being those with one inserted |
| ListMemory.LinkOut | source/tbx_list.c:607-660 | the pointers after a removal are a list again, its items being those with one removed |
| Lists.Lists.LinkFront | source/tbx_list.c:268-295 | the pointer writes that put a node in at the start |
| Lists.Lists.LinkBack | source/tbx_list.c:347-375 | the pointer writes that put a node in at the end |
| Lists.Lists.LinkBefore | source/tbx_list.c:438-465 | the pointer writes that put a node in before another one, at the start or between two |
| Lists.Lists.LinkAfter | source/tbx_list.c:530-562 | the pointer writes that put a node in behind another one, at the end or between two |
| Lists.Lists.Unlink | source/tbx_list.c:607-663 | the pointer writes that take a node out, in all four positions, with the sanity checks proved |
| Lists.Lists.Create | source/tbx_list.c:57-122 | a new empty list, with the first-time pool creations and each of their failures |
| Lists.Lists.Delete | source/tbx_list.c:131-148 | the list is gone; all its nodes and then its header are released |
| Lists.Lists.Clear | source/tbx_list.c:161-196 | the list is empty; exactly its nodes are released; no other list changes |
| Lists.Lists.ReleaseWalk | source/tbx_list.c:174-189 | the loop releases every node once, reading each link before its node is released |
| Lists.Lists.GetSize | source/tbx_list.c:205-225 | the number of items |
| Lists.Lists.InsertItemFront | source/tbx_list.c:236-305 | one item more at the front, or no list changes; succeeds exactly if a block could be had |
| Lists.Lists.InsertItemBack | source/tbx_list.c:316-385 | one item more at the back, or no list changes |
| Lists.Lists.InsertItemBefore | source/tbx_list.c:399-476 | inserts before the first occurrence of the reference item, or no list changes |
| Lists.Lists.InsertItemAfter | source/tbx_list.c:490-573 | inserts behind the first occurrence of the reference item, or no list changes |
| Lists.Lists.RemoveItem | source/tbx_list.c:586-670 | removes the first occurrence only and releases its node |
| Lists.Lists.GetFirstItem | source/tbx_list.c:680-703 | the first item, NULL without one |
| Lists.Lists.GetLastItem | source/tbx_list.c:713-736 | the last item, NULL without one |
| Lists.Lists.GetPreviousItem | source/tbx_list.c:752-787 | the item before the first occurrence of the reference item, NULL without one |
| Lists.Lists.GetNextItem | source/tbx_list.c:803-838 | the item behind the first occurrence of the reference item, NULL without one |
| Lists.Lists.SwapItems | source/tbx_list.c:850-878 | exchanges the first occurrences of both items, or nothing if one is missing |
| Lists.Lists.SortItems | source/tbx_list.c:888-941 | refines ListSort.Sort, call by call of a comparator that may answer differently every time; the nodes, the links and the pools stay; nothing happens without a comparator |
| Lists.Lists.SortInner | source/tbx_list.c:917-934 | the inner loop refines ListSort.Inner |
| Lists.Lists.FindListNode | source/tbx_list.c:955-993 | the node of the first occurrence, NULL exactly if there is none |
| Lists.Lists.EmptyListHasNoFirstNode | source/tbx_list.c:915 | the pointer to the first node, which the sort follows without a test, is NULL exactly in an empty list |
| Lists.Lists.DeletedListIsReused | source/tests/unittests.c:1484-1514 | deleting a list of n items returns n+1 blocks, and building one of no more items takes nothing from the heap, if the blocks are from the pool for three words (see ListRuns.NextFromThree) |
| Lists.Lists.BlocksInUse | source/tbx_list.h:45-72 | the blocks in use are exactly one header a list and one node an item |
| Lists.Lists.PoolCallKeeps | source/tbx_mempool.c:147-536 | a call to the pools that releases no block of a list leaves every list as it is |
| Lists.Lists.ApplicationAllocates | docs/heap.md:31-64 | a request of the application to the heap leaves every list as it is |
| Lists.Lists.OtherCreates | source/tbx_mempool.c:147-281 | a pool created or extended by another client leaves every list as it is |
| Lists.Lists.OtherAllocates | source/tbx_mempool.c:305-356 | so does an allocation, which never hands out a block of a list |
| Lists.Lists.OtherAllocatesAuto | source/tbx_mempool.c:390-461 | so does an allocation that may extend a pool |
| Lists.Lists.ReleaseUnused | source/tbx_mempool.c:474-536 | so does a release of a block that is no list's, or no longer |
| Lists.Lists.OtherWrites | source/tbx_mempool.c:40-69 | so does a word written into such a block |
| ListBlocks.BlocksInUse | source/tbx_list.h:45-72 | if every block noted is a header or a node of one live list, their number is one a list and one an item |
| ListBlocks.ConsistentInsert | source/tbx_list.c:236-573 | which stays so when a list gets a node |
| ListBlocks.ConsistentDelete | source/tbx_list.c:131-148 | and when a list is deleted with all its blocks |
| ListBlocks.HeaderReleased | source/tbx_list.c:131-148 | clearing a list and then giving its header back is deleting it |
| ListSpec.RemoveUndoesInsert | source/tbx_list.c:399-670 | removing an item that was inserted beside another one restores the list |
| ListSpec.InsertedIsNeighbour | source/tbx_list.c:399-838 | an inserted item is found right beside its reference item |
| ListSpec.ExchangeTwice | source/tbx_list.c:850-878 | in a list without duplicates exchanging twice restores the list |
| ListSpec.EndsOf | source/tbx_list.c:680-736 | the first and the last item of a list are those put at its ends; NULL without one |
| ListSpec.NeighboursOf | source/tbx_list.c:752-838 | the items before and behind the first occurrence are the ends of what is on both sides of it; NULL if there is nothing, or no occurrence |
| ListSpec.InsertedBeside | source/tbx_list.c:399-573 | where a new item goes, in a list that may have duplicates |
| ListSpec.RemovedFromBetween | source/tbx_list.c:586-670 | only the first occurrence goes, and what is on both sides stays |
| ListSpec.ExchangedPlaces | source/tbx_list.c:850-878 | the first occurrences of two items change places, in whichever order they are given, and nothing else changes |
| ListSpec.ExchangeMeans | source/tbx_list.c:850-878 | what is at every place after an exchange; nothing happens without one of the items |
| ListSpec.ExchangedIndices | source/tbx_list.c:850-878 | in a list without duplicates each item is then where the other one was |
| ListSort.SortPermutesInExactlyThatManyCalls | source/tbx_list.c:888-941 | whatever the comparator answers, a permutation after exactly n(n-1)/2 calls |
| ListSort.SortSorts | source/tbx_list.c:888-941 | with a strict partial order no earlier item is greater than a later one |
| ListSort.SortExample | source/tbx_list.c:888-941 | 3, 1, 2 in the order of the integers become 1, 2, 3 |
| ListRuns.BlocksAreTwoOrThePeak | source/tbx_list.c:57-670 | if only lists use the pools, then after any run of create, delete, clear, insert and remove, the application taking heap for itself before and in between, the pool shared by headers and nodes has max(first, peak of headers and nodes) blocks, first being what the first create made: 2 exactly if both of its requests succeed |
| ListRuns.FirstPoolsMade | source/tbx_list.c:65-85 | the first create makes at most one pool, with two blocks exactly if both requests succeed |
| ListRuns.NewListFromThree | source/tbx_list.c:57-122 | if there is a pool for three words after the first requests, whoever made it, the first list is from it |
| ListRuns.NextFromThree | source/tbx_list.c:57-670 | if that pool exists and all blocks of lists are from it, that stays so in every list operation, also beside other pools |
| ListRuns.NextGrows | source/tbx_list.c:57-670 | every list operation keeps exactly the headers and nodes held, and extends the pool only by a block that it uses |
| ListRuns.HeldIsNeeded | source/tbx_list.h:45-72 | as many blocks are held as live lists have headers and nodes |
| ListRuns.ReleaseNodesEffect | source/tbx_list.c:174-189 | giving many blocks back frees exactly these and takes or returns no heap |
| ListRuns.RebuildTakesNothing | source/tests/unittests.c:1484-1514 | giving n blocks back and asking for no more than n takes nothing from the heap |
| AesField.SBoxInverse | source/tbx_aes256.c:38-119 | the inverse table undoes the table |
| AesField.InvSBoxInverse | source/tbx_aes256.c:38-119 | the table undoes the inverse table |
| AesField.SBoxIsAffineOfInverse | source/tbx_aes256.c:38-77 | the table is the affine transformation of the multiplicative inverse, as in section 5.1.1 of FIPS 197 |
| AesField.XTimeInverse | source/tbx_aes256.c:347-354 | the step back of the round constant undoes the step forward, and the other way round |
| AesSpec.ShiftRowsMeans | source/tbx_aes256.c:189-234 | both row shifts move row r by r columns, as in sections 5.1.2 and 5.3.1 of FIPS 197 |
| AesSpec.RotWordMeans | source/tbx_aes256.c:297-300 | the rotation of section 5.2 of FIPS 197: byte r takes the value of byte r+1 |
| AesSpec.MixColumnInverse | source/tbx_aes256.c:237-290 | the two column matrices of FIPS 197 are inverse to each other |
| AesSpec.InvCipherUndoesCipher | source/tbx_aes256.c:395-448 | for every key and block the inverse cipher restores the input of the cipher |
| AesSpec.CipherUndoesInvCipher | source/tbx_aes256.c:395-448 | and the other way round |
| AesSpec.DecipherRetraces | source/tbx_aes256.c:423-448 | deciphering passes through the states of the enciphering, backwards |
| Aes.MixFactored | source/tbx_aes256.c:243-258 | the factored form of a mixed byte equals the matrix row of section 5.1.3 |
| Aes.InvMixFactored | source/tbx_aes256.c:268-289 | the factored form of an unmixed byte equals the matrix row of section 5.3.3 |
| Aes.ApplySubBytes | source/tbx_aes256.c:142-150 | SubBytes on the block at the offset, nothing else changes |
| Aes.ApplySubBytesInv | source/tbx_aes256.c:153-161 | InvSubBytes on the block |
| Aes.ApplyRoundKey | source/tbx_aes256.c:164-172 | AddRoundKey on the block |
| Aes.ApplyRoundKeyCopy | source/tbx_aes256.c:175-185 | AddRoundKey, and a copy of all 32 key bytes |
| Aes.ApplyShiftRows | source/tbx_aes256.c:189-210 | ShiftRows on the block |
| Aes.ApplyShiftRowsInv | source/tbx_aes256.c:213-234 | InvShiftRows on the block |
| Aes.ApplyMixColumns | source/tbx_aes256.c:237-259 | MixColumns on the block |
| Aes.ApplyMixColumnsInv | source/tbx_aes256.c:262-290 | InvMixColumns on the block |
| Aes.AddWordBefore | source/tbx_aes256.c:305-308 | the word before is added to a word of the window |
| Aes.AddRotatedWord | source/tbx_aes256.c:297-300 | the rotated, substituted last word and the round constant are added to the first word |
| Aes.AddSubstitutedWord | source/tbx_aes256.c:310-313 | the substituted fourth word is added to the fifth |
| Aes.ExpandEncKey | source/tbx_aes256.c:293-322 | one step forward of the key window and of the round constant |
| Aes.ExpandDecKey | source/tbx_aes256.c:325-361 | one step backward of both |
| Aes.PreviousUndoesNext | source/tbx_aes256.c:293-361 | the two steps are inverse to each other for every window and round constant |
| Aes.WindowAdvances | source/tbx_aes256.c:293-322 | after j steps the window holds the words w[8j] to w[8j+7] of section 5.2 of FIPS 197 |
| Aes.WindowRetreats | source/tbx_aes256.c:325-361 | the step back leads from the words at 8(j+1) to those at 8j |
| Aes.Context.Init | source/tbx_aes256.c:365-379 | the first window is the key and the last one holds w[56] to w[63] |
| Aes.Context.Done | source/tbx_aes256.c:382-392 | all three windows are zero |
| Aes.Context.AddForwardKey | source/tbx_aes256.c:406-414 | adds the round key of any round, rolling the window on before every other one |
| Aes.Context.AddBackwardKey | source/tbx_aes256.c:433-441 | adds the round key of any round, rolling the window back before every other one |
| Aes.Context.EncryptEcb | source/tbx_aes256.c:395-420 | the block becomes the cipher of section 5.1 of it; nothing else in the buffer changes; the context can be used again |
| Aes.Context.DecryptEcb | source/tbx_aes256.c:423-448 | the same for the inverse cipher of section 5.3 |
| AesVector.ExampleVector | source/tbx_crypto.c:61-126 | the key, block and cipher of appendix C.3 of FIPS 197, enciphered and deciphered |
| Crypto.Aes256Encrypt | source/tbx_crypto.c:61-87 | every block enciphered on its own with the key as it was, wherever data and key lie and however they overlap; nothing else changes, and nothing at all for a length that is 0 or no multiple of 16, or without key |
| Crypto.Aes256Decrypt | source/tbx_crypto.c:100-126 | the same for deciphering |
| Crypto.BlockMapped | source/tbx_crypto.c:79-82 | the block at every place of the result is the block of the data at that place, enciphered or deciphered |
| Crypto.EncryptOneBlock | source/tbx_crypto.c:79-82 | the next block of the pass is enciphered and the others stay |
| Crypto.DecryptOneBlock | source/tbx_crypto.c:118-121 | the next block of the pass is deciphered and the others stay |
| Crypto.DecryptUndoesEncrypt | source/tbx_crypto.c:61-126 | for every key and every number of blocks decryption restores what was encrypted |
| Crypto.EncryptUndoesDecrypt | source/tbx_crypto.c:61-126 | and encryption restores what was decrypted |
| Gf2.DivisionIsUnique | source/tbx_checksum.c:105-125 | quotient and remainder of a polynomial division are unique |
| Gf2.RunIsTheRemainder | source/tbx_checksum.c:105-125 | the shift register ends in the remainder of (initial value x^n + message x^w), and nothing else is one |
| Gf2.StepLinear | source/tbx_checksum.c:113-124 | the step of one bit is linear |
| Gf2.StepInjective | source/tbx_checksum.c:113-124 | with an odd polynomial no two registers become the same |
| Gf2.BurstDetected | source/tbx_checksum.c:105-125 | messages that differ within a window no wider than the register end in different registers |
| Gf2.ZeroResidue | source/tbx_checksum.c:105-125 | w more bits lead to zero exactly if they are the register itself |
| Gf2.RunLinear | source/tbx_checksum.c:105-125 | the register of a sum of messages is the sum of their registers |
| Gf2.OddRun | source/tbx_checksum.c:105-125 | with an odd number of ones in the polynomial below the highest, the parity of the register is that of initial value and message |
| Gf2.DetectsOddErrorsIff | source/tbx_checksum.c:105-125 | exactly then every error in an odd number of bits changes the register |
| Checksum.Crc16Calculate | source/tbx_checksum.c:93-130 | 0 without data; otherwise the register after the message, for any polynomial and initial value |
| Checksum.Crc32Calculate | source/tbx_checksum.c:146-183 | the same with 32 bits |
| Checksum.AddByte16 | source/tbx_checksum.c:111 | adding a byte above and shifting eight times takes in its bits one after the other |
| Checksum.AddByte32 | source/tbx_checksum.c:164 | the same with 32 bits |
| Checksum.ShiftOnce16 | source/tbx_checksum.c:113-124 | one division step of the register |
| Checksum.ShiftOnce32 | source/tbx_checksum.c:166-177 | the same with 32 bits |
| Checksum.Crc16Unique | source/tbx_checksum.c:93-130 | a message has one value: what Crc16Calculate returns is the only word that satisfies its contract |
| Checksum.Crc32Unique | source/tbx_checksum.c:146-183 | the same with 32 bits |
| Checksum.Crc16IsTheRemainder | source/tbx_checksum.c:93-130 | of all 16-bit words exactly the value is the remainder of the polynomial division |
| Checksum.Crc32IsTheRemainder | source/tbx_checksum.c:146-183 | the same with 32 bits |
| Checksum.Crc16DetectsBursts | source/tbx_checksum.c:108-125 | with an odd polynomial every burst of at most 16 bits changes the value |
| Checksum.Crc32DetectsBursts | source/tbx_checksum.c:161-178 | with an odd polynomial every burst of at most 32 bits changes the value |
| Checksum.Crc16Residue | source/tbx_checksum.c:105-125 | the value of a message with two bytes appended is 0 exactly if they are the value of the message, most significant byte first |
| Checksum.Crc32Residue | source/tbx_checksum.c:158-178 | the same with four bytes: the check of Annex A of ISO/IEC 13818-1 |
| Checksum.Crc16Concat | source/tbx_checksum.c:105-125 | the value of a concatenation is that of the second part, started from the value of the first one |
| Checksum.Crc32Concat | source/tbx_checksum.c:158-178 | the same with 32 bits |
| Checksum.DefaultsDetectBursts | source/tbx_checksum.c:47-72 | so do the polynomials and initial values that are configured unless overridden |
| Checksum.Crc16DetectsOddErrors | source/tbx_checksum.c:93-130 | with an odd number of ones in the polynomial every error in an odd number of bits changes the value |
| Checksum.Crc32DetectsOddErrors | source/tbx_checksum.c:146-183 | the same with 32 bits |
| Checksum.Crc16MissesDivisor | source/tbx_checksum.c:93-130 | a message of zeros and the one that is the divisor have the same value for every initial value; they differ in an odd number of bits exactly if the polynomial has an even number of ones |
| Checksum.Crc32MissesDivisor | source/tbx_checksum.c:146-183 | the same with 32 bits |
| Checksum.DefaultsAndOddErrors | source/tbx_checksum.c:47-72 | the configured 16-bit polynomial has an odd number of ones and sees all these errors; the 32-bit one has not, and two messages of five bytes show it |
| CheckValues.CheckValue16 | source/tbx_checksum.c:47-130 | with the configured parameters exactly 0x29B1 is the value of the nine digits from 1 to 9, as for CRC-16/CCITT-FALSE |
| CheckValues.CheckValue32 | source/tbx_checksum.c:60-183 | exactly 0x0376E6E7 is, as for CRC-32/MPEG-2 |
| CritSectSingle.CriticalSection.Enter | source/tbx_critsect.c:69-93 | interrupts off, one level deeper, the mask saved by the outermost call only |
| CritSectSingle.CriticalSection.Exit | source/tbx_critsect.c:107-133 | one level up, the saved mask restored by the outermost call only; nothing without an Enter |
| CritSectSingle.CallsRestore | source/tbx_critsect.c:69-133 | any well-nested calls restore the counter and the mask |
| CritSectSingle.ReachesInv | source/port/ARM_CORTEXM/GCC/tbx_comp.s:57-97 | the invariant holds in every interleaving, with interrupts between any two steps |
| CritSectSingle.SectionIsProtected | source/tbx_critsect.c:69-133 | while the counter is positive interrupts are off and the saved mask is the one from the outermost Enter |
| CritSectSingle.ExitRestoresMask | source/port/ARM_CORTEXM/GCC/tbx_comp.s:88-97 | the outermost Exit writes the mask that the outermost Enter found |
| CritSectSingle.OnlyOutermostEnterNotes | source/tbx_critsect.c:69-93 | the mask that counts is noted by the outermost Enter and by nothing else |
| CritSectSingle.EnterFinished | source/tbx_critsect.c:69-93 | the steps of Enter together do what the function does |
| CritSectSingle.ExitFinished | source/tbx_critsect.c:107-133 | the steps of Exit together do what the function does |
| CritSectSingle.EnterCompletes | source/tbx_critsect.c:69-93 | wherever a program is outside of both functions it can call Enter, whose steps then have the effect of the function and touch no other activation |
| CritSectSingle.ExitCompletes | source/tbx_critsect.c:107-133 | the same for Exit, inside of a section |
| CritSectSingle.HandlerLeavesNoTrace | source/tbx_critsect.c:69-133 | with interrupts on a handler can come, pass through a section with its interrupts off and return, and mask, counter and activations are what they were |
| CritSectMulti.NextInv | source/port/RP2040/tbx_port.c:97-147 | every step of every core keeps the invariant |
| CritSectMulti.ReachesInv | source/port/RP2040/tbx_port.c:97-147 | the invariant holds in every interleaving of any number of cores |
| CritSectMulti.MutualExclusion | source/port/RP2040/tbx_port.c:97-147 | at most one core is inside a critical section, with its interrupts off and the counter at its depth |
| CritSectMulti.VariablesAreProtected | source/tbx_critsect.c:69-133 | the counter and the saved mask are touched by the core with the lock only |
| CritSectMulti.NoSelfDeadlock | source/port/RP2040/tbx_port.c:99-117 | a nested Enter never waits, no core waits for its own lock, and the core with the lock can always go on |
| CritSectMulti.ExitRestoresMask | source/port/RP2040/tbx_port.c:133-147 | the outermost Exit writes the mask that this core had at its outermost Enter |
| CritSectMulti.LeavesAsItCame | source/port/RP2040/tbx_port.c:133-147 | whatever step of Enter or Exit ends outside of any section, the core has the mask from its outermost Enter, no flag and not the lock |
| CritSectMulti.EnterCompletes | source/port/RP2040/tbx_port.c:97-117 | a core that has the lock or finds it free can call Enter, and ends one section deeper with lock, flag, interrupts off and the mask saved by the outermost call |
| CritSectMulti.ExitCompletes | source/port/RP2040/tbx_port.c:125-147 | its Exit ends one section less deep; the outermost one writes the saved mask and frees the lock |
| CritSectMulti.SectionRestores | source/tbx_critsect.c:69-133 | an Enter with its Exit leaves lock, counter, mask, flag and the other activations as they were |
| CritSectMulti.ReachesConsistent | source/port/RP2040/tbx_port.c:97-147 | in every reachable state such a core's variables are as these three ask |
| CritSectMulti.HandlerLeavesNoTrace | source/port/RP2040/tbx_port.c:97-147 | a handler that passes through a section leaves its core as it found it, and the lock free |
| CritSectMulti.OnlyOutermostEnterNotes | source/tbx_critsect.c:69-93 | that mask is noted by the outermost Enter and by nothing else |
| Random.ShiftLFSR | source/tbx_random.c:201-225 | one shift in place; 0 for NULL |
| Random.RandomNumbers.InitLFSRs | source/tbx_random.c:159-190 | the seeds of the handler, or the defaults without one and for zero |
| Random.RandomNumbers.SetSeedInitHandler | source/tbx_random.c:140-151 | the handler is replaced unless it is NULL |
| Random.RandomNumbers.Number16BitGet | source/tbx_random.c:233-264 | one register is shifted twice, the other one once, and their low halves are combined |
| Random.RandomNumbers.NumberGet | source/tbx_random.c:89-107 | two successive 16-bit numbers, the first one in the upper half; seeds before the first number only |
| Random.NumberAddsBoth | source/tbx_random.c:257-260 | adding to either register adds its low 16 bits to the number |
| Random.SeedsAreUsed | source/tbx_random.c:159-190 | seeds of a handler that are not zero are where the registers start; for zero it is where they start without a handler |
| Random.FirstNumber | source/tbx_random.c:89-107 | the first number without a handler is 0x0D4C5F98, with both registers after it |
| Random.Shift32Undone | source/tbx_random.c:201-225 | the shift of the 32-bit register can be undone, the top bit telling the feedback |
| Random.Shift32Onto | source/tbx_random.c:201-225 | and every number comes from a shift |
| Random.Shift31Undone | source/tbx_random.c:201-225 | the shift of the other register can be undone on numbers of 31 bits |
| Random.Shift31Onto | source/tbx_random.c:201-225 | and every such number comes from one |
| Random.NeverZeroIff | source/tbx_random.c:159-264 | the first register stays non-zero exactly if its seed is; the second one exactly if its seed is neither 0 nor 0xF4B785C7 |
| Random.PurelyPeriodicIff | source/tbx_random.c:233-264 | the pair of registers returns to its start exactly if the second one starts below 2^31 |
| Random.WhatSeedsAchieve | source/tbx_random.c:159-190 | what that means for the seeds that a handler supplies |

## Where the code falls short of its description

- The comment on `TbxRandomInitLFSRs` (source/tbx_random.c:154-158) speaks of non-zero seeds. The seed
  handler's second value is not reduced to 31 bits. 0xF4B785C7 passes the test for zero and is shifted to
  zero, where the register stays; any value with bit 31 set never comes back. `Random.WhatSeedsAchieve`
  gives the exact conditions.
- `TbxListSortItems` reads through the pointer to the first node without a test for NULL
  (source/tbx_list.c:915). That pointer is NULL exactly in an empty list
  (`Lists.Lists.EmptyListHasNoFirstNode`), so that `Lists.Lists.SortItems` asks for a list that is not
  empty, and for no more.
- A create that fails does not give back what it took: `PoolTheorems.CreateExtendsExactly` and
  `PoolTheorems.CreateNewExactly` say how many bytes are lost, for a pool that exists and for a new one.
- `TbxHeapAllocate` returns NULL if there is not enough space, but not for a size that wraps around to 0
  when it is rounded up (source/tbx_heap.c:87). `Target.RoundingWraps` has the exact condition and
  `Heap.Heap.Allocate` what is returned then. `Target.BlockTooShortIff` has the exact condition for the
  blocks of a pool, whose header is added to the size first (source/tbx_mempool.c:784).

## Left out

- MemPool.MemPool.Release: asks that the block is held; releasing a block twice or a foreign pointer is outside of the contract of the function.
- MemPool.MemPool.Create: asks that the block size with its header and the rounding fits a `size_t`; the code does not test it, and `Target.BlockTooShortIff` says what a block gets then. So do MemPool.MemPool.AllocateAuto and the methods that these call.
- MemPool.MemPool.ClientWrite: writes whole words; single bytes of a word are not distinguished.
- CritSectMulti.ReachesInv: does not model the claim of the spin lock in the first call of all, and takes the SDK's lock functions as their separate steps (read and set the mask, take the lock; free the lock, write the mask); the lock is claimed before the second core starts.
- CritSectSingle.CriticalSection.Enter: does not model the wrap-around of the 32-bit nesting counter, which takes 2^32 nested calls.
- Random.RandomNumbers.InitLFSRs: the seed handler appears as the two values that its calls return.
- Interleaving inside the pool, list and random functions: each call is atomic, and the critical sections in them are not repeated there.
- The assertion handler: the internal checks of the pools and lists are assertions that are proved; checks of arguments appear as the branches behind them.
- The Linux port, which simulates interrupts with a mutex for tests, and the ports for AVR and for the IAR and Keil compilers.
- Strength and statistics: the security of AES and the quality and length of the period of the random numbers.
- C++ and FreeRTOS wrappers, the endianness probe, templates and build files.
