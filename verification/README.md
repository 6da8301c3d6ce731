# cpp-ethereum: a verified model

A model, in Dafny, of the parts of cpp-ethereum where correctness rests on an
argument that no single function contains:

- **the Merkle Patricia trie over a reference-counted store** (`Bytes`, `Rlp`,
  `TrieCommon`, `Trie`, `TrieEdit`, `TrieRemove`, `TrieNode`, `TrieFacts`,
  `TrieSize`, `MemoryDb`, `TrieDb`, `TrieHash`, `TrieOrder`, `TrieIterator`, `TrieRun`).
  A trie has one normal form per map.  Insertion and removal keep it while they
  add and drop node references one by one, the batch construction builds the
  same tree from a sorted map, and the explicit-stack iterator walks it in key
  order;
- **the interpreter and its code rewriter** (`Evm`, `EvmMeaning`, `EvmGas`,
  `EvmCast`, `VmCode`, `Vm`).
  `Evm` states one step of the user's code with exact integers, and `EvmMeaning`
  what that does for each opcode, from the operands alone.  `Vm` is the
  interpreter: rewritten code, a constant pool, jumps that are not looked up,
  64-bit metering.  It ends every run as the steps of the user's code do;
- **the RLP writer and reader** (`Rlp`, `RlpStream`, `RlpView`): headers patched
  in afterwards against the recursive encoding, a reader that accepts exactly
  the encodings, and a caching index and an iterator that agree;
- **RLPx frames and capabilities** (`Rlpx`, `Capabilities`): two coders in step
  over any run of packets, and two hosts that number packets alike;
- **smaller pieces**: sets kept as ranges (`RangeMasks`) and the block gas
  limit (`GasLimit`).

The hash, ciphers and key agreement are uninterpreted functions.  Where the trie
needs the hash to be injective, it says so of the strings the store was given.
`dafny verify dfyconfig.toml` checks everything.

How to read the trie's results: a call on the store ends `Done`, or `Failed`
with a fault.  The store's faults are two strings with one hash, a string that
RLP's 64-bit lengths cannot hold, and a reference count at its 32-bit limit.
Removal has three more: it loses its way, or takes a value for a reference that
is too long for one, or that is the hash of a stored string.  Each method says
when no fault can occur; under those conditions it is `Done`, and what is
promised of `Done` calls holds.

## Model

| member | source | states |
|---|---|---|
| TrieRun.Replay | libdevcore/TrieDB.h:777-1065 | after any run of inserts and removals of any keys on an empty trie, the trie holds the canonical tree of exactly the resulting map and the reference counts fit it; it always succeeds when no two strings given to the store collide, keys and values are short, counts have room and each removal goes well, a condition on the map at that point |
| TrieRun.HashOfContents | libdevcore/TrieHash.cpp:94-110 | the batch hash of the sorted map is the root that the incrementally built trie has |
| TrieRun.BatchIsTrie | libdevcore/TrieHash.cpp:27-79 | whatever canonical tree covers the sorted list is the very tree of the trie with that map |
| TrieRun.SameMapSameRoot | libdevcore/TrieDB.h:87-93 | two tries with the same map have the same root, however they came about |
| TrieRun.InsertThenRemove | libdevcore/TrieDB.h:777-789 | for any new key, removing it after inserting it gives back the exact previous root and the exact previous reference counts |
| TrieRun.OneLengthApart | libdevcore/TrieDB.h:924-934 | keys of one length, as the hashed and typed tries use, are never proper prefixes of each other |
| Trie.Unique | libdevcore/TrieDB.h:1128-1164 | the normal form that graft and merge restore is unique: two trees in it with the same key/value pairs are the same tree |
| TrieDb.TrieDB.Init | libdevcore/TrieDB.h:68-69 | the empty trie is stored, and other tries over the same store keep their references |
| TrieDb.TrieDB.Insert | libdevcore/TrieDB.h:777-789 | the new tree's map is the old one with the key set; the store holds every node and counts every reference; succeeds without collision when sizes and counts leave room |
| TrieDb.TrieDB.Remove | libdevcore/TrieDB.h:924-934 | for any key: the new map is the old one without it, an absent key changing neither root nor store; it goes astray exactly on the absent keys that the map singles out, and then has changed nothing; it fails whenever it lays bare a value of more than 32 bytes |
| TrieDb.TrieDB.Get | libdevcore/TrieDB.h:791-826 | what is found in the store under a key is the map's value, or nothing |
| TrieDb.TrieDB.MergeAt | libdevcore/TrieDB.h:833-903 | the node item for the tree with the key set, with references released and taken so that exactly those inside the new node are held; cleave-and-retry and branch-and-retry end |
| TrieDb.TrieDB.DeleteAt | libdevcore/TrieDB.h:947-1048 | for any key: the node item for the tree without it, a branch's own value included, merged and grafted to normal form, with references released and taken so that exactly those inside the new node are held |
| TrieDb.TrieDB.Place | libdevcore/TrieDB.h:1067-1086 | replaces the value; killing a branch that has only the value drops no reference, since such a branch was never stored |
| TrieDb.TrieDB.CleveNode | libdevcore/TrieDB.h:1111-1126 | cutting a pair in two exchanges its own reference for that of the lower half and stores the latter |
| TrieDb.TrieDB.BranchNode | libdevcore/TrieDB.h:1166-1194 | a pair becomes the only entry of a branch, with the reference of what is left of it |
| TrieDb.TrieDB.GraftNode | libdevcore/TrieDB.h:1128-1149 | an extension over a pair becomes one pair, and the lower one's reference is dropped |
| TrieDb.TrieDB.LeftOvers | libdevcore/TrieDB.h:201-207 | lists exactly the referenced hashes that the scan does not reach: all but the tree's own, or all but the root where that has the empty trie's hash; none when the store is this trie's alone |
| TrieDb.TrieDB.Check | libdevcore/TrieDB.h:217-228 | true exactly if every referenced hash is reached or left-overs are allowed |
| TrieDb.TrieDB.Purge | libdevcore/MemoryDB.cpp:157-175 | purging keeps the trie valid and leaves exactly the referenced nodes |
| TrieEdit.PutAt | libdevcore/TrieDB.h:833-903 | after an insertion a lookup finds the new value under the key and the old ones elsewhere |
| TrieEdit.PutCanonical | libdevcore/TrieDB.h:833-903 | insertion keeps the normal form |
| TrieEdit.DelAt | libdevcore/TrieDB.h:947-1048 | after a removal a lookup finds nothing under the key and the old values elsewhere, for any keys |
| TrieEdit.DelCanonical | libdevcore/TrieDB.h:947-1048 | removal happens exactly if the key is stored and keeps the normal form, for any keys |
| TrieRemove.StrayIs | libdevcore/TrieDB.h:964-971 | deleteAt loses its way on a key exactly if the longest stored prefix of it is no prefix of another stored key, or it is not stored and two stored keys part right behind it |
| TrieRemove.ExposedIs | libdevcore/TrieDB.h:1033-1045 | the value that a removal lays bare is that of the key whose only longer stored key is the removed one |
| TrieRemove.FailingRemovals | libdevcore/TrieDB.h:947-1048 | a removal for each way of failing |
| TrieDb.TrieDB.CheckValue | libdevcore/TrieDB.h:936-940 | a branch's value taken for a reference passes if it is no longer than 32 bytes and not the hash of a stored string; longer ones throw |
| TrieDb.TwoItemsFound | libdevcore/TrieDB.h:936-940 | a stored item is taken for a pair exactly if it is a list of two |
| TrieRun.SmoothMeans | libdevcore/TrieDB.h:924-934 | when the map shows no obstacle to a removal, there is none in the tree: it does not go astray and lays bare nothing that could be a reference |
| TrieRun.ApartRunsSmoothly | libdevcore/TrieDB.h:924-934 | all removals go well when no key is a proper prefix of another |
| TrieSize.NodeShort | libdevcore/RLP.cpp:342-349 | with keys and values below 2^48 no node comes near the length RLP cannot express |
| TrieNode.InlineOrHash | libdevcore/TrieDB.h:1102-1109 | a node of up to 31 bytes stands in its parent as it is, a longer one as 0xa0 and its hash; no reference takes more than 33 bytes, and the empty node is the byte 0x80 |
| TrieHash.Hash256Rlp | libdevcore/TrieHash.cpp:27-79 | from any slice of a sorted map with a common prefix, the RLP item of a canonical tree that holds exactly that slice |
| TrieHash.Hash256Aux | libdevcore/TrieHash.cpp:81-92 | the same, as a reference: inlined below 32 bytes, else hashed |
| TrieHash.Rlp256 | libdevcore/TrieHash.cpp:94-105 | for the whole map, the root node's bytes of the one canonical tree that holds it |
| TrieHash.Hash256 | libdevcore/TrieHash.cpp:107-110 | their hash |
| TrieHash.SharedPre | libdevcore/TrieHash.cpp:38-50 | the prefix length found is common to all keys and some key leaves it there |
| TrieIterator.Collect | libdevcore/TrieDB.h:668-765 | from begin to end the iterator yields every pair of the trie once, in order, and ends |
| TrieIterator.VisitsTheContents | libdevcore/TrieDB.h:668-765 | that sequence is strictly ascending and holds exactly the map's pairs |
| TrieIterator.Iterator.LowerBound | libdevcore/TrieDB.h:530-666 | lower_bound stands on the first entry not before the key, with exactly the entries from there on still to come |
| TrieIterator.LowerBoundIsLeast | libdevcore/TrieCommon.h:69-85 | those are, in ascending order, exactly the pairs whose key is not earlier than the given one |
| TrieIterator.Iterator.Next | libdevcore/TrieDB.h:668-765 | each step goes to the next entry still to come, or to the end if there is none |
| TrieOrder.EntriesAscend | libdevcore/TrieDB.h:668-765 | a tree read with a branch's value before its children is in ascending key order |
| TrieCommon.KeyOfHexPrefix | libdevcore/TrieCommon.h:97-117 | reading back a hex-prefix encoding gives the nibbles and the leaf flag |
| TrieCommon.HexPrefixInjective | libdevcore/TrieCommon.cpp:46-61 | no two paths or flags share an encoding |
| TrieCommon.HexPrefixNibbles | libdevcore/TrieCommon.cpp:46-61 | the encoding spelt out: flag 1 or 3 before an odd path, 0 or 2 and a zero nibble before an even one, 2 and 3 for leaves |
| TrieCommon.HexPrefixBytes | libdevcore/TrieCommon.cpp:46-61 | its bytes: length, the flag in the first one, then two nibbles a byte, the earlier one high |
| TrieCommon.EncodeVector | libdevcore/TrieCommon.cpp:46-61 | the nibble-vector overload writes the encoding of the chosen range, a negative end counting back from one past the last nibble |
| TrieCommon.EncodeSlice | libdevcore/TrieCommon.cpp:63-82 | the byte-slice overload writes the same, for any offset and range |
| TrieCommon.EncodeTwoSlices | libdevcore/TrieCommon.cpp:84-114 | the two-slice overload writes the encoding of the concatenation |
| TrieCommon.SharedNibbles | libdevcore/TrieCommon.h:38-48 | the length of the longest common prefix of the two ranges |
| TrieCommon.IsEarlierThan | libdevcore/TrieCommon.h:74-85 | the order in which the iterator compares a key with a prefix |
| TrieDb.UniqueInUse | libdevcore/TrieCommon.cpp:116-129 | an index is returned only if it is the one slot in use besides the excepted one; 255 means none or several |
| MemoryDb.MemoryDB.Insert | libdevcore/MemoryDB.cpp:83-99 | the table after it, whatever was there: the string under its hash and one more reference, cut to 32 bits; and that it is sound exactly for a string below 0xffff_ffff_ffff_feff bytes that neither collides nor finds 0xffff_ffff references |
| MemoryDb.MemoryDB.Kill | libdevcore/MemoryDB.cpp:101-128 | the table after it, whatever was there: one reference less if there was one, the bytes kept until purge; and whether the hash collided |
| MemoryDb.MemoryDB.Lookup | libdevcore/MemoryDB.cpp:56-70 | the stored bytes, or nothing; unreferenced ones only while references are not enforced |
| MemoryDb.MemoryDB.Keys | libdevcore/MemoryDB.cpp:177-187 | exactly the hashes with references |
| MemoryDb.MemoryDB.Purge | libdevcore/MemoryDB.cpp:157-175 | exactly the referenced entries survive, unchanged |
| Rlp.ReaderAcceptsExactlyEncodings | libdevcore/RLP.cpp:159-215 | read recursively, a byte string is accepted as an item exactly when it is that item's encoding and its payload is below 0xffff_ffff_ffff_feff bytes: oversized, undersized, long-form-for-short, leading-zero and single-byte forms are all refused |
| Rlp.DecodeEncode | libdevcore/RLP.cpp:108-130 | the encoding of any item whose lengths fit 64 bits reads back as that item |
| Rlp.EncodeInjective | libdevcore/RLP.cpp:108-130 | no two items share an encoding |
| Rlp.AppendixB | libdevcore/RLP.cpp:276-349 | the encoding spelt out: a byte below 128 is itself; up to 55 bytes follow one byte from 128 or 192 on; more follow the number of bytes of the size and the digits of the size |
| Rlp.CutOrExtended | libdevcore/RLP.cpp:26-46 | an encoding with bytes behind it is oversized, and one cut anywhere behind its header undersized, but for the two-byte form of a single byte |
| RlpStream.EncodeByStream | libdevcore/RLP.cpp:276-349 | announcing each list by its length and streaming its items, with headers moved in afterwards, writes the recursive encoding of any writable item |
| RlpStream.RLPStream.NoteAppended | libdevcore/RLP.cpp:237-274 | counting items off closes exactly the lists that are complete, innermost first, and refuses one item too many; the bytes stay the payloads of the open lists |
| RlpStream.RLPStream.CloseList | libdevcore/RLP.cpp:247-270 | moving the payload up and writing the header in front of it gives the list's encoding |
| RlpStream.RLPStream.Append | libdevcore/RLP.cpp:296-315 | one byte string, stripped of leading zeros in compact form, arrives as one item |
| RlpStream.RLPStream.AppendInt | libdevcore/RLP.cpp:317-340 | an integer arrives as its shortest big-endian string |
| RlpStream.RLPStream.AppendList | libdevcore/RLP.cpp:276-284 | opens a list of n items; of none, it arrives complete at once |
| RlpStream.RLPStream.Out | libdevcore/RLP.h:439-440 | the output is available exactly when every opened list has all its items |
| RlpView.IntegersRoundTrip | libdevcore/RLP.h:274-295 | of everything that can be read as an item, bytes behind it or not, strict toInt yields n exactly from the one string that append writes for n, and only if n fits the target width |
| RlpView.CutShortReadsZero | libdevcore/RLP.h:274-295 | of everything that cannot be read as an item, toInt throws, but for encodings of strings of two bytes or more, the first not zero, that have lost some bytes, at most as many as their header has: of those it makes zero |
| RlpView.CutShortInput | libdevcore/RLP.h:328 | such an input: 0x82 0x01 |
| RlpView.RLP.Index | libdevcore/RLP.cpp:76-91 | whatever was asked before, the i-th item of the list, or a null item past the end |
| RlpView.RLP.Items | libdevcore/RLP.cpp:217-228 | ends, and counts the pieces the payload divides into, or fails where one cannot be sized |
| RlpView.Cursor.Next | libdevcore/RLP.cpp:48-59 | steps to the next item, or to the end |
| RlpView.Collect | libdevcore/RLP.cpp:48-74 | the iterator sees every item once, in order: the items that indexing returns |
| RlpView.WrittenListsAreWhole | libdevcore/RLP.cpp:217-228 | every list a writer writes is one that these readers read, and its pieces are its items' encodings |
| Vm.Exec | libevm/VM.cpp:241-258 | for every code, message with any gas and world, and either optimisation on or off, the interpreter over the rewritten code ends with the same outcome, output, gas and world history as the steps of the user's code with the 32-bit offsets of MLOAD, MSTORE and MSTORE8, given a pool that fits its offsets; below 0x2000_1808_0006 gas as the steps with full offsets |
| Vm.VM.Optimize | libevm/VMOpt.cpp:51-186 | for every code, leaves the rewritten instructions, the pool of all long pushes and the exact jump table |
| Vm.VM.ScanCode | libevm/VMOpt.cpp:57-110 | the table lists exactly the JUMPDESTs outside push data, in order, and the interpreter's own opcodes are made invalid |
| Vm.VM.PoolConstant | libevm/VMOpt.cpp:130-150 | a long push becomes a load with its pool offset and skip count; its constant is the pool's next entry |
| Vm.VM.ReplaceJump | libevm/VMOpt.cpp:152-179 | a jump right after a push goes unchecked exactly when the pushed constant is in the jump table |
| Vm.VM.InterpretOne | libevm/VM.cpp:211-224 | one round of the loop, stack check and fees included, is one step of the user's code |
| Vm.VM.Interpret | libevm/VM.cpp:264-1774 | the loop ends, and as the whole run of the user's code does |
| Vm.VM.UpdateGas | libevm/VM.cpp:185-192 | the 64-bit fee is the exact sum of base fee, copying and memory growth, or the gas is short |
| Vm.VM.UpdateMem | libevm/VM.cpp:194-200 | memory grows to whole words, paid for exactly |
| Vm.VM.CopyDataToMemory | libevm/VMCalls.cpp:24-37 | for every 256-bit offset, memory gets the data padded with zeros |
| Vm.VM.CaseCreate | libevm/VMCalls.cpp:107-174 | creation with 64-bit gas arithmetic does what the step states with exact integers |
| Vm.VM.CaseCall | libevm/VMCalls.cpp:176-303 | so do the four calls: fees, stipend, depth and balance checks, memory and return data |
| Vm.VM.SetupCall | libevm/VMCalls.cpp:208-304 | message, output area and refusal of a call, put together from the stack as the step says |
| Vm.VM.LoadCallData | libevm/VM.cpp:1312-1332 | the three cases of CALLDATALOAD, all of them the data padded with zeros |
| Vm.VM.VerifyJumpDest | libevm/VMCalls.cpp:86-100 | a jump goes through exactly if its full 256-bit destination is a JUMPDEST of the code |
| Vm.VM.CasePushC | libevm/VM.cpp:1524-1543 | the pool load pushes the constant of the push it replaced and goes on behind it |
| Vm.VM.CaseJumpC | libevm/VM.cpp:1619-1646 | the unchecked jump does what the checked one does |
| Vm.Exp256 | libevm/VMOpt.cpp:206-218 | square-and-multiply gives base to the exponent modulo 2^256, for all inputs |
| VmCode.StepKeepsPlace | libevm/VMOpt.cpp:152-179 | the run invariant behind unchecked jumps: execution stays on instruction boundaries, and a jump behind a push is entered only from that push, its constant on top |
| VmCode.LoadsAreExact | libevm/VMOpt.cpp:130-150 | every pool load yields its push's constant if and only if each pool entry equals the entry at its index modulo 2^16 |
| VmCode.ShortCodeFits | libevm/VMOpt.cpp:135-140 | code of up to 458752 bytes always meets that condition |
| VmCode.LongCodeMayNotFit | libevm/VMOpt.cpp:135-140 | code of seven bytes more whose pool does not fit |
| VmCode.LongCodeLoadsWrongly | libevm/VMOpt.cpp:130-150 | that code, however rewritten, loads another constant at its last push |
| EvmMeaning.OperandsTaken | libevm/Instruction.cpp:26-217 | how many operands each of the 256 opcodes takes |
| EvmMeaning.ResultsLeft | libevm/Instruction.cpp:26-217 | how many results it leaves |
| EvmMeaning.TierFees | libevm/VM.cpp:211-224 | the fee of its tier |
| EvmMeaning.Executed | libevm/VM.cpp:283-1774 | which opcodes each revision executes |
| EvmMeaning.Checked | libevm/VM.cpp:148-159 | underflow, overflow past 1024 and bad instructions are found in this order before anything else is done |
| EvmMeaning.Pays | libevm/VM.cpp:171-200 | fee and memory are paid together, three per word and the square over 512; memory grows to whole words by zeros; else the gas is short |
| EvmMeaning.CallMeans | libevm/VMCalls.cpp:176-304 | for each of the four calls, from its operands: fees, both areas paid, the message's kind, sender, destination, value, gas and input bytes; refused exactly for want of balance or at depth 1024; what the answer leaves on the stack, in gas, return data, history and in every byte of memory |
| EvmMeaning.CreateMeans | libevm/VMCalls.cpp:107-174 | the same for CREATE |
| EvmMeaning.MloadMeans | libevm/VM.cpp:383-391 | the word pushed has the 32 bytes at the offset for its digits |
| EvmMeaning.MstoreMeans | libevm/VM.cpp:393-411 | MSTORE puts the digits of the word there, MSTORE8 its lowest byte, and nothing elsewhere |
| EvmMeaning.Sha3Means | libevm/VM.cpp:413-426 | 30 and 6 per word; the hash of exactly the bytes chosen |
| EvmMeaning.CopyMeans | libevm/VM.cpp:1376-1439 | for each of the four copies, every byte of memory: the data's from the index on, zeros past its end, nothing elsewhere; past the end of the return data it fails |
| EvmMeaning.LogMeans | libevm/VM.cpp:428-524 | 375, as much per topic, 8 per byte; the bytes and topics recorded |
| EvmMeaning.SstoreMeans | libevm/VM.cpp:1717-1730 | 20000 for setting a zero value, else 5000; refused when static |
| EvmMeaning.SuicideMeans | libevm/VM.cpp:341-368 | the fee by revision, heir and balance; refused when static |
| EvmMeaning.ReturnMeans | libevm/VM.cpp:309-339 | RETURN and REVERT hand over exactly the bytes chosen |
| EvmMeaning.StopMeans | libevm/VM.cpp:370-376 | STOP, and the end of the code, end with the gas left |
| EvmMeaning.PushMeans | libevm/VM.cpp:1545-1598 | the word pushed has the bytes behind the opcode for its digits, zeros past the end of the code |
| EvmMeaning.DupMeans | libevm/VM.cpp:1648-1676 | the n-th operand on top |
| EvmMeaning.SwapMeans | libevm/VM.cpp:1678-1702 | the top and the n-th below it exchanged, the rest as it was |
| EvmMeaning.PopMeans | libevm/VM.cpp:1515-1521 | POP and JUMPDEST |
| EvmMeaning.JumpMeans | libevm/VM.cpp:1600-1617 | to a JUMPDEST that starts an instruction, or failure; JUMPI falls through on zero |
| EvmMeaning.WordMeans | libevm/VM.cpp:526-1774 | fee by revision and, for EXP, by bytes of the exponent; sums, differences, products and powers up to 2^256, quotients and remainders with zero for a zero divisor, comparisons, call data with zeros behind it, sizes, pc, gas and storage |
| EvmGas.StepSpends | libevm/VM.cpp:178-209 | every step after which a run goes on costs gas, calls and creation included, and at least the price of the memory it added |
| EvmGas.SpentCoversMemory | libevm/VM.cpp:185-200 | over any number of steps the gas spent covers the memory added, plus one per step |
| EvmGas.RunEnds | libevm/VM.cpp:264-281 | no run takes more steps than it had gas, plus one, and stepping that often gives the whole run |
| EvmCast.CastsLoseNothing | libevm/VM.cpp:383-411 | each of MLOAD, MSTORE and MSTORE8 does, from every state whose gas and paid-for memory come to some sum, what it does with full offsets, if and only if that sum is below 0x2000_1808_0006 |
| EvmCast.WitnessDiffers | libevm/VM.cpp:383-411 | from that sum on, a state for each of the three: offset 2^32 is cast to 0, and the step goes wrong |
| EvmCast.RunsAlikeBelow | libevm/VM.cpp:383-411 | whole runs with and without the casts end alike from all states of a sum if and only if it is below that bound |
| EvmCast.ProgramDiffers | libevm/VM.cpp:393-411 | a program that on a new machine returns the byte it stored at 2^32 as the first of memory |
| Evm.WordRoundTrip | libevm/VM.cpp:383-400 | a word stored and loaded again is the same word |
| Rlpx.Pair | libp2p/RLPXFrameCoder.cpp:91-152 | coders set up from the two ends of one handshake derive the same keys, and each outgoing lane is the other's incoming lane |
| Rlpx.FrameCoder.WriteSingleFramePacket | libp2p/RLPXFrameCoder.cpp:204-211 | writes that frame of the packet and moves cipher and MAC on |
| Rlpx.FrameSpecified | libp2p/RLPXFrameCoder.cpp:181-202 | every byte of a frame from key stream, block cipher and digest alone: whole blocks of 16 bytes, 48 to 63 more than the packet has, header and zero-padded packet encrypted, and what the MAC absorbs before each tag |
| Rlpx.FrameCoder.AuthAndDecryptHeader | libp2p/RLPXFrameCoder.cpp:213-223 | passes exactly if the tag is right, and then decrypts in place |
| Rlpx.FrameCoder.AuthAndDecryptFrame | libp2p/RLPXFrameCoder.cpp:225-234 | the same for the frame |
| Rlpx.SizeSurvives | libp2p/RLPXFrameCoder.cpp:204-211 | the three length bytes give the packet's size back if and only if it is below 2^24 |
| Rlpx.ReadFrame | libp2p/Session.cpp:330-405 | a frame sent in step is read as its packet and keeps the lanes in step; a packet comes out exactly when the bytes suffice, both tags are right, the header parses (its items too, a third one as a number of four bytes) and the packet checks |
| Rlpx.ReadAll | libp2p/Session.cpp:330-405 | the frames of any run of packets are read as exactly those packets |
| Rlpx.Outbox.Send | libp2p/Session.cpp:217-236 | whatever the order of sends and write completions, what is flushed is the frames of a prefix of what was sent, the front packet framed in place |
| Rlpx.Outbox.Written | libp2p/Session.cpp:238-284 | a completed write is taken off the queue and the next one framed, the queue staying in step with the coder |
| Rlpx.InfoOfHeader | libp2p/RLPXFrameCoder.cpp:37-46 | a header this side writes is parsed by the other side as what it says |
| Rlpx.InfoOfItems | libp2p/RLPXFrameCoder.cpp:35-44 | a header that lists any items is read as two-byte protocol and sequence ids, a four-byte total if there are just three, and padding to a block; it is refused if an item it needs is missing or no such number |
| Rlpx.InfoOfString | libp2p/RLPXFrameCoder.cpp:35-44 | a header that holds a string is read as the protocol id that the string starts with, and refused if it starts with none |
| Rlpx.PacketPasses | libp2p/Session.cpp:208-215 | an id and an item pass checkPacket exactly if the id is below 128 and nothing follows |
| Rlpx.Outbox.FlushedIsPrefix | libp2p/Session.cpp:238-284 | at any time, what has been flushed is the frames of the first so many packets sent |
| Rlpx.Deliver | libp2p/Session.cpp:217-405 | once the queue has drained, the peer has received exactly the packets sent, in order, and is in step |
| Capabilities.LeaveHighest | libp2p/Host.cpp:277-278 | the in-place erase(remove_if) leaves what a filter over the untouched list would exactly if it does not trip over an element that it has moved away |
| Capabilities.NamedNeverTrips | libp2p/Host.cpp:277-278 | it never does for a host whose capabilities have names |
| Capabilities.TrippingList | libp2p/Host.cpp:277-278 | a list and a host on which it does |
| Capabilities.NameLessIs | libp2p/Common.h:142-143 | names in a set or map of capabilities are ordered by the first character that differs, a proper prefix first |
| Capabilities.BothEndsAgree | libp2p/Host.cpp:277-278 | both ends keep the same list: the newest common version of each capability both have |
| Capabilities.AssignOffsets | libp2p/Host.cpp:326-337 | the first capability's ids start at 0x10, each other one's where those of the one before it end, as many as it has messages |
| Capabilities.SlotsDisjoint | libp2p/Host.cpp:326-337 | no id belongs to two capabilities |
| Capabilities.ReadPacket | libp2p/Session.cpp:119-145 | an id goes to the session, to the capability whose range holds it with its own number, or to nobody |
| Capabilities.SendAndRead | libp2p/Capability.cpp:45-48 | an id written by one end, if it fits its byte, reaches the same capability's same packet at the other |
| RangeMasks.RangeMask.UnionWithRange | libdevcore/RangeMask.h:233-291 | ends with the ranges sorted, disjoint, not touching and inside the ground range, and adds exactly the range's numbers |
| RangeMasks.RangeMask.UnionWith | libdevcore/RangeMask.h:102-109 | the union of the sets over the joined ground range, also with itself |
| RangeMasks.HullIsLeast | libdevcore/RangeMask.h:104-105 | the joined ground range is the least that holds both |
| RangeMasks.RangeMask.Inverted | libdevcore/RangeMask.h:78-91 | exactly the rest of the ground range |
| RangeMasks.RangeMask.Minus | libdevcore/RangeMask.h:97-98 | what is left, for any two ground ranges, and that a mask minus itself is left as it was |
| RangeMasks.MinusIsDifference | libdevcore/RangeMask.h:97-98 | that is set difference if and only if the other mask holds all of the joined ground range outside the mask's own; with equal ground ranges it always is |
| RangeMasks.RangeMask.MinusRange | libdevcore/RangeMask.h:97-98 | removes exactly the range's numbers |
| RangeMasks.SameElementsSameRanges | libdevcore/RangeMask.h:217-222 | the list of ranges is determined by the set, so equal sets are equal masks |
| RangeMasks.LowestIsRight | libdevcore/RangeMask.h:66-72 | lowest yields the smallest elements, as many as asked for, if and only if no sum of a range's begin and the number still wanted leaves 32 bits |
| RangeMasks.RangeMask.LowestItems | libdevcore/RangeMask.h:66-72 | the loop computes that list |
| RangeMasks.NextIsRight | libdevcore/RangeMask.h:181-192 | next is the least larger element or the end if and only if the argument is not the largest 32-bit number or the mask is empty |
| RangeMasks.RangeMask.Contains | libdevcore/RangeMask.h:123-129 | membership |
| RangeMasks.RangeMask.Full | libdevcore/RangeMask.h:136-139 | true exactly if the mask is its whole ground range |
| RangeMasks.RangeMask.Iterate | libdevcore/RangeMask.h:157-180 | iteration sees every element once, ascending, size() of them |
| RangeMasks.RangeMask.Count | libdevcore/RangeMask.h:195-201 | the number of elements |
| RangeMasks.FailingInputs | libdevcore/RangeMask.h:66-192 | one input each on which next, lowest and -= miss what they promise |
| GasLimit.ProposalInWindow | libethashseal/Ethash.cpp:182-191 | for a parent limit below 2^250, the proposed limit is inside the window that verify enforces, for every gas used and every floor target, if and only if a full parent block leaves room: (limit * 6/5) / divisor + 2 <= 2 * (limit / divisor), each division rounded down |
| GasLimit.AimsUp | libethashseal/Ethash.cpp:182-191 | below the floor target the proposal is the largest limit that verify takes and that does not pass the target |
| GasLimit.AimsDown | libethashseal/Ethash.cpp:182-191 | from the target on it keeps the target; with nothing used it is the smallest such limit that verify takes, and above the target it is the smallest that verify takes plus six fifths of the gas used over the divisor, rounded down |
| GasLimit.AimsHigher | libethashseal/Ethash.cpp:182-191 | more gas used never lowers it |
| GasLimit.ThreeIsRoomy | libethashseal/Ethash.cpp:121-127 | a parent limit of three times the divisor suffices for that condition |
| GasLimit.EmptyWindow | libethashseal/Ethash.cpp:121-127 | below one times the divisor no limit at all is in the window |
| GasLimit.SmallParentFails | libethashseal/Ethash.cpp:182-191 | a parent limit of 1024, all used, with divisor 1024: the proposal is refused |

## Findings

Where the code does not meet what it is for, the code is modelled as it is, with
an input that shows it and the exact condition under which it is right.

- **The constant pool has 16-bit offsets** (`libevm/VMOpt.cpp:137`).  With more
  than 65536 long pushes a load may yield another push's constant
  (`VmCode.LongCodeMayNotFit`).  Every load is exact if and only if the pool
  repeats itself modulo 2^16 (`VmCode.LoadsAreExact`), which code of up to
  458752 bytes cannot break; seven bytes more can (`VmCode.LongCodeLoadsWrongly`).
- **MLOAD, MSTORE and MSTORE8 cast their offset to 32 bits**
  (`libevm/VM.cpp:383-411`).  The instructions, and whole runs, are right from
  all states with a given sum of gas and price of memory if and only if it is
  below 0x2000_1808_0006 (`EvmCast.CastsLoseNothing`, `EvmCast.RunsAlikeBelow`).
  On a new machine `EvmCast.ProgramDiffers` goes wrong from twelve gas more on.
- **toInt makes zero of an integer that was cut short** (`libdevcore/RLP.h:328`).
  payload() compares the announced length alone with the data, and crops to
  nothing what does not fit.  `RlpView.CutShortReadsZero` says exactly of which
  strings, `RlpView.CutShortInput` gives one.
- **Removal looks for references where there are values** (`libdevcore/TrieDB.h:936-940`).
  When the last key below a stored key goes, the value of the latter is passed
  to isTwoItemNode, which throws if it is longer than 32 bytes, the node having
  been killed already (`TrieRemove.FailingRemovals`, `TrieDb.TrieDB.Remove`).
  `TrieRemove.ExposedIs` says whose value it is.
- **Removal of some absent keys goes astray** (`libdevcore/TrieDB.h:964-971`, `:1019`):
  below a leaf it takes the value for a node, and at a branch it reads a nibble
  of an empty key.  `TrieRemove.StrayIs` says exactly for which keys; stored
  keys, and keys of one length, are not among them.
- **The capability filter reads elements it has moved away** (`libp2p/Host.cpp:278`).
  With moved-from names empty, it is right if and only if it does not trip over
  one of them, which takes a host with a nameless capability
  (`Capabilities.LeaveHighest`, `Capabilities.TrippingList`).
- **The proposed gas limit can miss the window verify enforces**
  (`libethashseal/Ethash.cpp:182-191`), `GasLimit.SmallParentFails`.
  `GasLimit.ProposalInWindow` gives the exact condition.
- **RangeMask::lowest adds in 32 bits** (`libdevcore/RangeMask.h:70`):
  `lowest(0xffffffff)` of {1..4} is not {1..4}.  `RangeMasks.LowestIsRight` says
  exactly when it is right.
- **RangeMask::next wraps around at the largest number**
  (`libdevcore/RangeMask.h:185`), `RangeMasks.NextIsRight`.
- **RangeMask::operator-= inverts twice, in two ground ranges and in place**
  (`libdevcore/RangeMask.h:98`).  With a wider right operand the result can
  gain elements, and a mask minus itself stays as it was
  (`RangeMasks.MinusIsDifference`, `RangeMasks.RangeMask.Minus`).

## Left out

- TrieEdit.PutAt: states what lookups find in the new tree; which node items and references that takes is what TrieDb.TrieDB.MergeAt states.
- TrieEdit.DelAt: states what lookups find in the new tree; the effect on the store is what TrieDb.TrieDB.DeleteAt states.
- TrieDb.TrieDB.Remove: where it goes astray the code reads a value as a node or a nibble of an empty key, and what happens then is not modelled beyond the fault; where a value happens to be the hash of a stored string of two items, or of none that can be read, neither.
- TrieDb.TrieDB.Insert: values are not empty; an empty value would make the code's own "in use" tests wrong.
- MemoryDb.MemoryDB.Insert: after a collision or a full counter the table is what the code leaves, but nothing above the store goes on with it.
- MemoryDb.MemoryDB.Kill: is given the bytes besides the hash, only to notice a collision.
- TrieDb: items are values, so nodes are streamed by building the item; the bytes the stream writes for it are what RlpStream proves.
- TrieDb.TrieDB.Check: the exceptions it catches, which a valid trie does not raise.
- TrieRun.Replay: its conditions speak of the strings the store was given during the run, which no contract bounds beforehand.
- TrieIterator.Collect: wants whole bytes as keys; at() refuses a key of an odd number of nibbles.
- TrieHash.Hash256Rlp: keys are short enough for their nibble count to be a 32-bit unsigned, and no two are equal, as in a std::map.
- FatGenericTrieDB, aux entries of the store, Base64 and the hex helpers: easy members only.
- Vm.Exec: a run with a pool that does not fit is not covered, since an unchecked jump may then go anywhere; memory is not limited by what can be allocated.
- Evm: SDIV, SMOD, AND, OR, XOR, BYTE, the shifts, SIGNEXTEND, BLOCKHASH and the queries of the environment take their results from the world as a function of operands and history; arithmetic, comparison, memory, stack, copies, logs, jumps, calls and creation are spelled out.
- Vm.VM.Compute: apart from EXP and CALLDATALOAD the interpreter and the step it is held against compute their word by one function; what that word is, EvmMeaning.WordMeans says.
- Evm: the world answers as a function of what the run has done so far, and a callee gives back no more gas than it was given.
- Evm: the depth in a call's message stays 0, as caseCallSetup leaves it.
- Evm: the subroutine and vector opcodes are compiled out (EIP_615 and EIP_616 are false); their stack check and the error that follows are modelled.
- Vm: the error branches of PUSHC, JUMPC and JUMPCI in builds without the optimisations, which no run reaches.
- LegacyVM, VMSIMD and VMValidate: a near-copy, and code that is compiled out.
- Rlpx: Keccak, AES and the elliptic-curve agreement are uninterpreted; the agreement is taken to be commutative, and AES-CTR is a key stream by position.
- Rlpx.ReadFrame: one outcome stands for every way of ending a session, a short read among them; the sequence number of a multi-frame header is parsed and then ignored, as in the code.
- Rlpx.Outbox.Send: sockets, timers and the locks around the queue.
- Capabilities.LeaveHighest: a moved-from name is taken to be empty, which the language does not promise.
- Capabilities.ReadPacket: a disabled capability swallows its packets in the code; here it still is the one addressed.
- RangeMasks.RangeMask.UnionWithRange: the branch for a later range that begins at i (RangeMask.h:258-260) cannot be reached, since upper_bound looks strictly behind i, and is not in the model.
- RangeMask: firstOut, lastIn, clear, reset and extendAll: easy members only.
- GasLimit: the chain's own minimum and maximum limits in verify, and calculateDifficulty, a formula with no second definition to hold it against.
- Sockets, files, databases, logging and JSON: input and output.
