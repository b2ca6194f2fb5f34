# Verified models of the GSM metadata toolchain

The repository decodes GSM and 3G signalling traffic.  This project models, in Dafny, the
parts of it whose correctness is hardest to see, and proves what they promise for every input,
every run or every reachable state.

* **Red-black tree and timer queue** (libosmocore): `RbTrees` holds trees, paths and colours,
  `RbHeap` the representation of a tree by linked nodes with parent pointers, `RbTree` the
  updates in place, `Timers` the scheduler whose callbacks may add, delete and reschedule.
* **Channel coding** (gsm-parser, sections 4.1.2 to 4.1.4 and 4.7 of 3GPP TS 45.003):
  `Trellis` is dynamic programming over any trellis, `ConvCode` the GSM code, `Sch` the hard
  and `Viterbi` the soft decoder, `Crc`, `Interleave` and `BitFunc` the stages around them and
  `Sacch` the whole chain.  `OsmoCode`, `OsmoWalk`, `OsmoExact` and `OsmoConv` are the generic punctured and
  terminated coder of libosmocore.
* **ASN.1 codec primitives** (libasn1c): `PerBits`, `PerStream`, `PerReader` and `PerOctets` are
  the PER bit streams and fragmented strings (section 10.9.3 of X.691), `BerTlv` and `DerTags`
  the BER and DER headers (sections 8.1.2 and 8.1.3 of X.690), `DerChains` what their check
  accepts, `AsnInteger` INTEGER contents (section 8.3.2 of X.690), `Utf8` the six octet UTF-8 of
  section 2 of RFC 2279.
* **LAPDm reassembly** (gsm-parser, 3GPP TS 44.006) in `Lapdm`, and the lossy **ring buffer**
  of libosmocore in `StrRb`.

Code that works in place is a class or a method on arrays, proved against a specification
function; the theorems are lemmas about those functions.  Times, soft bits and the calls that
timer callbacks make are parameters.  `Gf2`, `Powers`, `Slices` and `Wrappers` hold what
several modules share.  `dafny verify dfyconfig.toml` checks everything.

Where the code does less than its documentation or a reader would expect:

* `osmo_conv_decode` guesses input bits from states.  For some tables the input it returns
  costs more than the metric it reports; `OsmoExact.AttainsIffReadable` says for which codes, as
  a condition on their tables.
* Its bit mask is an octet.  With N above 8 the decoder reads nothing of what was sent
  (`OsmoCode.WideReadsNothing`).
* The fragment loops of PER write no final zero fragment after a multiple of 16384 octets, so
  such strings do not decode (`PerOctets.StringSurvivesIff`).
* The out-of-sequence counter of LAPDm has 16 bits.  After 65536 counted late frames it is 0 and
  a message that had been given up is continued (`Lapdm.WrapDelivers`).
* Nothing ends a LAPDm message that outgrows its buffer of 640 octets: fragment 33 of 20 octets
  is written behind its end (`Lapdm.Overruns`).
* `osmo_strrb_get_nth` promises NULL for an index without a message; from the index `size` on it
  can return some message instead (`StrRb.RingBuffer.GetNth`, `StrRb.StrayIndex`).
* `ber_check_tags` cannot check what `der_write_tags` writes for an untagged type
  (`DerTags.HeaderAccepted`); for a type without tags in implicit mode it would hit an
  assertion.  Nor does it take lengths within 1024 of the largest, which the writer writes.

## Model

| member | source | states |
|---|---|---|
| RbTree.Root.RotateLeft | libosmocore/src/rbtree.c:25-46 | which links change in a left rotation and to what; everything else is outside its frame |
| RbTree.Root.RotateRight | libosmocore/src/rbtree.c:48-69 | the mirror image |
| RbHeap.RotatedLeft | libosmocore/src/rbtree.c:25-46 | those link changes turn the heap that represents a tree anywhere below the root into one that represents the rotated tree, parent links included |
| RbHeap.RotatedRight | libosmocore/src/rbtree.c:48-69 | the same for a right rotation |
| RbTree.Root.RotateLeftAt | libosmocore/src/rbtree.c:25-46 | the rotation, executed inside any tree, represents the rotated tree with everything above unchanged |
| RbTree.Root.RotateRightAt | libosmocore/src/rbtree.c:48-69 | the same for a right rotation |
| RbTrees.RotLOrder | libosmocore/src/rbtree.c:25-46 | a left rotation keeps the in-order sequence |
| RbTrees.RotROrder | libosmocore/src/rbtree.c:48-69 | a right rotation keeps the in-order sequence |
| RbTrees.RecolouredInserting | libosmocore/src/rbtree.c:77-91 | red uncle: recolouring moves the only possible red-red edge two levels up, keeps black heights and order |
| RbTrees.RestoredInserting | libosmocore/src/rbtree.c:93-130 | black uncle: the one or two rotations leave no red-red edge, keep black heights and order |
| RbTrees.InsertingDone | libosmocore/src/rbtree.c:75-133 | when the loop stops, painting the root black gives a red-black tree |
| RbTree.Root.InsertStep | libosmocore/src/rbtree.c:75-131 | one turn of the loop keeps the insertion invariant and the order and comes closer to the root |
| RbTree.Root.InsertColor | libosmocore/src/rbtree.c:71-134 | from any tree with one freshly linked red node: a red-black tree with the same in-order sequence |
| RbTree.Root.Link | libosmocore/include/osmocom/core/linuxrbtree.h:150-157 | the node becomes a red leaf in the chosen empty slot |
| RbTree.Root.Insert | libosmocore/src/rbtree.c:71-134 | linking a node into any empty slot and recolouring keeps all red-black rules and parent links, and puts the node exactly at that place of the order |
| RbTrees.LoweredErasing | libosmocore/src/rbtree.c:143-152 | red sibling: after the rotation the sibling is black, the missing black is still the only defect |
| RbTrees.RaisedErasing | libosmocore/src/rbtree.c:153-159 | black sibling with black children: the defect moves one level up |
| RbTrees.ClosedSettled | libosmocore/src/rbtree.c:160-175 | black sibling with a red child: the rotations remove the defect, nothing else changes |
| RbTrees.ErasingDone | libosmocore/src/rbtree.c:211-213 | when the loop stops at the root or at a red node, painting it black settles the tree |
| RbTree.Root.EraseStep | libosmocore/src/rbtree.c:141-210 | one turn of the loop, left or right, either settles the tree or comes closer to the root; the order is kept |
| RbTree.Root.EraseColor | libosmocore/src/rbtree.c:136-214 | from any tree that misses one black on one path: a red-black tree with the same order; the loop terminates |
| RbTree.Root.Unlink | libosmocore/src/rbtree.c:263-276 | splicing out a node with at most one child |
| RbTree.Root.TransplantAt | libosmocore/src/rbtree.c:225-261 | putting the in-order successor in the place of a node with two children, whether or not it is that node's own child |
| RbTrees.UnlinkedColours | libosmocore/src/rbtree.c:263-280 | a removed red node leaves a settled tree, a removed black one exactly one missing black |
| RbHeap.TransplantColours | libosmocore/src/rbtree.c:225-280 | the same for the node with two children, whose successor takes over its colour |
| RbTree.Root.EraseOuter | libosmocore/src/rbtree.c:216-281 | erasing a node with at most one child |
| RbTree.Root.EraseInner | libosmocore/src/rbtree.c:216-281 | erasing a node with two children |
| RbTree.Root.Erase | libosmocore/src/rbtree.c:216-281 | erasing any node of any valid tree gives a valid tree (no red-red edge, equal black heights, black root, consistent parent links) whose in-order sequence is the old one without that node |
| RbTree.Root.RecolourUncle | libosmocore/src/rbtree.c:83-90 | the red uncle step, on the links |
| RbTree.Root.RestoreLeft | libosmocore/src/rbtree.c:93-104 | the rotations for a parent that is a left child, on the links |
| RbTree.Root.RestoreRight | libosmocore/src/rbtree.c:118-129 | the rotations for a parent that is a right child, on the links |
| RbTree.Root.LowerLeft | libosmocore/src/rbtree.c:146-152 | the red sibling step, on the links |
| RbTree.Root.LowerRight | libosmocore/src/rbtree.c:180-186 | its mirror image |
| RbTree.Root.RaiseSibling | libosmocore/src/rbtree.c:156-158 | the step for a sibling with black children, on the links |
| RbTree.Root.CloseLeft | libosmocore/src/rbtree.c:160-175 | the last step, for a sibling with a red child, on the links |
| RbTree.Root.CloseRight | libosmocore/src/rbtree.c:194-209 | its mirror image |
| RbTree.Root.EraseStepLeft | libosmocore/src/rbtree.c:143-176 | the left half of the loop body |
| RbTree.Root.EraseStepRight | libosmocore/src/rbtree.c:177-210 | the right half of the loop body |
| RbTree.Root.Blacken | libosmocore/src/rbtree.c:212-213 | painting the node where the loop stopped gives a red-black tree |
| RbTree.Root.Transplant | libosmocore/src/rbtree.c:233-258 | which links and colours change when the successor takes the place of a node |
| RbTree.Root.Graft | libosmocore/src/rbtree.c:233-258 | the same as a change of the whole heap |
| RbHeap.Grafted | libosmocore/src/rbtree.c:233-258 | those changes turn the heap into one that represents the tree without the node |
| RbTree.Root.Leftmost | libosmocore/src/rbtree.c:229-231 | the successor of a node with two children |
| RbTree.Root.First | libosmocore/src/rbtree.c:286-296 | the first node of the in-order sequence, null for the empty tree |
| RbTree.Root.Next | libosmocore/src/rbtree.c:310-336 | the in-order successor, null for the last node |
| RbTrees.PlugOrder | libosmocore/src/rbtree.c:25-134 | the in-order sequence of a whole tree, in terms of any subtree and what surrounds it |
| RbTrees.PlugRedBlack | libosmocore/src/rbtree.c:25-134 | the rules at a subtree and along its path give the rules for the whole tree |
| RbTrees.HeightBound | libosmocore/src/rbtree.c:25-134 | a red-black tree of n nodes has 2^height <= (n+1)^2, that is height at most 2 log2(n+1) |
| RbTrees.DepthWithin | libosmocore/src/rbtree.c:25-134 | no node lies deeper than that height |
| Timers.LessIs | libosmocore/include/osmocom/core/timer_compat.h:43-73 | for microseconds in 0..999999 comparison, sum and difference are those of the times in microseconds |
| Timers.SortedByMicros | libosmocore/src/timer.c:46-65 | the kept order is that of the timeouts in microseconds |
| Timers.Queue.FindSlot | libosmocore/src/timer.c:46-61 | the descent ends in a slot with every earlier or equal timer before it and every later one after it |
| Timers.Queue.AddTimer | libosmocore/src/timer.c:46-65 | the timer enters the order behind all timers that do not expire later |
| Timers.InsertedSorted | libosmocore/src/timer.c:46-65 | inserted there, the order stays sorted by timeout |
| Timers.RemovedSorted | libosmocore/src/timer.c:106-115 | removing a timer whose timeout has been overwritten restores the order |
| Timers.Queue.TimerAdd | libosmocore/src/timer.c:70-76 | an add removes the timer first, from the tree and from the eviction list, and keeps the queue sorted and consistent with the active flags, even if the timeout was changed while it was queued |
| Timers.Queue.TimerDel | libosmocore/src/timer.c:106-115 | a deleted timer leaves the tree and the eviction list; all other timers stay |
| Timers.Queue.Perform | libosmocore/src/timer.c:70-115 | add, schedule and delete: what happens to the timer, that a scheduled timeout is the sum in microseconds, and that no other timer is touched |
| Timers.Queue.Callback | libosmocore/src/timer.c:70-115 | any series of calls from a callback keeps the queue valid; the eviction list loses exactly the touched timers |
| Timers.Queue.Prepare | libosmocore/src/timer.c:173-205 | the wait, in microseconds, is the time up to the earliest timer, zero if that has expired, none if no timer will ever expire |
| Timers.Queue.CollectExpired | libosmocore/src/timer.c:216-226 | the eviction list is exactly the expired timers, latest first |
| Timers.Queue.FireFirst | libosmocore/src/timer.c:240-246 | one turn of the restarted loop: the first listed timer is deleted and its callback run |
| Timers.Queue.FireAll | libosmocore/src/timer.c:240-246 | the restarted loop terminates and fires the sequence that `Firing` defines |
| Timers.FiringSound | libosmocore/src/timer.c:240-246 | only listed timers fire, each at most once, none after an earlier callback touched it |
| Timers.FiringComplete | libosmocore/src/timer.c:240-246 | a listed timer that does not fire was touched by the callback of a timer that comes before it in the list and did fire |
| Timers.FiringOrder | libosmocore/src/timer.c:240-246 | timers fire in the order of the eviction list |
| Timers.FiringExactly | libosmocore/src/timer.c:240-246 | all together: a listed timer fires if and only if no callback that ran before its turn touched it |
| Timers.FiringReversed | libosmocore/src/timer.c:216-246 | the same for expired timers, which are listed latest first: they fire in reverse order of expiry |
| Timers.Queue.Update | libosmocore/src/timer.c:208-249 | whatever the callbacks do: only timers expired at entry fire, each once, in reverse order of expiry, both stated in microseconds; an expired timer fires if and only if no callback that ran before its turn touched it; timers that no callback touched keep their timeout and stay queued exactly if not expired |
| ConvCode.NextIsShift | gsm-parser/sch.c:104-109 | the next-state table is a four bit shift register |
| ConvCode.OutputIsPolynomials | gsm-parser/sch.c:91-96 | the output table evaluates the two generator polynomials |
| ConvCode.ConvEncode | gsm-parser/sch.c:146-158 | the encoder emits the code word of its input |
| ConvCode.CodedIsConvolution | gsm-parser/sch.c:68-79 | every code bit is the sum of input bits that the documentation of G_0 and G_1 gives |
| ConvCode.SymbolsInjective | gsm-parser/viterbi.c:33-45 | different inputs of equal length have different code words |
| ConvCode.CodedInjective | gsm-parser/sch.c:146-158 | and so in code bits |
| Trellis.RelaxLeast | gsm-parser/sch.c:183-213 | no scanned edge into a state beats its survivor |
| Trellis.MetricsLeast | gsm-parser/sch.c:183-213 | for any trellis: no path into a state is cheaper than that state's metric |
| Trellis.Traced | gsm-parser/sch.c:232-238 | for any trellis: reading the survivors backwards gives a path of exactly that metric |
| ConvCode.InputIsPath | gsm-parser/sch.c:183-213 | every input is a path of the trellis |
| ConvCode.PathIsInput | gsm-parser/sch.c:183-213 | every path of the trellis is an input |
| ConvCode.SurvivorsOptimal | gsm-parser/viterbi.c:79-140 | the survivor of the best state is cheapest among all inputs of that length |
| ConvCode.AliveIffReached | gsm-parser/viterbi.c:79-122 | a state stays below MAX_AE exactly if some input of cost below MAX_AE leads to it |
| ConvCode.FindLeast | gsm-parser/viterbi.c:124-134 | the state of least metric |
| Sch.PrevNextInverts | gsm-parser/sch.c:119-136 | the previous/next table returns the bit of every transition |
| Sch.HammingCounts | gsm-parser/sch.c:139-143 | the distance is the number of positions in which two words differ |
| Sch.HammingZero | gsm-parser/sch.c:139-143 | it is zero exactly for equal words |
| Sch.InputCostIsHamming | gsm-parser/sch.c:139-143 | the accumulated error of an input is the Hamming distance between its code word and the received word |
| Sch.ScanStates | gsm-parser/sch.c:180-213 | one stage of the scan stores the survivors of all states |
| Sch.AdvanceStage | gsm-parser/sch.c:178-220 | one stage turns the metrics of t steps into those of t+1 and records the predecessors |
| Sch.TracePath | gsm-parser/sch.c:232-238 | the traceback yields the survivor's input |
| Sch.ConvDecode | gsm-parser/sch.c:161-242 | for every received word of every length the result is the least Hamming distance to any code word, and the output attains it |
| Sch.Loopback | gsm-parser/sch.c:146-242 | an undisturbed code word decodes to its input with no error |
| Viterbi.DiffIs | gsm-parser/viterbi.c:107 | the cost of a soft bit is the squared difference divided by 512, rounded down |
| Viterbi.DiffBound | gsm-parser/viterbi.c:102-110 | a soft bit costs at most 127 |
| Viterbi.InputCostIsDeviation | gsm-parser/viterbi.c:102-110 | the accumulated error of an input is the scaled squared distance between its code word and the soft input |
| Viterbi.ScanStates | gsm-parser/viterbi.c:86-118 | one stage of the soft scan stores the survivors of all states |
| Viterbi.TraceBack | gsm-parser/viterbi.c:136-146 | the traceback, which tells the bit from the next-state table, yields the survivor's input |
| Viterbi.ConvCchDecode | gsm-parser/viterbi.c:61-149 | for every soft input with 254 n below MAX_AE the output has least cost among all n-bit inputs |
| Crc.Cancel | gsm-parser/crc.c:157-159 | one step of the division |
| Crc.Divide | gsm-parser/crc.c:147-178 | the in-place loop computes the reduction by the generator polynomial |
| Crc.ParityEncode | gsm-parser/crc.c:147-162 | the parity bits of a block |
| Crc.ParityCheck | gsm-parser/crc.c:165-178 | accepts exactly the words with the given remainder |
| Crc.RemainderLinear | gsm-parser/crc.c:165-178 | the remainder is linear over GF(2) |
| Crc.DivisionIdentity | gsm-parser/crc.c:147-178 | long division: the reduced word is the word plus quotient times generator |
| Crc.RemainderZeroIffMultiple | gsm-parser/crc.c:147-178 | the remainder is zero exactly for the multiples of the generator |
| Crc.ProductAt | gsm-parser/crc.c:156-159 | what is meant by a multiple: every coefficient of a product counts, modulo 2, the pairs of coefficients that meet there |
| Crc.ParityIff | gsm-parser/crc.c:147-162 | the parity bits are exactly those whose complement makes the word a multiple of the generator |
| Crc.AcceptedIffEncoded | gsm-parser/crc.c:147-178 | a word passes the check exactly if its parity is what the encoder computes |
| Crc.BurstDetected | gsm-parser/crc.c:165-178 | two different words that differ only within a window no longer than the parity have different remainders, so at most one is accepted |
| Interleave.InitMap | gsm-parser/gsm_interleave.c:10-15 | the table that the SACCH loop fills |
| Interleave.BurstAndPlace | gsm-parser/gsm_interleave.c:11-15 | burst and place of every bit as section 4.1.4 of 3GPP TS 45.003 has them |
| Interleave.UnmapMap | gsm-parser/gsm_interleave.c:11-17 | the interleaving map has an inverse |
| Interleave.MapInjective | gsm-parser/gsm_interleave.c:11-17 | no two bits of a block share a position |
| Interleave.InterSacch | gsm-parser/gsm_interleave.c:25-30 | where each bit goes |
| Interleave.DeinterSacch | gsm-parser/gsm_interleave.c:32-37 | where each bit comes from |
| BitFunc.ExpandLsb | gsm-parser/bit_func.c:59-69 | the bits of the octets, least significant first |
| BitFunc.CompressLsb | gsm-parser/bit_func.c:26-41 | sets exactly the given bits of the buffer and keeps all others |
| BitFunc.MaskIs | gsm-parser/bit_func.c:26-41 | the mask of bit k is 2^k |
| BitFunc.BitAtIs | gsm-parser/bit_func.c:59-69 | bit i is the lowest one of octet i div 8 shifted down by i mod 8 |
| BitFunc.BitsDetermine | gsm-parser/bit_func.c:26-69 | octets with the same bits are the same |
| Sacch.EncodeSignalling | gsm-parser/cch.c:52-67 | the four bursts hold the interleaved code word of message, parity and tail |
| Sacch.GeneratorAt | gsm-parser/cch.c:17-24 | the coefficients of the generator |
| Sacch.GeneratorIsProduct | gsm-parser/cch.c:17-24 | the generator is (x^23 + 1) (x^17 + x^3 + 1) |
| Sacch.BlockParts | gsm-parser/cch.c:52-67 | the block is 184 message bits, 40 parity bits and 4 zeros |
| Sacch.CleanUnique | gsm-parser/viterbi.c:61-149 | against soft bits of the right sign, whatever their amplitude, the sent word is the only cheapest one |
| Sacch.CheapestIsSent | gsm-parser/cch.c:69-96 | so the cheapest input is the sent block |
| Sacch.DecodeSignalling | gsm-parser/cch.c:69-96 | a cheapest input is found; the message is returned exactly if its parity holds, and then holds its bits |
| Sacch.SoftBursts | gsm-parser/ccch.c:74-79 | each burst bit becomes plus or minus the amplitude of its burst |
| Sacch.TryDecode | gsm-parser/ccch.c:73-84 | every message sent in four bursts is decoded, whatever the non-zero amplitude of each burst |
| Sacch.Loopback | gsm-parser/ccch.c:73-84 | encoding, soft bits, deinterleaving and decoding return every 23 octet message |
| OsmoConv.GetOutputLength | libosmocore/src/conv.c:48-75 | the announced output length, for every termination and for a block length of its own |
| OsmoCode.AllUsedIffSorted | libosmocore/src/conv.c:107-135 | the puncture index passes the whole list exactly if it is sorted and in range |
| OsmoCode.SkippedIff | libosmocore/src/conv.c:107-135 | with a sorted list exactly the listed positions are skipped |
| OsmoCode.KeptCounts | libosmocore/src/conv.c:107-135 | a transmitted bit stands behind all transmitted bits of lower positions |
| OsmoConv.OutputLengthExact | libosmocore/src/conv.c:54-75 | with flush termination that is the number of emitted bits exactly if the puncture list is sorted and in range |
| OsmoConv.Encoder.DoOutput | libosmocore/src/conv.c:107-135 | the kept bits of one symbol |
| OsmoConv.Encoder.EncodeRaw | libosmocore/src/conv.c:137-164 | the kept bits of the data steps |
| OsmoConv.Encoder.EncodeFlush | libosmocore/src/conv.c:166-200 | the kept bits of the termination, from the optional tables or as zero bits |
| OsmoConv.Encode | libosmocore/src/conv.c:212-232 | the transmitted word of a terminated block, stated on the fields of the code: there is a walk through the states by the tables, and every bit that is not punctured is the bit of its step's table entry |
| OsmoCode.EmittedBitAt | libosmocore/src/conv.c:107-135 | which emitted bit is bit j of step i, for every position that is not punctured |
| OsmoConv.Decoder.GetInput | libosmocore/src/conv.c:356-373 | the decoder skips exactly the positions that the encoder skips |
| OsmoConv.Decoder.ScanStates | libosmocore/src/conv.c:375-408 | one data step stores the survivors of all states |
| OsmoConv.Decoder.FlushStates | libosmocore/src/conv.c:476-513 | one termination step stores the survivors of all states |
| OsmoConv.Encoder.OutputFrom | libosmocore/src/conv.c:107-135 | the loop over the bits of a symbol at any position |
| OsmoConv.Decoder.InputFrom | libosmocore/src/conv.c:357-367 | the loop over the soft bits of a symbol at any position |
| OsmoConv.Decoder.PathError | libosmocore/src/conv.c:388-400 | what one transition adds to the error, with the octet-wide mask |
| OsmoCode.ReadsSentIff | libosmocore/src/conv.c:389-399 | the mask is an octet: the decoder reads every bit that the encoder sends if and only if a symbol has at most 8 bits |
| OsmoCode.WideReadsNothing | libosmocore/src/conv.c:389-399 | with more than 8 bits to a symbol the decoder reads nothing, so that every input has the same cost |
| OsmoConv.Decoder.Commit | libosmocore/src/conv.c:410-411 | the stored survivors are the metrics of the next step, and the history holds their predecessors |
| OsmoConv.Decoder.SkipFlush | libosmocore/src/conv.c:566-573 | the termination steps yield no bits |
| OsmoConv.Decoder.TraceBack | libosmocore/src/conv.c:575-587 | the traced bits |
| OsmoConv.Decoder.DecodeScan | libosmocore/src/conv.c:320-419 | the metrics after all data steps |
| OsmoConv.Decoder.DecodeFlush | libosmocore/src/conv.c:421-524 | the metrics after the termination |
| OsmoConv.Decoder.GetOutput | libosmocore/src/conv.c:526-590 | the traced input and its metric |
| OsmoCode.AccumulatedLeast | libosmocore/src/conv.c:346-516 | no input is cheaper than the metric of the state it leads to |
| OsmoCode.TracedAttains | libosmocore/src/conv.c:561-587 | the survivor's own bits cost exactly the metric |
| OsmoConv.Decode | libosmocore/src/conv.c:602-629 | for any tables and puncture list, stated on the fields of the code: no terminated walk costs less than the returned metric, and the output is read off the states of a terminated walk of that cost, the first one with its word; it is terminated too, and attains the cost under the condition of OsmoExact.AttainsIffReadable |
| OsmoWalk.WalkStates | libosmocore/src/conv.c:137-200 | the states of an input are those that the fields of the code say |
| OsmoWalk.EmittedSends | libosmocore/src/conv.c:107-200 | what is emitted is what the walk sends |
| OsmoWalk.WalkCostIs | libosmocore/src/conv.c:377-400 | the accumulated cost of an input is that of its walk, squared differences over 512 summed over the bits received |
| OsmoWalk.Decodes | libosmocore/src/conv.c:602-629 | the least terminated walk and what is read off it |
| OsmoCode.FreeIffSameWord | libosmocore/src/conv.c:320-524 | against an undisturbed word exactly the inputs with the same transmitted bits cost nothing |
| OsmoCode.NotInvertibleCanMiss | libosmocore/src/conv.c:580-587 | the traceback guesses bits from states; tables on which it returns an input that costs more than the metric |
| OsmoExact.GuessedStates | libosmocore/src/conv.c:576-587 | the guessed bits never leave the best state path |
| OsmoExact.TracedIsGuessed | libosmocore/src/conv.c:561-587 | the output is the guess for the best input |
| OsmoExact.CleanTrace | libosmocore/src/conv.c:346-587 | the survivor for any received word is, ties included, the survivor for its own undisturbed word |
| OsmoExact.GuessedWord | libosmocore/src/conv.c:576-587 | guessing keeps the word of an input if and only if, wherever it has a 1 in a state where both bits lead to the same next state, both send the same kept bits |
| OsmoExact.SurvivorIsFirst | libosmocore/src/conv.c:346-516 | of all terminated inputs with the same word only the one that comes first in scan order, compared from the end, can survive |
| OsmoExact.ScanFirstUnique | libosmocore/src/conv.c:346-516 | no two inputs with the same word are both first |
| OsmoExact.FirstSurvives | libosmocore/src/conv.c:346-587 | and the first one does survive, for its own undisturbed word |
| OsmoExact.DecodedIsGuess | libosmocore/src/conv.c:526-590 | for every received word: the output is the guess for a first input of least cost, and attains that cost if the input is readable |
| OsmoExact.AttainsIffReadable | libosmocore/src/conv.c:602-629 | for every code: the output attains the least metric for every received word if and only if of each word the first input is readable (or symbols have more than 8 bits and nothing is read at all) |
| OsmoExact.AttainsIffLoopsBack | libosmocore/src/conv.c:602-629 | equivalently, with up to 8 bits to a symbol: every undisturbed code word decodes to an input with that word, so noise adds no way to fail |
| OsmoExact.LoopsBackIffReadable | libosmocore/src/conv.c:602-629 | for one block, with up to 8 bits to a symbol: its undisturbed word decodes to an input with that word if and only if the first input with that word is readable |
| OsmoExact.AttainsIffFaithful | libosmocore/src/conv.c:580-587 | the special case of codes whose words tell the states: there every terminated input has to be readable |
| OsmoExact.FaithfulAttains | libosmocore/src/conv.c:580-587 | if every terminated input is readable the output attains the least metric, for every code |
| OsmoExact.InvertibleIsFaithful | libosmocore/src/conv.c:580-587 | so it does if in each state the two inputs lead to different states or give the same output |
| OsmoConv.Loopback | libosmocore/src/conv.c:212-629 | encoding and decoding over an undisturbed channel give an input with the same word, with up to 8 bits to a symbol: if and only if the first input with that word is readable, and always if in each state the two inputs lead to different states or give the same output |
| PerBits.BitsOfValue | libasn1c/src/per_support.c:37-116 | the bits of the value of a bit string are that string |
| PerBits.BitsOfAt | libasn1c/src/per_support.c:269-349 | bit i of a field of w bits is the one of weight 2^(w-1-i) |
| PerBits.OctetBitsAt | libasn1c/src/per_support.c:37-116 | octet after octet, the highest bit of each first |
| PerBits.OctetBitsInjective | libasn1c/src/per_support.c:37-116 | octets with the same bits are the same |
| PerStream.StoredWord | libasn1c/src/per_support.c:308-336 | the one to four octets that the branches of the writer store |
| PerStream.Writer.Normalize | libasn1c/src/per_support.c:280-287 | moving the bit offset into the buffer pointer changes nothing |
| PerStream.Writer.MakeRoom | libasn1c/src/per_support.c:289-303 | flushing the full buffer loses and adds no bit |
| PerStream.Writer.Store | libasn1c/src/per_support.c:308-336 | the stored octets append exactly the bits |
| PerStream.Writer.PutFewBits | libasn1c/src/per_support.c:269-349 | appends the low bits of the value for widths up to 31, and fails without effect otherwise |
| PerStream.Writer.Finish | libasn1c/src/per_encoder.c:100-147 | the final flush yields all bits written, padded with zeros to an octet, and their exact count |
| PerStream.PutManyBits | libasn1c/src/per_support.c:355-382 | appends the first bits of an octet string |
| PerStream.ChunkValue | libasn1c/src/per_support.c:359-374 | up to 24 bits of the source |
| PerReader.Reader.Load | libasn1c/src/per_support.c:81-89 | the octets that hold the wanted bits |
| PerReader.Reader.GetFewBits | libasn1c/src/per_support.c:37-116 | reads the next bits and counts them as moved, or fails without effect |
| PerReader.GetLeftBits | libasn1c/src/per_support.c:134-157 | the loop that reads the next bits into octets, padded on the right |
| PerReader.GetManyBits | libasn1c/src/per_support.c:121-160 | reads the next bits into octets, padded on the right or on the left |
| PerOctets.WriteFields | libasn1c/src/per_encoder.c:100-147 | the octets of any list of writes |
| PerOctets.ReadFields | libasn1c/src/per_support.c:37-116 | reading them back |
| PerOctets.RoundTrip | libasn1c/src/per_support.c:37-116 | any list of (value, width) writes read with the same widths gives every value modulo 2^width, and the moved count is the encoded bit count |
| PerOctets.PutLength | libasn1c/src/per_support.c:387-402 | writes a length determinant and says how many octets may follow |
| PerOctets.LengthBitsAre | libasn1c/src/per_support.c:387-402 | the octets of a determinant: one up to 127, two below 16384, else the number of blocks of 16384 octets, at most 4 |
| PerOctets.GetLength | libasn1c/src/per_support.c:165-187 | reads a length determinant, or a length of a given number of bits |
| PerOctets.DeterminantParsed | libasn1c/src/per_support.c:165-187 | every determinant, shortest or not, is read |
| PerOctets.ParsedDeterminant | libasn1c/src/per_support.c:165-187 | conversely, what is read is such a determinant |
| PerOctets.LengthRoundTrip | libasn1c/src/per_support.c:165-187 | a written length determinant reads back, followed by anything |
| PerOctets.PutFragments | libasn1c/src/per_opentype.c:28-54 | the fragment loop terminates and writes the fragments |
| PerOctets.EncodeString | libasn1c/src/OCTET_STRING.c:1621-1652 | length or fragments of an unconstrained octet string |
| PerOctets.DecodeString | libasn1c/src/OCTET_STRING.c:1448-1492 | parses fragments until one is not repeated, or runs out of data |
| PerOctets.FragmentsRoundTrip | libasn1c/src/OCTET_STRING.c:1448-1492 | fragments followed by anything parse back; after an exact multiple of 16384 octets the parser goes on into what follows |
| PerOctets.StringSurvivesIff | libasn1c/src/OCTET_STRING.c:1621-1652 | a string alone in its encoding decodes to itself with nothing left over exactly if its length is 0 or no multiple of 16384; otherwise decoding starves |
| PerOctets.StringLoopback | libasn1c/src/OCTET_STRING.c:1448-1652 | the same for writer and reader together |
| BerTlv.BerFetchLength | libasn1c/src/ber_tlv_length.c:9-75 | the loop computes the length specification, with its overflow and shortage cases |
| BerTlv.FetchLengthForm | libasn1c/src/ber_tlv_length.c:9-75 | every short or long form, leading zeros included, is fetched with its value and size, or refused if the value is not 1024 below 2^63 |
| BerTlv.FetchedForm | libasn1c/src/ber_tlv_length.c:9-75 | conversely, every definite length that is fetched is one of those forms |
| BerTlv.FetchLengthStable | libasn1c/src/ber_tlv_length.c:9-75 | octets that follow never change a length or an error |
| BerTlv.BerFetchTag | libasn1c/src/ber_tlv_tag.c:9-58 | the loop computes the tag specification, with its overflow and shortage cases |
| BerTlv.FetchIdentifier | libasn1c/src/ber_tlv_tag.c:9-58 | every legal identifier, padded ones and small numbers in the long form included, is fetched with its tag, followed by anything |
| BerTlv.IdentifierFetched | libasn1c/src/ber_tlv_tag.c:9-58 | conversely, what is fetched is a legal identifier of that tag |
| BerTlv.FetchTagStable | libasn1c/src/ber_tlv_tag.c:9-58 | octets that follow never change a tag or an error |
| BerTlv.FetchTagOctets | libasn1c/src/ber_tlv_tag.c:9-58 | every tag's octets are fetched back, followed by anything |
| BerTlv.WrittenIdentifier | libasn1c/src/ber_tlv_tag.c:103-143 | what is written is a legal identifier of the tag |
| BerTlv.BerSkipLength | libasn1c/src/ber_tlv_length.c:77-139 | recursion and loop terminate on all inputs and compute the skip specification |
| BerTlv.SkipTree | libasn1c/src/ber_tlv_length.c:77-139 | for every tree of definite and nested indefinite TLVs, with identifiers and lengths in any form, followed by anything, exactly the octets after the tag are skipped |
| BerTlv.SkipTrees | libasn1c/src/ber_tlv_length.c:111-136 | the contents of an indefinite TLV are skipped up to and including its end marker |
| BerTlv.SkippedTree | libasn1c/src/ber_tlv_length.c:77-139 | conversely, whatever is skipped are the octets of such a tree |
| BerTlv.SkipIff | libasn1c/src/ber_tlv_length.c:77-139 | k octets are skipped if and only if they are the length and contents octets of a tree |
| BerTlv.SkipStable | libasn1c/src/ber_tlv_length.c:77-139 | octets that follow never change a result or an error; only a shortage is open |
| DerTags.BigSize | libasn1c/src/ber_tlv_length.c:141-177 | how many octets a long length needs |
| DerTags.SerializeLength | libasn1c/src/ber_tlv_length.c:141-177 | writes the minimal length octets if they fit, returns their number in any case |
| DerTags.MinimalOk | libasn1c/src/ber_tlv_length.c:141-177 | those octets are a legal form of the length, which the decoder takes if it stays 1024 below the limit |
| DerTags.MinimalShortest | libasn1c/src/ber_tlv_length.c:141-177 | no legal form of the length is shorter |
| DerTags.SerializeTag | libasn1c/src/ber_tlv_tag.c:103-143 | writes the octets of the tag if they fit, returns their number in any case |
| DerTags.IdentifierShortest | libasn1c/src/ber_tlv_tag.c:103-143 | no legal identifier of the tag is shorter |
| DerTags.WriteTL | libasn1c/src/der_encoder.c:167-199 | emits tag and length; the estimate without output is the same |
| DerTags.CollectTags | libasn1c/src/der_encoder.c:98-121 | which tags are written in each tag mode |
| DerTags.TagsAre | libasn1c/src/der_encoder.c:98-121 | the given tag stands in front of the type's own ones, in implicit mode in place of the first |
| DerTags.ComputeLengths | libasn1c/src/der_encoder.c:137-143 | the length in front of every tag, from the inside out |
| DerTags.WriteTags | libasn1c/src/der_encoder.c:76-165 | the header chain; the estimate-only pass returns the number of octets actually emitted |
| DerTags.HeaderStep | libasn1c/src/der_encoder.c:137-162 | every header announces exactly what follows it |
| DerTags.BerCheckRound | libasn1c/src/ber_decoder.c:139-273 | one round of the tag checks, the one against a wrapped limit included |
| DerTags.BerCheckTags | libasn1c/src/ber_decoder.c:64-283 | the loop over all expected tags |
| DerTags.BerCheckAny | libasn1c/src/ber_decoder.c:115-138 | the case of a type with no tags of its own |
| DerTags.ChainAccepted | libasn1c/src/ber_decoder.c:139-273 | the rounds follow a written chain to its end |
| DerTags.HeaderAccepted | libasn1c/src/ber_decoder.c:64-283 | a written chain followed by anything is accepted, consumed exactly and its content length recovered, in every mode, if and only if there is a tag to check and the outermost length stays 1024 below the limit |
| DerChains.ChainPasses | libasn1c/src/ber_decoder.c:139-273 | every chain of nested headers with the own tags and consistent lengths is accepted, however identifiers and lengths are written |
| DerChains.ChainPassed | libasn1c/src/ber_decoder.c:139-273 | conversely, what is consumed up to a definite length is such a chain |
| DerChains.CheckIff | libasn1c/src/ber_decoder.c:64-283 | k octets are consumed and a contents length n found if and only if those octets are such a chain around n octets and the total stays in the range of lengths |
| DerChains.CheckOpenIff | libasn1c/src/ber_decoder.c:64-283 | k octets are consumed and m terminations expected if and only if those octets are a chain of m indefinite headers with the own tags |
| Lapdm.Buffer.AppendPayload | gsm-parser/l3_handler.c:1164-1192 | the buffer after a payload, and the message that is handed on |
| Lapdm.Buffer.Handle | gsm-parser/l3_handler.c:1093-1192 | what one frame does to the buffer |
| Lapdm.HandleLapdm | gsm-parser/l3_handler.c:1046-1192 | for all values of the header fields, payload and filler: the frame is discarded exactly if a check fails, otherwise handled as the frame that the fields say, on its SAPI's buffer and no other |
| Lapdm.DecodeComposed | gsm-parser/l3_handler.c:1057-1098 | every I, S and U frame composed from its fields is read as it was written |
| Lapdm.EveryMessageComposed | gsm-parser/l3_handler.c:1057-1068 | any three octets or more are such a composition |
| Lapdm.LateIs | gsm-parser/l3_handler.c:1103-1131 | what a late I frame does, and which ones count |
| Lapdm.AcceptedIs | gsm-parser/l3_handler.c:1133-1192 | what an accepted I frame does: its payload is added, the late frames so far are forgotten |
| Lapdm.OtherFrames | gsm-parser/l3_handler.c:1138-1158 | what S, SABM and other U frames do |
| Lapdm.SegmentedDelivered | gsm-parser/l3_handler.c:1093-1192 | from an empty buffer, a message sent in any number of pieces with consecutive N(S) is delivered once and whole, with its last piece |
| Lapdm.BufferIsGathered | gsm-parser/l3_handler.c:1093-1192 | over every run the buffer holds the payloads accepted since it was last empty |
| Lapdm.DeliveredIsGathered | gsm-parser/l3_handler.c:1184-1192 | over every run each delivered message is exactly those payloads, in order |
| Lapdm.RoomIff | gsm-parser/l3_handler.c:1170-1178 | over every run: a frame finds room in the buffer if and only if it adds nothing or what has been gathered with it has at most 640 octets |
| Lapdm.Overruns | gsm-parser/l3_handler.c:1103-1178 | a run of fragments in sequence, none of them the last, that overruns the buffer, and at which frame |
| Lapdm.BufferConsecutive | gsm-parser/l3_handler.c:1103-1137 | over every run of I and SABM frames the accepted frames of a partial message have consecutive N(S) modulo 8, empty ones included |
| Lapdm.DeliveredConsecutive | gsm-parser/l3_handler.c:1103-1137 | and so have those of every delivered message |
| Lapdm.GivenUpStays | gsm-parser/l3_handler.c:1103-1131 | a message with three out-of-sequence frames stays given up or is dropped, if and only if the frame does not revive it |
| Lapdm.NeverDelivered | gsm-parser/l3_handler.c:1093-1192 | over every run: after that, unless a frame revives it, no octet of the partial message is ever delivered |
| Lapdm.RevivedDelivers | gsm-parser/l3_handler.c:1093-1192 | conversely, after a frame that revives a message its octets are delivered by that frame or by one more |
| Lapdm.OnlyWrapRevives | gsm-parser/l3_handler.c:1106-1110 | among I and SABM frames only one that makes the 16 bit counter wrap revives a message |
| Lapdm.WrapDelivers | gsm-parser/l3_handler.c:1106-1110 | a run of I frames in which that happens: the message given up is delivered |
| Utf8.ReadChar | libasn1c/src/UTF8String.c:111-141 | the value or the error of one character |
| Utf8.FirstIs | libasn1c/src/UTF8String.c:111-141 | the decoder reads v exactly if the octets start with the encoder's chunk for v |
| Utf8.FirstFails | libasn1c/src/UTF8String.c:116-141 | which error is found when |
| Utf8.ProcessUtf8 | libasn1c/src/UTF8String.c:103-149 | the loop over all characters, with the truncated and terminated copy |
| Utf8.ProcessIs | libasn1c/src/UTF8String.c:103-149 | decoding and encoding are mutually inverse: octets decode to vs exactly if vs are below 2^31 and the octets are their encoding |
| Utf8.WriteChar | libasn1c/src/UniversalString.c:63-100 | the chunk of one character |
| Utf8.WordIs | libasn1c/src/UniversalString.c:63-66 | the four octets of a character, the most significant first |
| Utf8.Dump | libasn1c/src/UniversalString.c:51-108 | all characters of the string, and how many octets were written |
| Utf8.SurvivesIff | libasn1c/src/UniversalString.c:51-108 | a 32 bit string survives encoding and decoding exactly if all its code points are below 2^31 |
| AsnInteger.SkipLeading | libasn1c/src/INTEGER.c:789-796 | the superfluous leading octets |
| AsnInteger.Integer.Canonicalize | libasn1c/src/INTEGER.c:42-96 | the in-place shift leaves the canonical octets |
| AsnInteger.CanonicalValue | libasn1c/src/INTEGER.c:42-96 | canonicalisation keeps the two's complement value |
| AsnInteger.ValueIs | libasn1c/src/INTEGER.c:812-818 | what the value is: the number without sign, less 2^(8 n) if the first bit is set |
| AsnInteger.Canonical | libasn1c/src/INTEGER.c:60-78 | and leaves a minimal encoding |
| AsnInteger.MinimalNeedsAll | libasn1c/src/INTEGER.c:60-78 | no shorter octet string has the value of a minimal one |
| AsnInteger.MinimalUnique | libasn1c/src/INTEGER.c:60-78 | a value has only one minimal encoding |
| AsnInteger.Integer2Long | libasn1c/src/INTEGER.c:764-822 | succeeds exactly if the value fits a long, and returns it |
| AsnInteger.Long2Integer | libasn1c/src/INTEGER.c:881-934 | the minimal encoding of a long |
| AsnInteger.LongLoopback | libasn1c/src/INTEGER.c:764-934 | every long survives |
| AsnInteger.ContentsLoopback | libasn1c/src/INTEGER.c:764-934 | contents whose value fits a long come back canonical, others are refused |
| StrRb.RingBuffer.Add | libosmocore/src/strrb.c:149-171 | the newest size-1 messages, the last one truncated to its slot |
| StrRb.TruncatedIs | libosmocore/src/strrb.c:154-162 | a message keeps its first 239 characters |
| StrRb.AddAll | libosmocore/src/strrb.c:149-171 | over every series of adds: exactly the newest min(k, size-1) truncated messages, in order |
| StrRb.RingBuffer.Elements | libosmocore/src/strrb.c:133-139 | their number |
| StrRb.RingBuffer.IsEmpty | libosmocore/src/strrb.c:89-92 | whether there are none |
| StrRb.RingBuffer.GetNth | libosmocore/src/strrb.c:103-126 | the matching message, or none, for every index below size and all others that do not go astray; one that does returns a message that does not exist at that index |
| StrRb.StrayIndex | libosmocore/src/strrb.c:103-171 | three adds to a buffer of size 3 reach such an index: 3 |

## Left out

- Sacch.DecodeSignalling: ends with a parity failure where the code goes on to search for a correctable error pattern (`FC_check_crc`, `FC_syndrome_shift`), because that search is a heuristic for fixed sizes and the loopback never reaches it.
- Sacch.TryDecode: models the branch without ciphering; A5 and the message flags are not part of this model.
- Viterbi.ConvCchDecode: needs 254 n below MAX_AE, because beyond it a reachable state may be taken for an unreachable one; the history has n+1 columns, while gsm-parser/viterbi.c:68 declares n and line 115 writes column n, for state 15 one past the end of the array.
- OsmoConv.Decode: covers flush termination from start state 0 of codes with at least one terminated block and metrics below MAX_AE; tail biting (a two-pass heuristic), truncation and other start states are left out, and the flat history buffer is a two-dimensional array.
- OsmoConv.Encode: flush termination only.
- OsmoConv.Decoder.GetOutput: with flush bits and end state 0 only.
- OsmoConv.Loopback: promises nothing about the word where N is above 8 and the decoder reads nothing.
- OsmoExact.AttainsIffLoopsBack: for N up to 8; above, every input attains the metric, as OsmoExact.AttainsIffReadable says.
- OsmoExact.AttainsIffFaithful: for codes whose words tell the states; OsmoExact.AttainsIffReadable is the statement for every code.
- Timers.Queue.Update: the clock is a parameter, a callback is the list of calls it makes, and the eviction list is a sequence instead of a linked list.
- Timers.Queue.Prepare: the time left for a timer is exact if its timeout has microseconds in 0..999999.
- PerReader.Reader.GetFewBits: without the refill callback, as of a buffer that holds all there is.
- PerStream.Writer.Finish: the output callback always succeeds.
- PerOctets.EncodeString: size constraints and alphabets are left out; only the unconstrained length and fragment loops are modelled.
- PerOctets.DecodeString: stands for both fragment loops; the check of open type padding by the inner decoder is left out, and so is `uper_open_type_get_complex`.
- BerTlv.BerSkipLength: the stack depth check is left out.
- BerTlv.BerFetchLength: lengths have 64 bits and tags 32 bits, as on a 64 bit host.
- DerTags.BerCheckTags: called without a restart context, and not in implicit mode without tags, where the code asserts.
- DerTags.SerializeLength: for lengths below 2^63, the values of its type.
- DerTags.HeaderAccepted: not in implicit mode without tags, where the code asserts.
- Lapdm.HandleLapdm: needs 3 octets of header, as its callers pass, and room for the payload.
- Lapdm.Buffer.AppendPayload: needs room in the 640 octet buffer, which the code does not check; Lapdm.RoomIff says when a run keeps it.
- Lapdm.Buffer.Handle: needs the same room; the filler octets behind the message, frame counters and the layer 3 handler are left out.
- AsnInteger.Long2Integer: the unsigned conversions are left out.
- StrRb.RingBuffer.GetNth: sizes up to 65535 and 32 bit indices, as the field and parameter types say.
- Members of `struct osmo_timer_list` beyond links, colour, timeout and active flag, and the queries `osmo_timer_pending`, `osmo_timer_remaining` and `osmo_timers_check`, which would only add easy members.
- `rb_last`, `rb_prev` and `rb_replace_node`, mirror images of what is modelled or unused by the timers.
- The FACCH interleaver and the most-significant-first bit packers, which are like the modelled ones.
- `uper_put_nsnnwn` above 63 and `uper_put_nslength` above 64, whose writer and reader formats differ.
- RLC/MAC reassembly, layer 3 message parsing, session and cell metadata, SQL, sockets, logging and file import.
- XER, printing, REAL and time types, type descriptor tables, and failing allocations.
