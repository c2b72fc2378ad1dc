# A model of mprofile

mprofile is a memory profiler for programs that use libcrypto. It puts itself between the program and malloc,
realloc and free, either to keep counters (statistics mode) or to record every call in a per-thread log (trace
mode). At exit it merges the logs, links the operations of each buffer to a chain and writes a profile, which a
script analyses for leaks, totals and the peak. This project models the profiler in Dafny, layer by layer, and
proves what the layers rely on of each other.

| files | modelled |
|---|---|
| RbShape, RbTree | the intrusive red-black trees: node objects with parent links, rotations and recolouring loops |
| SplayTree | the top-down splay tree on node objects |
| TailQueue | the intrusive tail queue |
| History, Totals, Leaks | what a log of memory operations means: live buffers, links, chains, sizes, running totals |
| Records, Merge | making records, merging the logs of the threads, linking chains by replaying the log |
| Stacks, StackSets, StackMerge | stacks and their comparison; sets of stacks in two trees, recording, merging, destroying |
| Catalogues, Draining, Courses | the same sets as values, what whole merges do to ids and counts, and how to tell it before |
| Traces, Saving | printing a set and looking traces up by id; records and stacks of all threads together |
| Interleaving, Schedules | the trace mode as a state machine of threads: heap call, id, queue insertion; what a schedule says of blocks and records |
| Counters, Ledgers | the statistics mode as a state machine of threads over atomic operations, with the compare-and-swap loop; what the calls say of the counters |
| Modes | both modes in one thread, with 64-bit conversions, and their agreement |
| Analysis, Sampling | the analysis of a saved log |
| Ksyms, Symbols | the symbol table of the loaded files; from the symbols of a file to the printed address |
| EndToEnd | from the threads of the program to the report |
| Bags, Blocks, Sorting | sequences as multisets; sums over blocks; the library sorts |

Objects that the program links together are objects here. `Node` stands for RB_ENTRY and `Entry` for TAILQ_ENTRY: where
C embeds an entry in a structure, the structure holds its entry and the entry points back to it (`elem`). The fields
that a comparator reads are the constant `key` of the entry; a stack whose id is reassigned, which happens only while it
is in no tree of ids, gets a new entry for that tree. Ghost values describe the heap: a tree of node names for a
subtree, and the way from a position up to the root, so that each step of an algorithm is about one place.

Some results say more, or other things, than one might expect of the program.

* A moving realloc takes its id after the heap call. Another thread can get the old address and an earlier id in
  between; the log is then not a history, and linking chains aborts. `Interleaving.WellFormedExactly` says exactly when
  the log is a history, `Interleaving.AtomicIsClear` that reallocs which are not interrupted there are harmless, and
  `Interleaving.MovingReallocRaces` gives a schedule that goes wrong.
* The same realloc may have its id and not yet be queued when the program ends. `Interleaving.MergedIsWellFormed` says
  exactly when the merged log is still a history, `Interleaving.PendingReallocMissing` gives a run where it is not.
* A stack moved to another set may keep an id at or above the next id of that set, which is then no longer the set's to
  give (`Draining.KeptId`). `Draining.DenseExactly` says exactly which merges avoid this. A later merge may then abort
  in the assertion of stack.c:319 or use one id for two stacks (`Draining.AfterKeptId`, `Traces.LostTrace`).
  `Courses.AllCourseExactly` says before the merge exactly when it aborts, and `Traces.ReportThreads` exactly when the
  script then finds the trace of every record; a kept id alone does no harm (`Traces.SparseIds`).
* A stack that occurs more than once is copied with its whole count and then counted again for every further record.
  `Draining.CountsExactly` says what one thread adds, and `Courses.AllCountsExactly` exactly which printed counts are
  right and what the others are.
* The comparison of stacks reads one word behind the last frame of equal stacks; the result does not depend on it. For
  two stacks without frames, as realloc(p, 0) records them (init.c:626-627), it reads in front of the frames, where the
  pointer to the frames themselves is stored: such stacks are equal only if they are the same object. A `Key` therefore
  consists of the frames and, if there are none, of that word. `Stacks.ComparesFrames` and `Catalogues.EmptyTwice` say
  what follows.
* A second file loses the functions that stand in its symbol table before the number of symbols already read:
  `Ksyms.SkipsExactly`.

## Model

| member | source | states |
|---|---|---|
| RbShape.HeightBound | mprofile/utils/tree.h:46-54 | a red-black tree of n nodes with black root is at most 2 lg (n+1) high: 2^m <= (n+1)^2 for every m up to its height |
| RbShape.Locate | mprofile/utils/tree.h:46-54 | every node of a tree is reached by a path whose colours and black heights fit the subtree below it |
| RbTree.RbHead.RotateLeft | mprofile/utils/tree.h:335-353 | a left rotation keeps the nodes, their in-order sequence, every link around them and the node objects |
| RbTree.RbHead.RotateRight | mprofile/utils/tree.h:355-373 | the same for a right rotation |
| RbTree.RbHead.InsertColor | mprofile/utils/tree.h:401-442 | a red node below a possibly red parent: the loop climbs towards the root, ends, and leaves a red-black tree with the same nodes in the same order |
| RbTree.RbHead.Insert | mprofile/utils/tree.h:588-616 | returns the element with an equal key exactly if there is one and then changes nothing; otherwise adds exactly the new node, at its place in the order, and the tree stays ordered, red-black and consistently linked |
| RbTree.RbHead.RemoveColor | mprofile/utils/tree.h:445-518 | a tree short of one black node on one side becomes red-black again, with the same nodes in the same order; the loop ends |
| RbTree.RbHead.RemoveSimple | mprofile/utils/tree.h:526-586 | removal of a node with at most one child takes out exactly this node |
| RbTree.RbHead.RemoveInner | mprofile/utils/tree.h:531-567 | removal of a node with two children: its successor takes over its links and colour; exactly the removed node leaves the in-order sequence and every other node object stays |
| RbTree.RbHead.Remove | mprofile/utils/tree.h:521-585 | for every node of a well-formed tree: the tree stays well-formed and its in-order sequence is the old one without exactly that node |
| RbTree.RbHead.Find | mprofile/utils/tree.h:619-634 | returns an element with an equal key exactly if there is one, after at most 2 lg (n+1) comparisons |
| RbTree.RbHead.Unique | mprofile/utils/tree.h:46-54 | two elements of a tree with equal keys are the same node |
| RbTree.RbHead.Min | mprofile/utils/tree.h:699-712 | the first element in order, or null if the tree is empty |
| RbTree.RbHead.Next | mprofile/utils/tree.h:657-676 | the in-order successor, or null after the last element |
| RbTree.RbHead.Walk | mprofile/utils/tree.h:726-729 | RB_FOREACH visits every element once, in ascending order |
| SplayTree.SplayHead.RotateRight | mprofile/utils/tree.h:81-85 | keeps the nodes, their order and the two collected trees |
| SplayTree.SplayHead.RotateLeft | mprofile/utils/tree.h:87-91 | keeps the nodes, their order and the two collected trees |
| SplayTree.SplayHead.LinkLeft | mprofile/utils/tree.h:93-97 | moves the root with its right subtree to the open end of the right tree |
| SplayTree.SplayHead.LinkRight | mprofile/utils/tree.h:99-103 | moves the root with its left subtree to the open end of the left tree |
| SplayTree.SplayHead.Assemble | mprofile/utils/tree.h:105-110 | joins the collected trees and the rest to one tree of all nodes, in order, under the same root |
| SplayTree.SplayHead.TurnLeft | mprofile/utils/tree.h:212-221 | a turn of the loop keeps the cut between smaller and larger elements and either stops with the key or a neighbour at the root or has fewer nodes left |
| SplayTree.SplayHead.TurnRight | mprofile/utils/tree.h:222-231 | the mirror image |
| SplayTree.SplayHead.Splay | mprofile/utils/tree.h:203-235 | the loop ends; same nodes, same in-order sequence; the equal key, or else a neighbour of the missing key, is at the root |
| SplayTree.SplayHead.NearMisses | mprofile/utils/tree.h:164-175 | if the splay leaves a different key at the root then the key is not in the tree |
| SplayTree.SplayHead.Insert | mprofile/utils/tree.h:157-179 | returns an element with an equal key, or adds exactly the new node at its place in the order |
| SplayTree.SplayHead.Remove | mprofile/utils/tree.h:181-200 | takes out exactly the node with an equal key, if and only if there is one; the order of the others stays |
| TailQueue.Head.constructor | mprofile/utils/queue.h:463-466 | an empty, well-linked queue |
| TailQueue.Head.InsertTail | mprofile/utils/queue.h:478-483 | the queue stays linked in both directions and gains exactly the entry at its end |
| TailQueue.Head.Remove | mprofile/utils/queue.h:502-511 | the queue stays linked in both directions and loses exactly the entry, wherever it stands |
| History.AliveUnique | mprofile/record.c:471-529 | in a well-formed log the live buffers have different addresses |
| History.LinkUnique | mprofile/record.c:495-515 | links form chains: at most one successor and one predecessor |
| History.Append | mprofile/record.c:471-529 | a well-formed log stays well-formed exactly if the new step gives up a live buffer and makes one available only at a free address |
| History.LiveAfter | mprofile/record.c:471-529 | which addresses are live after one more step |
| History.SizeOfRealloc | mprofile/record.c:383 | the size of a buffer after a realloc is its size before plus the recorded delta |
| History.LeaveOut | mprofile/record.c:471-529 | steps whose own buffer is never touched again can be left out: if no buffer that they gave up is made available again, the log stays well-formed with exactly the links among the rest |
| History.LeaveOutExactly | mprofile/record.c:471-529 | and otherwise it does not stay well-formed |
| History.LeaveOutBalanced | mprofile/record.c:356 | in the first case every release still gives back the size that its buffer has |
| Records.MemOrdering | mprofile/record.c:119-139 | both comparators of records are orders the trees can use |
| Records.Tie | mprofile/record.c:495-515 | the assertions on next_id and prev_id hold, and the two assignments record exactly the new link |
| Records.ChainFree | mprofile/record.c:484-500 | a release aborts exactly if its address is not live (NULL is skipped); otherwise tree and links are those of the log up to this step |
| Records.ChainRealloc | mprofile/record.c:501-528 | the same for a realloc, which also aborts if its new address is occupied |
| Records.ChainStep | mprofile/record.c:472-528 | one turn of the loop succeeds exactly if the step is admissible in the log |
| Records.BuildChains | mprofile/record.c:461-535 | over any log: succeeds exactly if the log is well-formed; then next_id and prev_id are exactly the links, 0 elsewhere, and the address tree holds exactly the records of the buffers that are live at the end |
| Merge.RecordAlloc | mprofile/record.c:315-341 | takes the next id and appends a new, unlinked record with its address and delta to the queue of the thread |
| Merge.RecordFree | mprofile/record.c:343-368 | the same for a release, with the negated size |
| Merge.RecordRealloc | mprofile/record.c:370-397 | the same for a realloc, with both addresses and the difference of the sizes |
| Merge.Destroy | mprofile/record.c:305-308 | the safe iteration with removal empties the queue |
| Merge.SortIn | mprofile/record.c:558-559 | the assertion against duplicates holds and the sorter gains the record |
| Merge.Drain | mprofile/record.c:553-570 | all records of one thread leave its queue for the sorter |
| Merge.DrainAll | mprofile/record.c:548-578 | the sorter ends up with the records of all threads; the master is the first profile and its queue is empty |
| Merge.Collect | mprofile/record.c:580-584 | the queue of the master receives the records in the order of the sorter, and the sorter ends up empty, so that no record stands in two trees through its one tree entry |
| Merge.MergeAll | mprofile/record.c:546-584 | every record of every thread stands exactly once in the queue of the master, in strictly ascending order of ids |
| Merge.Save | mprofile/record.c:537-587 | saving with chains aborts exactly on logs that are not well-formed, and otherwise leaves the chains of the merged log |
| Merge.RunIdsDiffer | mprofile/record.c:330 | in every interleaving the queued records have different ids, so the assertion against duplicates is met |
| Merge.RunIsSaved | mprofile/record.c:537-587 | when every record has reached its queue, the saved log is the history of the run, record i has id i+1, and the chains can be built exactly if every step was clear |
| Interleaving.Keep | mprofile/init.c:410-501 | every clear step of every thread keeps: the log is a well-formed history with balanced sizes, it shows as live exactly what the program owns, gets or gives up, with the sizes in the headers, and no block is in two hands |
| Interleaving.Spoil | mprofile/init.c:480-496 | an id taken for an address from which another thread is just moving a buffer away makes the log ill-formed |
| Interleaving.WellFormedExactly | mprofile/init.c:410-501 | in every interleaving the log by ids is a well-formed history exactly if every step was clear |
| Interleaving.AtomicIsClear | mprofile/init.c:480-496 | if no realloc is interrupted between its heap call and its id, the log is a well-formed history in every interleaving |
| Interleaving.MovingReallocRaces | mprofile/init.c:480-496 | a schedule of two threads, with a realloc interrupted at this place, whose log is not well-formed |
| Interleaving.RunsTally | mprofile/record.c:330-331 | ids are 1, 2, 3, ... and every record with an id is in exactly one queue or on its way to it |
| Interleaving.QuiescentIsComplete | mprofile/record.c:537-587 | once no record is on its way, the queued records sorted by id are the whole history |
| Interleaving.MergedIsWellFormed | mprofile/record.c:537-587 | whatever records are still on their way: the queued records sorted by id form a well-formed log exactly if no queued record makes the old address of a realloc available that has a smaller id and is not queued; sizes are balanced then |
| Interleaving.PendingReallocMissing | mprofile/record.c:382-387 | a run of clear steps that ends before such a realloc is queued, and whose queued records are no well-formed log |
| Schedules.BlocksAreOwned | mprofile/init.c:432-453 | whenever no call is in progress every block in the heap is one that the program owns, and after clear steps these are all blocks: what was released has been given back |
| Schedules.SizesTold | mprofile/init.c:410-501 | every block in the heap has the size asked for by the last step that put a block at its address |
| Schedules.RecordsTold | mprofile/init.c:410-501 | in every interleaving the log is what the schedule says: for each id the kind of call, its addresses and the difference of sizes, told from the steps alone |
| Schedules.QueuesTold | mprofile/record.c:330-331 | the queue of each thread has exactly the records of its own calls, in the order of their ids, but for one that may still be on its way |
| Schedules.ReusedAddress | mprofile/init.c:452 | a run of clear steps in which a freed address is allocated again by another thread, with its three records and the block in the heap |
| Stacks.FrameOrdering | mprofile/stack.c:52-74 | depth first, then the first differing frame: a total order that is zero exactly for equal frames |
| Stacks.KeyOrdering | mprofile/stack.c:52-74 | so is the order that the comparator really computes, which for two stacks without frames compares the words in front of them |
| Stacks.StackCompare | mprofile/stack.c:52-74 | the loop computes that order for any two stacks, whatever is stored behind their last frames; the result is negative exactly if the first stack comes first |
| Stacks.StacksPrecede | mprofile/stack.c:52-74 | which of two stacks comes first: the shallower one, or the one with the smaller frame where they first differ, or, without frames, the one with the smaller word in front |
| Stacks.ComparesFrames | mprofile/stack.c:67-72 | the result is the order of frames exactly if the depths differ, there are frames, or the words in front of both stacks agree |
| Catalogues.EmptyTwice | mprofile/stack.c:164-185 | two additions of stacks without frames make two stacks with two ids, where two additions of equal frames make one that counts 2 |
| Stacks.Buffer.PushFrame | mprofile/stack.c:195-205 | appends the frame, or drops it if the limit is reached |
| Stacks.Buffer.Copy | mprofile/stack.c:146-147 | the copy has exactly the frames collected so far |
| StackSets.StackSet.Distinct | mprofile/stack.c:40-50 | no two stacks of a set have equal frames (or both lie at one place), and no two in the tree of ids have one id |
| StackSets.StackSet.AddStack | mprofile/stack.c:164-185 | the catalogue of the set counts a known stack once more, or gets a copy under the next id; the copy is not in the tree of ids if that id is in use already; no other stack changes |
| StackSets.StackSet.RecordStack | mprofile/record.c:333-340 | the set of a thread is at any time the one that its recorded stacks make, and the id in the record is the one of its stack |
| Catalogues.RecordedTallies | mprofile/stack.c:164-185 | under any run of additions both trees hold the same stacks, the ids are exactly 1 .. stset_id-1, and every count is the number of additions of that stack |
| Draining.RecordedIsOwed | mprofile/record.c:333-340 | the count of every stack of a thread is the number of its records with its id, and every recorded id leads back to the stack it was recorded with |
| StackSets.StackSet.Leave | mprofile/stack.c:303-304 | exactly the stack leaves both trees |
| StackSets.StackSet.EnterId | mprofile/stack.c:309-320 | the stack enters the tree of ids under its own id or else the next one; the assertion of line 319 fails exactly if both are in use |
| StackSets.StackSet.Accept | mprofile/stack.c:305-330 | for any destination: the move fails exactly if the stack is not known, its id is in use and stset_id is in use; otherwise an equal stack counts one more, or the stack enters both trees |
| StackSets.StackSet.Share | mprofile/stack.c:333-347 | a stack that occurs more often counts one more here, or is copied with its whole count |
| StackMerge.MergeStack | mprofile/stack.c:288-352 | for any two sets: which of the two assertions fails exactly when; otherwise the catalogues of both sets afterwards, and the result is the stack of the id; merging a set into itself changes nothing |
| StackMerge.MergeOne | mprofile/record.c:562-569 | the new id of a record is the one its stack has in the destination; a record without stack keeps 0 |
| StackMerge.MergeRecords | mprofile/record.c:553-570 | the loop over the records of a thread, as far as stacks go, between any two sets is a drain of the source, with the same outcome and the same aborts, and each record ends up with its new id; merging into itself changes nothing |
| Draining.OwedRest | mprofile/stack.c:303-304 | throughout a drain the count of every source stack is the number of records not yet merged, so the lookup of line 297 never fails |
| Draining.DrainedIds | mprofile/record.c:553-570 | after a drain the source is empty, no id of the destination has changed, and every new id is that of the stack of its record |
| Draining.CountsExactly | mprofile/stack.c:333-348 | in one drain a stack that n > 0 records have counts n more in the destination exactly if the destination knew it before or n is 1; otherwise it counts 2n-1 in the end |
| Courses.AllCountsExactly | mprofile/record.c:243-244 | over all threads the printed count of a stack is the number of all records that have it, plus one less than the number of records of the first thread that brings it if the master did not know it; it is right exactly if the master knew it or that thread has at most one |
| Draining.CountedThrice | mprofile/stack.c:333-348 | the master has recorded [2] and a thread [1] twice: [1] counts 3 in the end |
| Draining.DenseReceive | mprofile/stack.c:301-348 | from dense ids one merge keeps them dense exactly if the stack is known, occurs more than once, or has an id below stset_id |
| Draining.DenseExactly | mprofile/record.c:553-570 | a drain into a set with dense ids succeeds and leaves them dense exactly if no record meets a stack that is unknown, occurs once and has an id at or above stset_id; told from the ids, counts and known stacks before |
| Draining.KeptId | mprofile/stack.c:305-325 | master with [1], thread with [1] and [2]: the merge keeps the id 2 while stset_id is 2 |
| Draining.AfterKeptId | mprofile/stack.c:313-325 | after that a thread with [3] aborts in the assertion of line 319, and one with [3] twice gets the id 2 once more |
| Draining.AllDrainedIds | mprofile/record.c:546-578 | after all threads every new id is that of its stack in the set of the master, for the threads merged first as well |
| Draining.AllDenseExactly | mprofile/record.c:546-578 | all threads are merged without abort and with dense ids exactly if none of them meets such a record |
| Courses.TurnExactly | mprofile/stack.c:301-348 | what one merge does to next id, ids and used ids, and whether it aborts, told from the count in the source before the whole drain |
| Courses.AllCourseExactly | mprofile/record.c:546-578 | all threads are merged without abort exactly if their course does not stop, that is, if no stack that is unknown and occurs once meets its own id and the next id both in use; the course tells next id, all ids and the ids in use |
| Courses.AllDrainedKnown | mprofile/record.c:546-578 | in the end exactly the stacks that some thread or the master has recorded are known |
| Courses.AllDrainedEmpties | mprofile/stack.c:301-348 | stacks without frames always stand in the tree of ids, so no two of them share an id |
| Draining.FailingRuns | mprofile/record.c:546-578 | three threads whose merge aborts, and three whose merge uses the id 2 for two stacks |
| StackMerge.MergeThread | mprofile/record.c:548-578 | one thread is merged, its records get their new ids, and its set is destroyed unless it is the master; the sets of all other threads stay as they are |
| StackMerge.MergeAll | mprofile/record.c:546-578 | the loop over all threads has the outcome of the drains one after the other, aborts exactly when one of them does, and leaves every record with its new id |
| StackMerge.RecordOne | mprofile/record.c:333-340 | a record gets the id of its stack, and the earlier records keep theirs |
| StackMerge.RecordThread | mprofile/record.c:322-340 | a thread that makes records with these stacks ends up with the set and the ids that they make, ready to be merged |
| StackMerge.DestroySet | mprofile/stack.c:222-237 | the safe iteration with removal empties both trees and destroys every stack exactly once |
| Traces.PrintStacks | mprofile/stack.c:239-249 | the walk through any set prints every stack once, in ascending order, with its id, count and frames |
| Traces.FindsNumbered | mprofile/scripts/mprofile.py:283-286 | if the printed ids are 1 .. m, get_stack on the list sorted by id finds every stack under its id |
| Traces.FindsExactly | mprofile/scripts/mprofile.py:178-182 | get_stack on the sorted list finds all stacks exactly if the printed ids are 1 .. m, unless two stacks have the same id and the same frames |
| Traces.ReportStacks | mprofile/scripts/mprofile.py:283-286 | for any set get_stack finds for the id of every stack its own frames if the ids are 1 .. m, and only then unless two stacks have the same id and frames |
| Traces.RecordedTraces | mprofile/record.c:333-340 | what the set of a thread says of a record is the stack it was recorded with |
| Traces.SavedFound | mprofile/scripts/mprofile.py:283-286 | after the merge of all threads the report finds the traces of all records exactly if it finds those of all stacks |
| Traces.SavedSeparable | mprofile/stack.c:301-348 | no merge of what threads have recorded makes two stacks with the same id and frames |
| Traces.ReportThreads | mprofile/record.c:537-587 | all threads from the first loop of mprofile_save to get_stack: no merge aborts exactly if the course told before does not stop, and then every record of every thread gets the frames it was recorded with exactly if the course gives the stacks the ids 1 .. m, each once; the printed counts are those told from the records |
| Traces.CountsForetold | mprofile/record.c:243-244 | the report has one entry for each stack that any thread has recorded and no others, each with its frames, its id and the count told from the records of the threads |
| Traces.LostTrace | mprofile/scripts/mprofile.py:283-286 | after the second failing run no report finds the traces of all records |
| Traces.SparseIds | mprofile/stack.c:305-325 | the run with the kept id on the objects themselves: the records get the ids 1 and 2, stset_id is 2, and get_stack finds [1] and [2] all the same |
| Saving.PrintRecords | mprofile/record.c:273-281 | the saved and loaded records are those of the queue, one by one |
| Saving.LoadedCarries | mprofile/record.c:194-195 | records loaded from a log with chains carry it: next_id and prev_id are the ids of the next and the previous record of the buffer, 0 at the ends of a chain |
| Saving.AllRestored | mprofile/record.c:562-569 | the ids that the records carry find all traces exactly if the report does |
| Saving.Log | mprofile/record.c:315-397 | the recording functions as a whole: the record joins the queue under the next id and the stack joins the set, and what was recorded before stays as it is |
| Saving.SaveProfile | mprofile/record.c:537-587 | records and stacks together: saving fails exactly if the course stops or the log is no history; otherwise the loaded records are the merged log with its chains, and get_stack gives for every one of them the frames it was recorded with exactly if the course gives the stacks the ids 1 .. m; with ids 1, 2, ... and chains the loaded records carry everything that the script relies on |
| Saving.SaveOneThread | mprofile/record.c:537-587 | whatever a single thread has recorded: saving aborts only on logs that are no history, every saved record gets the frames that it was recorded with, and with chains and ids 1, 2, ... the loaded records carry what the script relies on |
| Counters.KeepProceed | mprofile/init.c:296-407 | every atomic step of every thread keeps: the counters are the sum of what they show of each block, no block is in two hands, every header carries its check word |
| Counters.KeepMalloc | mprofile/init.c:287-299 | so does the start of a malloc |
| Counters.KeepFree | mprofile/init.c:313-325 | so does the start of a free; the check of the header passes |
| Counters.KeepRealloc | mprofile/init.c:337-379 | so does the heap call of a realloc; the check of the header passes |
| Counters.KeepHighWater | mprofile/init.c:268-278 | ms_max never decreases, and lags behind the largest ms_current only while a thread is about to report that value |
| Counters.LeavesLoop | mprofile/init.c:275-277 | a thread leaves the compare-and-swap loop only when ms_max is at least the total that it produced |
| Counters.LoopEnds | mprofile/init.c:275-277 | every turn of the loop, including the extra one after a successful exchange, lowers a rank that no other thread raises |
| Counters.MaxGrows | mprofile/init.c:268-278 | ms_max never decreases along a run |
| Counters.NeverAborts | mprofile/init.c:320-325 | in every interleaving every live header has check word address XOR size, and no call aborts |
| Counters.Quiescent | mprofile/init.c:268-408 | whenever no call is in progress: total allocated minus total released equals ms_current equals the sum of the live header sizes, allocations minus releases equals the number of live blocks, and ms_max is the largest value that ms_current has had |
| Ledgers.SizesTold | mprofile/init.c:294-295 | in every interleaving the header of each live block shows the size asked for by the last call that put a block there |
| Ledgers.CountersTold | mprofile/init.c:286-408 | at any time each total and count, plus what the calls in progress have still to enter, is what the calls so far should add: sizes of mallocs and growths of reallocs, sizes of frees and shrinkages of reallocs, numbers of mallocs, frees and reallocs |
| Ledgers.CountersExactly | mprofile/init.c:286-408 | whenever no call is in progress each of the five counters is exactly that |
| Counters.CheckWordTells | mprofile/init.c:295 | only one size fits the check word of an address, and only one address that of a size |
| Counters.OverwriteNoticed | mprofile/init.c:320-325 | a free or realloc of a block whose size has been overwritten, while its check word has not, aborts |
| Modes.SignedDelta | mprofile/record.c:383 | differences of sizes below 2^63 survive the conversions between size_t and ssize_t |
| Modes.AgreeStep | mprofile/init.c:286-501 | one call changes the counters of the statistics mode as its record changes the sums over the log of the trace mode |
| Modes.ModesAgree | mprofile/init.c:286-501 | for every sequential run of successful calls: total allocated and released are the sums of the positive and the negative deltas, ms_current the final running total, ms_max the peak of the running total, and the three counts the numbers of records of each kind |
| Modes.ReportsAgree | mprofile/scripts/mprofile.py:354-356 | ms_max is the mem_current of the record that get_mem_peak finds, and total_allocated_sz the sum of get_total_mem |
| Modes.BytesInUse | mprofile/init.c:268-284 | even if the totals have wrapped around, their difference modulo 2^64 is ms_current and the memory that the program holds |
| Modes.MirrorStep | mprofile/init.c:410-501 | the record of one more call keeps the log a history of the heap: each address and size is the right one |
| Modes.LogMirrors | mprofile/init.c:410-501 | for every sequential run of successful calls the log is well-formed with ids 1, 2, ... and balanced sizes, the live addresses are exactly the blocks of the program, and each live buffer has the size of its block |
| Modes.HeapTold | mprofile/init.c:455-501 | each block has the size asked for by the last call that got its address |
| Modes.MemStats.UpdateAlloc | mprofile/init.c:268-278 | the loop ends with the maximum of ms_max and the new total |
| Modes.MemStats.MallocStats | mprofile/init.c:286-310 | counters and heap after a malloc |
| Modes.MemStats.FreeStats | mprofile/init.c:312-334 | counters and heap after a free; it does not abort |
| Modes.MemStats.ReallocStats | mprofile/init.c:336-408 | counters and heap after a realloc, including realloc(NULL, n) and realloc(p, 0); it does not abort |
| Modes.Tracer.MallocTrace | mprofile/init.c:410-430 | log and heap after a malloc |
| Modes.Tracer.FreeTrace | mprofile/init.c:432-453 | log and heap after a free; it does not abort |
| Modes.Tracer.ReallocTrace | mprofile/init.c:455-501 | log and heap after a realloc, including realloc(NULL, n) and realloc(p, 0); it does not abort |
| Leaks.TipExists | mprofile/scripts/mprofile.py:218-223 | every live buffer is the end of a chain that starts at an allocation |
| Leaks.TipUnique | mprofile/scripts/mprofile.py:218-223 | and of only one such chain |
| Leaks.ChainShape | mprofile/scripts/mprofile.py:158-164 | along a chain positions ascend, addresses match, and everything between the first and the last record is a realloc |
| Leaks.ChainBack | mprofile/scripts/mprofile.py:300-304 | following the links back from any record but a release of NULL ends at an allocation |
| Leaks.ChainEnd | mprofile/scripts/mprofile.py:204-213 | a buffer is leaked exactly if its chain does not end with a release |
| Leaks.ChainSum | mprofile/scripts/mprofile.py:228-235 | the deltas along a chain add up to the final size of a leaked buffer and to 0 for a released one |
| Leaks.HeldStep | mprofile/scripts/mprofile.py:144-149 | a step changes the size of the buffer that it concerns by its delta, and of no other buffer |
| Leaks.Conservation | mprofile/scripts/mprofile.py:144-149 | at every moment the sizes of the buffers in use add up to the running total |
| Analysis.Loads | mprofile/record.c:495-515 | the records that build_chains leaves, once loaded, carry the links of the log as indices |
| Analysis.MProfile.CalcCurrent | mprofile/scripts/mprofile.py:144-149 | every record gets the memory in use after it |
| Analysis.MProfile.Linked | mprofile/scripts/mprofile.py:274-304 | get_next and get_prev are inverse to each other and follow exactly the links; get_mr finds every id |
| Analysis.MProfile.GetChain | mprofile/scripts/mprofile.py:158-164 | terminates with exactly the records that follow one another by links, to the end |
| Analysis.MProfile.IsLeak | mprofile/scripts/mprofile.py:204-213 | terminates; true exactly for allocations whose buffer is never released |
| Analysis.MProfile.Leaks | mprofile/scripts/mprofile.py:218-223 | exactly the leaked allocations, in order |
| Analysis.MProfile.LeakedInOrder | mprofile/scripts/mprofile.py:218-223 | this list has every leaked allocation once |
| Analysis.MProfile.GetLeakSz | mprofile/scripts/mprofile.py:228-235 | terminates with the size that the buffer has in the end |
| Analysis.MProfile.ReportLeaks | mprofile/scripts/mprofile.py:403-410 | the bytes lost in all leaks are the final running total |
| Analysis.MProfile.GetTotalMem | mprofile/scripts/mprofile.py:309-312 | the sum of the positive deltas |
| Analysis.MProfile.GetMemPeak | mprofile/scripts/mprofile.py:354-356 | the first record after which most memory is in use |
| Analysis.MProfile.TakeSamples | mprofile/scripts/mprofile.py:358-367 | no samples if there are fewer records than asked for; otherwise one per slice, the slices cover the log without overlap, and each sample is the peak of its slice |
| Analysis.MProfile.SamplesKeepPeak | mprofile/scripts/mprofile.py:358-367 | the overall peak is among the samples, which are in the order of time |
| Sampling.SliceOf | mprofile/scripts/mprofile.py:363-364 | every record is in a slice |
| Sampling.Apart | mprofile/scripts/mprofile.py:363-364 | slices do not overlap |
| Sampling.SampleCount | mprofile/scripts/mprofile.py:358-364 | a request for c of n records yields exactly c + ceil((n mod c) / (n div c)) samples, between c and 2c-1 |
| Ksyms.ReadSymbols | mprofile/ksyms.c:132-146 | the table gains exactly the readable, named functions from the position of its own length on, in the order of the file, with the base added |
| Ksyms.SkipsExactly | mprofile/ksyms.c:132 | these are all functions of the file exactly if none stands before that position |
| Ksyms.FillGaps | mprofile/ksyms.c:160-168 | in place, every unsized symbol but the last gets the distance to the next one |
| Ksyms.FilledSeparate | mprofile/ksyms.c:160-168 | after gap filling the ranges are disjoint exactly if no sized symbol overlaps the next one |
| Ksyms.TidyFits | mprofile/ksyms.c:153 | symbols with different starts, none reaching into a later one, meet that condition however they were sorted |
| Ksyms.KelfOpen | mprofile/ksyms.c:132-168 | the table is the sorted and filled list of the symbols it had and those read; all functions of the file are among them exactly if none stands before the position that the loop starts at |
| Ksyms.Bsearch | mprofile/ksyms.c:201-202 | what is found contains the address; in a table of disjoint ranges every covered address is found |
| Ksyms.Snprintsym | mprofile/ksyms.c:190-216 | a printed symbol contains the address, and name, offset and off together give the address back; in a table of disjoint ranges the fallback is taken only for addresses that no symbol covers |
| Ksyms.PrintedBack | mprofile/record.c:234 | as it is called, with off 0, symbol and printed offset give the address back |
| Symbols.FileTidy | mprofile/ksyms.c:132-146 | if the functions of a file do not overlap, what is read from it at any load base does not either |
| Symbols.EntryCovers | mprofile/ksyms.c:160-168 | after sorting and gap filling, the entry of a function covers exactly the addresses that the function covers: from base plus its start to its end or, without a size, to the next function |
| Symbols.TableCovers | mprofile/ksyms.c:132-168 | an address is covered by an entry exactly if a function of the file covers it, and the entry has the name and the start of that function |
| Symbols.PrintAddress | mprofile/ksyms.c:190-216 | from kelf_open of a file to kelf_snprintsym: an address is printed with a name exactly if a function of the file covers it, then as the name of that function and the distance from base plus its start; otherwise as it is |
| EndToEnd.Reported | mprofile/record.c:537-587 | when all threads have finished a run of clear steps, the saved and loaded records carry the history of the run with balanced sizes: everything the script relies on |
| EndToEnd.LeaksAreOwned | mprofile/scripts/mprofile.py:218-223 | the leaks of the report are exactly the buffers that the program still owns |
| EndToEnd.LeakSizes | mprofile/scripts/mprofile.py:228-235 | each leak has the size in the header of its block, which is the one last asked for, and different leaks are different blocks |
| EndToEnd.LeaksTold | mprofile/scripts/mprofile.py:218-235 | the leaks of the log, in order, are the blocks that the program has not released, each once, with the size that the program asked for last |
| EndToEnd.AnalyseLog | mprofile/scripts/mprofile.py:218-235 | the script on loaded records: its leaks and their sizes are those of the log |
| EndToEnd.ReportRun | mprofile/scripts/mprofile.py:172-235 | from a finished run of clear steps over saving with chains to the script: it fails exactly if the merge of stacks stops; otherwise the log is told by the schedule, the leaks are exactly the blocks not released, with the sizes asked for, and each comes with the trace of its allocation if the stacks get the ids 1 .. m |

## Left out

- JSON output, files, HTML and text templates, argument parsing, time stamps and annotations: input and output only.
- Unwinding, dladdr, scanning ELF sections, thread keys, constructors and atexit: frames, symbols and threads are inputs.
- SLIST, LIST, SIMPLEQ, XSIMPLEQ, STAILQ and the RBT wrappers: not used by the profiler, or without bodies.
- RB_PREV, RB_NFIND, RB_MAX, SPLAY_FIND, SPLAY_NEXT, SPLAY_MINMAX: mirror images and short uses of what is modelled.
- RB_AUGMENT and _Q_INVALIDATE: empty in this build.
- Failures of malloc and of record creation: a failed malloc is logged with address 0 and its full size, so every theorem is about successful calls.
- Weak memory: atomic operations are sequentially consistent steps.
- Wrap-around of the statistics counters in the concurrent model: they are unbounded there and 64-bit words in the sequential one.
- Interleaving.WellFormedExactly: realloc(NULL, n) and realloc(p, 0) are the steps of malloc and free; realloc(NULL, 0) is excluded, as the statistics mode returns an uninitialised header for it.
- Modes.ModesAgree: addresses are those of the headers, 16 bytes below the pointers of the program, and the blocks in use together are smaller than 2^64 bytes.
- Merge.Save: the body of the loop over one thread's records is modelled in two halves, for the records (Merge.Drain) and for their stacks (StackMerge.MergeRecords), which touch different objects; Saving.SaveProfile does the halves one after the other.
- Merge.DrainAll: the list of profiles is a sequence; the safe iteration over a tail queue is modelled in Merge.Destroy.
- StackSets.StackSet.AddStack: the words in front of two stacks without frames are given and asked to differ, as they are the addresses of different objects.
- StackMerge.MergeStack: after a failed assertion nothing is said of the sets, as the program has aborted (with NDEBUG it would go on with a stack that is in one tree only); stacks without frames occur once in the source.
- StackMerge.MergeOne: asks that stacks without frames occur once in the source, as they do in every set that a thread has recorded (Draining.RecordedPlain).
- StackMerge.MergeRecords: asks the same of its source.
- Traces.FindsExactly: asks that no two stacks have the same id and the same frames, which Traces.SavedSeparable shows of all merges.
- Analysis.MProfile.Leaks: without the cache of the result.
- Analysis.MProfile.TakeSamples: the quotient is exact, while the script truncates a floating-point quotient.
- Ksyms.Snprintsym: name and offset are values; the text is cut at 90 characters by its caller (record.c:229-234).
- Symbols.PrintAddress: for the first file and functions that do not overlap; for other tables Ksyms.KelfOpen and Ksyms.Snprintsym say what happens.
- Ksyms.Bsearch: any search by halving; the C library does not prescribe one.
- mprofile_get_annotation: it does not advance over a quote, so there is no escaping to specify.
- Data that the program writes into its buffers: only sizes and headers are modelled.
