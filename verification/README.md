# A verified model of `indexset`

`indexset` keeps ordered elements in a two-level structure: a spine of small sorted nodes.  It has a
concurrent set, whose spine is an ordered index from the greatest element of a node to the node and
which can log its changes for a replica, and a single-threaded set with rank and select.  This
project models both and proves, for all inputs and all runs, what they are for.

An element is a pair of a key and a payload, compared by key alone, so that replacing an equal
element can be told from keeping it.  Keys are integers: the code only compares them, and the
elements of any one run form a finite part of a strict total order, which embeds into the integers.
The node capacity is at least two: with one, halving a full node leaves an empty one.

## The concurrent set

`ConcurrentState` gives the two atomic phases of a put and a remove, and the three commits, as
functions on a state: the index (key to node identity), the heap of nodes, and the event counter.
`ConcurrentSet` is the object whose methods carry out the statements of the source; each is proved
equal to those functions.  `Interleaving` lets any number of threads take phases in any order.

- **Exclusion by hypothesis, and its exact limits.**  The commit of a split re-checks only the key and
  the identity of the node.  `Separation.SplitIsAPutExactlyWhenItFits` proves when that is enough: the
  split is the put it was meant to be if and only if its value still fits between the neighbours.
  `PutPartition.PutsKeepThePartition` proves that values always fit while no node has two pending
  splits; `SplitRace.TwoPendingSplitsHideAnEntry` is a run of puts with two of them after which a
  stored entry cannot be found.
- **Linearizability.**  `Linearizability.PutsAreLinearizable` matches every such run of puts with a
  history of an atomic map with the same replies and the same entries.
- **Answers in every run.**  `CallResults.RemovesAnswerWhatTheyTookOut` holds of every interleaving of puts and
  removes, and `CallResults.AnUndisturbedCallIsTheWholeCall` ties the steps to the whole calls.  Removes
  cost more than answers: when a put refills a node that a remove is about to drop, below the node's
  key, the drop goes through.  `LostPut.MakeUnreachableExactly` says exactly when, and
  `LostPut.AReturnedPutIsLost` is a run in which a put that has returned is lost.
- **First nodes.**  A put that found the index empty installs a node without looking again.
  `FirstNodes.InstallIsAPutExactlyWhenThereIsRoom` says exactly when that is a put.
- **Sequential calls** refine a finite map (`ChangeLog.HistoriesRefineAMap`).
- **The change log.**  `ChangeLog.PutReplaysExactly` gives the exact condition under which replaying
  the events of a put keeps a replica faithful, and `ChangeLog.HistoriesReplay` is the statement for
  whole histories.  The failing case is a put that splits a full node and replaces the greatest
  element of one of the halves: it logs a removal and an insertion that both name the old greatest
  element, and after the first of the two the replica has re-keyed the node.  `LogContents` says which
  entries the events carry: a remove and a split log the entry they answer, a replacement in place logs
  the new entry as the removed one.
- **Iteration.**  `RangeCursor` is the double-ended cursor on a set at rest, and `RestingSet` proves that
  the set is at rest between sequential calls and whenever interleaved puts leave nothing pending.
  `CursorViews` gives the answers of a cursor to any mix of calls, and `RangeCursor.FaithfulExactly` says
  exactly for which ranges they are right.  `ForwardIter` is the forward iterator while other calls
  run, and `ForwardAtRest` proves that on a set that does not change it emits every entry in order.

## The single-threaded set and map

`TreeSet.BTreeSet` has the three fields of the source, changed in place: the nodes, their lengths and
a cached total.  Its abstract value is one strictly ascending sequence, the concatenation of the nodes.
Every method states its effect on that sequence, and `SetSpec.CallsRefineAMap` turns this into
refinement of a finite map over every sequence of calls.  `Spine` relates edits of a node to edits of
the concatenation, `Retention` justifies deleting by positions collected beforehand, `Spans` says
exactly which position ranges iterate faithfully, and `Merging` what the four set operations emit.

Where code and documentation differ the code is followed.  A range with two equal excluded ends is
documented to panic; the concurrent set does not panic.  It answers rightly that nothing is in range,
except when that end is the greatest element: then its cursor has no place at the front, and
`CursorViews` says what it yields.

## Model

| member | source | states |
|---|---|---|
| NodeOps.Search | src/core/node.rs:52-79 | Terminates with a matching position, or with the only place where the needle fits; matching exactly when the needle is present. |
| NodeOps.SearchNode | src/core/node.rs:52-79 | On a strictly sorted node both answers are the number of smaller keys. |
| NodeOps.PositionsToSkip | src/core/node.rs:86-149 | One less than the number of elements a bound rules out at the chosen end, or nothing when there are none, also for repeating borrowed keys. |
| NodeOps.SkipsUnique | src/core/node.rs:86-149 | That number is determined by the bound, so the skip count is exact. |
| NodeOps.Insert | src/core/node.rs:177-185 | Stores an absent key at its place and leaves a node with the key alone, reporting which and where. |
| NodeOps.Delete | src/core/node.rs:211-220 | Removes exactly the entry with the key, or nothing. |
| NodeOps.Halve | src/core/node.rs:161-163 | Cuts a node in the middle without losing or reordering anything. |
| NodeOps.Replace | src/core/node.rs:222-229 | Overwrites in range and returns the prior entry; out of range changes nothing. |
| NodeOps.StoredMeaning | src/core/node.rs:177-185 | Storing keeps a node strictly sorted and changes it, as a set of entries, at one key only. |
| NodeOps.RemovedMeaning | src/core/node.rs:211-220 | Removal keeps a node sorted and drops exactly the entries with one key. |
| NodeOps.FindIsMembership | src/core/node.rs:52-79 | The search finds an entry if and only if the node contains it. |
| OrderedKeys.LowerBound | src/concurrent/set.rs:446-460 | The index lookup is the least key not below the value. |
| OrderedKeys.RoutesUnique | src/concurrent/set.rs:446-460 | Every value belongs to one index key only. |
| ConcurrentState.HalvesFit | src/core/node.rs:161-163 | Halving a node leaves two sorted halves in order that hold its entries, the lower one empty exactly for a single entry, the upper one with the node's maximum. |
| ConcurrentState.CommitSplitShape | src/concurrent/operation.rs:34-116 | An accepted split replaces the index entry by the keys of both halves, each the half's maximum, and each half gains one entry at most. |
| ConcurrentState.StoreInHalfMeaning | src/concurrent/operation.rs:54-112 | After storing into one half both halves are sorted and in order, and hold exactly the old entries with the value stored; the prior entry is the one replaced. |
| ConcurrentState.EditForPutKeeps | src/concurrent/set.rs:140-257 | The first phase of a put keeps every node sorted and bounded and hands on an operation on an existing node. |
| ConcurrentState.EditForPutShape | src/concurrent/set.rs:140-257 | It defers a split exactly on a full node; otherwise it stores the value in the node of the lowest key not below it and, exactly when that moves the node's maximum, hands on the re-keying under the maximum before. |
| ConcurrentState.EditForRemoveKeeps | src/concurrent/set.rs:355-420 | The same for the first phase of a remove. |
| ConcurrentState.CommitKeeps | src/concurrent/operation.rs:24-178 | Every commit, in any state, keeps nodes sorted and within the capacity and index entries pointing to nodes; so halving a full node and inserting into either half stays within the capacity. |
| Separation.LookupFindsExactlyTheStored | src/concurrent/set.rs:446-506 | In a partitioned state routing and searching one node finds an entry if and only if it is stored anywhere. |
| Separation.EditForPutStores | src/concurrent/set.rs:136-257 | A first phase that does not defer a split is the whole put: partition kept, one key changed, old entry answered. |
| Separation.CommitSplitStores | src/concurrent/operation.rs:29-120 | A committed split of a value that still fits is the put itself. |
| Separation.SplitIsAPutExactlyWhenItFits | src/concurrent/operation.rs:29-120 | A commit of a split always succeeds when key and node match, and partition and answer are right if and only if the value still fits. |
| Separation.CommitUpdateMaxKeeps | src/concurrent/operation.rs:121-149 | Re-keying keeps the partition and moves no entry. |
| LostPut.UpdateMaxExactly | src/concurrent/operation.rs:121-149 | In any state re-keying is rejected exactly when the node is not empty and key or identity no longer match; it changes the index only to move the node to its maximum. |
| LostPut.MakeUnreachableExactly | src/concurrent/operation.rs:150-176 | With key and identity matching, a node is dropped if and only if it is empty or all its entries are below its key; then exactly its entries are lost, so none is if and only if it was empty. |
| LostPut.MakeUnreachableRejects | src/concurrent/operation.rs:150-176 | With key or identity not matching nothing changes. |
| LostPut.AReturnedPutIsLost | src/concurrent/operation.rs:150-176 | A concrete run: a remove empties a node, a put refills it and returns, the remove drops the node, and the entry put is held nowhere. |
| FirstNodes.InstallIsAPutExactlyWhenThereIsRoom | src/concurrent/set.rs:148-177 | In any partitioned state with non-empty nodes, creating a node without looking at the index again keeps the partition, stores the value and is right to answer nothing if and only if the node the value belongs to has only greater keys, or the value is above all index keys and that node has none above its own. |
| FirstNodes.TwoFirstNodesHideAnEntry | src/concurrent/set.rs:148-177 | A concrete run of three puts into an empty set, two of which create a first node, after which all have returned and a stored entry is not found. |
| MapView.EveryPartitionIsAMap | src/concurrent/set.rs:446-506 | The entries of a partitioned state form a finite map. |
| Interleaving.NodesStaySortedAndBounded | src/concurrent/set.rs:136-420 | In every interleaving of puts and removes all nodes stay strictly sorted and within the capacity. |
| CallResults.CallsKeepTheirRequests | src/concurrent/set.rs:136-420 | In every interleaving every call under way still has the request it was invoked with, and every answer is that of one call, given by its thread while the call was under way. |
| CallResults.EveryAnswerHasAnOrigin | src/concurrent/set.rs:136-420 | Every answer and its events come from a first phase of that very call and the commit of exactly what that phase handed on, or from the creation of a first node. |
| CallResults.RemovesAnswerWhatTheyTookOut | src/concurrent/set.rs:355-420 | In every interleaving a remove that returned answers exactly what the node it was routed to held for its key at its first phase, which took that entry out and left everything else alone. |
| CallResults.AnUndisturbedCallIsTheWholeCall | src/concurrent/set.rs:136-420 | From a tight state the steps of one call that nothing interferes with, the creation of a first node included, give the state, the answer and the numbered events of the call in one piece, whatever calls are waiting meanwhile. |
| CallResults.CallsEndByAnswering | src/concurrent/set.rs:136-420 | A call ends only in a step of its own, by one answer or by the panic of a split whose key and node match and whose node is empty; nothing else panics. |
| CallResults.ARejectedSplitStartsAgain | src/concurrent/set.rs:222-237 | A split whose key or node no longer match starts its call again and changes nothing else. |
| EventIds.IdsHaveNoGapsAndNoDuplicates | src/concurrent/set.rs:140-416 | In every interleaving of the phases of puts and removes the ids handed out are exactly 0 to n-1, each on one event held or returned by one call; a split tried again consumes none. |
| EventIds.SeparateIncrementsStayExact | src/concurrent/set.rs:263-325 | The same when every id is taken by an increment of its own, interleaved with any steps of any calls: ids 0 to n-1, each to one event, ascending within a call. |
| PutInterleaving.KeysAreMaximaOrPending | src/concurrent/set.rs:183-253 | In every interleaving of puts each index key is its node's maximum, or an update naming exactly that node and key is pending. |
| PutInterleaving.KeysAreMaximaAtRest | src/concurrent/operation.rs:121-149 | So once nothing is pending all keys are maxima. |
| PutPartition.FittingRunsKeepThePartition | src/concurrent/operation.rs:29-149 | Runs whose committed splits fit keep nodes disjoint, ordered, non-empty and within their separators. |
| PutPartition.PutsKeepThePartition | src/concurrent/operation.rs:29-149 | Without two pending splits on one node every committed split fits, so every interleaving of puts keeps the partition. |
| PutPartition.PartitionMeans | src/concurrent/set.rs:140-257 | What the partition means for the entries of any two nodes and for lookups. |
| SplitRace.TwoPendingSplitsHideAnEntry | src/concurrent/operation.rs:29-37 | A concrete run of puts with two pending splits on one node after which a stored entry is not found: the hypothesis is needed. |
| SplitPanic.PutsNeverPanic | src/concurrent/operation.rs:29-37 | In no interleaving of puts, with no limit on pending operations, does a split meet an emptied node. |
| SplitPanic.RemovesMakeASplitPanic | src/concurrent/operation.rs:29-37 | A concrete run of one put and two removes in which the split meets a node that is emptied but still indexed, and the put never returns. |
| Linearizability.PutsAreLinearizable | src/concurrent/set.rs:136-326 | Every run of puts with fitting splits is a history of an atomic map with the same calls, replies and entries. |
| Linearizability.OneSplitPerNodeSuffices | src/concurrent/set.rs:136-326 | The same from the hypothesis of at most one pending split per node. |
| Sequential.PutRefines | src/concurrent/set.rs:258-326 | A put run alone commits first time, returns the replaced entry, stores the new one, and leaves every key a maximum. |
| Sequential.RemoveRefines | src/concurrent/set.rs:355-420 | A remove run alone commits first time, returns the entry and deletes it, and leaves every key a maximum. |
| ChangeLog.HistoriesRefineAMap | src/concurrent/set.rs:258-420 | Any history of puts and removes refines the finite map, answer by answer. |
| ChangeLog.ReplaceReplays | src/concurrent/set.rs:263-325 | Replaying a replacement logged outside a split reproduces the node, whichever entry was replaced, the greatest and the only one included. |
| ChangeLog.StoreReplays | src/concurrent/operation.rs:54-112 | Replaying what a split logs for its half reproduces the half unless its greatest entry was replaced; then the replica loses sight of the node. |
| ChangeLog.PutReplaysExactly | src/concurrent/map.rs:529-584 | Replaying the events of a put keeps a replica faithful if and only if the put does not split a full node and replace the greatest entry of a half. |
| ChangeLog.RemoveReplays | src/concurrent/map.rs:529-584 | Replaying the events of a remove always keeps a replica faithful. |
| ChangeLog.HistoriesReplay | src/concurrent/map.rs:529-584 | Replaying all events of a history rebuilds the index: same keys, contents and splits. |
| ChangeLog.AbsentNodeIsLeftAlone | src/concurrent/map.rs:529-584 | An event that names an absent node leaves the whole replica as it was; it is refused exactly when it would re-key that node. |
| ChangeLog.OtherNodesStay | src/concurrent/map.rs:529-584 | An event leaves every node it does not name as it was, unless it moves its result there. |
| LogContents.RemovePhaseLogs | src/concurrent/set.rs:355-420 | In any state the first phase of a remove logs only removals, of exactly the entry it answers, and logs nothing when it answers nothing. |
| LogContents.RemoveLogsWhatItAnswers | src/concurrent/set.rs:355-420 | On a tight set every removal logged by a remove carries the entry answered and names its place in the replica's node. |
| LogContents.StoreLogs | src/concurrent/operation.rs:54-112 | Storing into a half logs the entry that was there, if any, as removed and the value as inserted at the same place. |
| LogContents.SplitLogsWhatItAnswers | src/concurrent/operation.rs:34-116 | In any state an accepted split logs as removed exactly the prior entry it answers, and the value put as inserted. |
| LogContents.SplitNamesThePrior | src/concurrent/operation.rs:34-116 | On a tight set that removal names, in the replica after the cut, the node and the place of the prior entry. |
| LogContents.PutLogsItsValue | src/concurrent/set.rs:258-326 | Every put logs its value as inserted; one that replaces outside a split logs the new entry also as the removed one, at the place of the old. |
| LogContents.PutIntoAnEmptiedNodeIsNotReplayed | src/concurrent/set.rs:170-206 | A put into a node that a remove has emptied stores and logs its value, but as an insertion into a node of its own key; a replica that has no such node never sees it. |
| ReplayLoss.ReplacingTheGreatestIsLost | src/concurrent/operation.rs:60-112 | The excluded case occurs: after two puts into an empty set of capacity two, whose log replays, replacing the greatest entry logs events whose replay differs from the set. |
| ReplicaObject.PersistedMap.Persist | src/concurrent/map.rs:529-584 | Applying one event in place is the replay function, including which events cannot be applied. |
| ReplicaObject.PersistedMap.PersistAll | src/concurrent/map.rs:519-584 | Applying a log in place is replaying it; it stops at the first event that cannot be applied. |
| ConcurrentSet.BTreeSet.AssignIds | src/cdc/change.rs:111-143 | Consecutive ids from the shared counter, one to an event, in order. |
| ConcurrentSet.BTreeSet.Commit | src/concurrent/operation.rs:24-178 | The statements of a commit are the transition function, arm by arm. |
| ConcurrentSet.BTreeSet.CommitSplit | src/concurrent/operation.rs:34-120 | The statements of a split are the transition function, with its events. |
| ConcurrentSet.BTreeSet.Get | src/concurrent/set.rs:487-506 | Answers as the finite map does. |
| ConcurrentSet.BTreeSet.PutPhase | src/concurrent/set.rs:140-206 | The statements of the first phase are the transition function. |
| ConcurrentSet.BTreeSet.PutCdcChecked | src/concurrent/set.rs:136-257 | The retry loop ends with the whole put done, or with the node that has the key untouched. |
| ConcurrentSet.BTreeSet.PutCdc | src/concurrent/set.rs:258-326 | Stores the value in the finite map, returns the old entry, and emits the events of the transition function. |
| ConcurrentSet.BTreeSet.RemoveCdc | src/concurrent/set.rs:355-420 | Deletes from the finite map, returns the entry, and emits the events of the transition function. |
| RestingSet.TightIsAtRest | src/concurrent/set.rs:136-420 | The nodes of the set between sequential calls, in the order of their keys, are a set at rest: none empty, ascending throughout, the key of each its last element, the elements the keys stored. |
| RestingSet.QuietIsTight | src/concurrent/operation.rs:121-149 | A partitioned set with nothing pending is such a set. |
| RestingSet.QuietIsAtRest | src/concurrent/set.rs:136-326 | So is every quiet state that interleaved puts reach without two pending splits on one node. |
| RangeCursor.Cursor.All | src/concurrent/set.rs:578-594 | The cursor starts on all elements. |
| RangeCursor.Cursor.Range | src/concurrent/set.rs:910-1023 | The cursor starts on exactly the elements both bounds admit; if both ends exclude the greatest element it starts without a place at the front. |
| RangeCursor.Cursor.Next | src/concurrent/set.rs:603-743 | Yields the next element of what is left, from every state a cursor can be in. |
| RangeCursor.Cursor.NextBack | src/concurrent/set.rs:751-878 | The same from the back; a cursor without a place at the front starts over once it has run out. |
| RangeCursor.Cursor.Mix | src/concurrent/set.rs:603-878 | Any mix of calls on any cursor answers as the view of the cursor says. |
| CursorViews.IdealMeaning | src/concurrent/set.rs:603-878 | The reference for a range: any mix of calls yields elements in range only, none twice, and enough calls yield all. |
| CursorViews.PlacedAnswers | src/concurrent/set.rs:603-878 | A cursor that knows its place at both ends answers as the reference. |
| CursorViews.LostIsWrong | src/concurrent/set.rs:603-878 | A cursor without a place at the front does not, on any set that is not empty. |
| RangeCursor.FaithfulExactly | src/concurrent/set.rs:910-1023 | For every set, every two bounds and every combination of included, excluded and unbounded, all mixes of calls answer as the reference if and only if the bounds do not both exclude the greatest element. |
| RangeCursor.ExcludedTwiceYieldsTheLeast | src/concurrent/set.rs:910-1023 | A run of the failing case: nothing is in range, and the first call from the front yields the least element. |
| RangeCursor.ExcludedTwiceStartsOver | src/concurrent/set.rs:751-878 | Another, when all elements have the excluded key: the first call from the back yields nothing, the second the greatest element. |
| ForwardIter.SkipIsRank | src/concurrent/set.rs:648-741 | Repositioning by the last emitted key skips exactly the entries that are not above it. |
| ForwardIter.EmitsStrictlyIncreasing | src/concurrent/set.rs:648-741 | A forward iterator emits strictly increasing keys whatever puts, removes and splits run meanwhile. |
| ForwardIter.RoundMeaning | src/concurrent/set.rs:648-741 | A round on a locked node emits its first remaining entry; a round that locks a node emits and then holds, between them, exactly the node's entries above the last key, in order; otherwise it moves on and emits nothing. |
| ForwardAtRest.EmitsEveryEntryInOrder | src/concurrent/set.rs:648-741 | On a set that does not change the iterator emits every stored entry once, in ascending order, within a bounded number of rounds, and at all times a beginning of that sequence. |
| Spine.AtHome | src/lib.rs:155-207 | In the node where a key belongs, searching the node is searching the whole set. |
| Spine.HalvedMeaning | src/lib.rs:340-348 | Halving a node changes the spine and not the sequence. |
| Spine.HomeInHalf | src/lib.rs:342-347 | Comparing with the least element of the upper half picks the half where the key belongs. |
| Spine.InsertAtHome | src/lib.rs:349-362 | Adding to the located node adds to the sequence. |
| Spine.WithoutMeaning | src/lib.rs:465-489 | Removing at a place, and the node with it if left empty, removes one element of the sequence and keeps the shape. |
| Spine.CutAtHome | src/lib.rs:1064-1080 | Cutting the spine at a key's place leaves two well-formed spines, the parts of the sequence below and not below the key. |
| TreeSet.BTreeSet.constructor | src/lib.rs:131-137 | A new set is well formed and empty. |
| TreeSet.BTreeSet.Clear | src/lib.rs:150-154 | Leaves a well-formed empty set. |
| TreeSet.BTreeSet.LocateNode | src/lib.rs:155-177 | The node found is where the key is or would have to go. |
| TreeSet.BTreeSet.LocateValue | src/lib.rs:198-207 | Node offset plus position is the number of smaller elements. |
| TreeSet.BTreeSet.LocateIth | src/lib.rs:219-236 | The place of the i-th element for every index lookup allowed at a boundary, and past the end when there is none. |
| TreeSet.BTreeSet.GetIndex | src/lib.rs:253-260 | The i-th smallest element, or nothing. |
| TreeSet.BTreeSet.LowerBound | src/lib.rs:313-324 | The least element not below the key, or nothing exactly when all are below. |
| TreeSet.BTreeSet.Contains | src/lib.rs:435-448 | True exactly for the keys of the set. |
| TreeSet.BTreeSet.Rank | src/lib.rs:1220-1230 | The number of elements strictly below the key. |
| SetSpec.RankCounts | src/lib.rs:1220-1230 | The insertion point of a key counts the keys below it. |
| SetSpec.RankOfSelected | src/lib.rs:253-260 | The rank of the i-th element is i. |
| SetSpec.SelectOfRank | src/lib.rs:253-260 | The element at the rank of a present key has that key. |
| TreeSet.BTreeSet.InsertAt | src/lib.rs:340-368 | Inserts an absent value and keeps a present one, patching or rebuilding the index; a full node is split either way, and the capacity is respected. |
| TreeSet.BTreeSet.Insert | src/lib.rs:393-396 | Insertion into the sequence. |
| TreeSet.BTreeSet.DeleteAt | src/lib.rs:465-489 | Removes the element at a place; length and index stay right on all three paths. |
| TreeSet.BTreeSet.Delete | src/lib.rs:490-508 | Removes and returns the entry with the key, if any. |
| TreeSet.BTreeSet.Take | src/lib.rs:589-597 | The same, returning only the entry. |
| TreeSet.BTreeSet.Replace | src/lib.rs:414-419 | Stores the value in place of an equal one, which it returns. |
| TreeSet.BTreeSet.PopFirst | src/lib.rs:662-671 | Removes and returns the first element, if any. |
| TreeSet.BTreeSet.PopIndex | src/lib.rs:687-691 | Removes and returns the i-th element. |
| TreeSet.BTreeSet.PopLast | src/lib.rs:708-720 | Removes and returns the last element, if any. |
| SetSpec.CallsRefineAMap | src/lib.rs:150-720 | Every sequence of these calls gives the answers of a finite map and ends at its entries; popping by index pops the key with that rank. |
| Retention.Rejected | src/lib.rs:984-992 | Every element is asked about once, in order, and exactly the rejected ones are listed. |
| Retention.AcceptedBetween | src/lib.rs:984-992 | Between consecutive collected positions every element is to be kept. |
| Retention.DeletingNext | src/lib.rs:993-999 | Deleting in reverse, the next position still names the same element, whatever nodes were dropped. |
| TreeSet.BTreeSet.Retain | src/lib.rs:979-1000 | Keeps exactly the elements accepted by a predicate that may have state and is asked about all elements in order. |
| SetSpec.StatelessDecisions | src/lib.rs:979-1000 | With a predicate that only looks at the element this is filtering. |
| SetSpec.DecisionsAreInTurn | src/lib.rs:984-992 | The predicate is asked about one element after the other, in order, each time in the state the previous answer left. |
| SetSpec.FilteredMeaning | src/lib.rs:979-1000 | Filtering keeps the order and exactly the accepted elements. |
| TreeSet.BTreeSet.TearOff | src/lib.rs:1064-1072 | Popping nodes off the spine and reversing them yields the nodes after the cut, in order. |
| TreeSet.BTreeSet.SplitOff | src/lib.rs:1058-1084 | The sequence is partitioned at the key into two well-formed sets, also when the key is below or above everything. |
| TreeSet.BTreeSet.Append | src/lib.rs:1113-1117 | Replaces, one after another, by the elements of the other set and empties it. |
| SetSpec.AbsorbedMeaning | src/lib.rs:1113-1117 | Appending is union, the other set's entry winning on equal keys. |
| SetSpec.AbsorbedRestores | src/lib.rs:1058-1117 | Absorbing what was cut off restores the sequence. |
| TreeSet.SplitOffThenAppend | src/lib.rs:1058-1117 | Splitting off and appending restores the set and empties the other. |
| TreeIter.Iter.constructor | src/lib.rs:1344-1356 | The iterator starts on all elements. |
| TreeIter.Iter.RangeIdx | src/lib.rs:1243-1273 | Whatever the bounds, the iterator starts on the positions of the range; any mix of calls emits exactly the positions both bounds admit if and only if the range is ordered and within the elements, or there are none. |
| TreeIter.FirstToLast | src/lib.rs:1118-1155 | The first and last position computed for the nine kinds of bounds hold between them exactly the positions that both bounds admit. |
| TreeIter.BoundsExactly | src/lib.rs:1118-1155 | Any mix of calls emits exactly the positions that both bounds admit, each once, if and only if the range is ordered and within the elements, or there are none. |
| TreeIter.Iter.Next | src/lib.rs:1363-1380 | Terminates with the element at the front position, across node boundaries, until the ends meet. |
| TreeIter.Iter.NextBack | src/lib.rs:1386-1403 | The same from the back. |
| Spans.EmittedWithin | src/lib.rs:1363-1403 | For a range within the elements any mix of calls emits only positions in range and none twice. |
| Spans.EverythingIsEmitted | src/lib.rs:1363-1403 | And enough calls emit every one of them. |
| Spans.FaithfulExactly | src/lib.rs:1118-1155 | A position range a to b, the end before the start included, iterates faithfully under all mixes of calls if and only if it lies within the elements, b is the place before a, or there are no elements. |
| Spans.FrontsAlone | src/lib.rs:1363-1380 | Calls from the front alone emit the positions from the start to the end, or to the last element, in order and without gap, wherever the range ends. |
| MergeIters.MergeIter.Next | src/lib.rs:1485-1516 | Shows the heads of both sequences and then drops the smaller, or both when equal. |
| Merging.MergedMeaning | src/lib.rs:1485-1684 | Each of the four operations emits exactly its mathematical set, ascending and without duplicates. |
| Merging.NothingMore | src/lib.rs:1579-1684 | An exhausted difference or intersection stays exhausted. |
| MergeIters.MergeIter.NextUnion | src/lib.rs:1538-1554 | Emits the union step by step. |
| MergeIters.MergeIter.NextDifference | src/lib.rs:1579-1598 | The skip loop terminates with the next element of the difference. |
| MergeIters.MergeIter.NextSymmetricDifference | src/lib.rs:1621-1643 | The skip loop terminates with the next element of the symmetric difference. |
| MergeIters.MergeIter.NextIntersection | src/lib.rs:1666-1684 | The skip loop terminates with the next element of the intersection. |
| MergeIters.IsSubset | src/lib.rs:753-759 | Decides inclusion. |
| MergeIters.IsSuperset | src/lib.rs:780-786 | Decides inclusion the other way. |
| MergeIters.IsDisjoint | src/lib.rs:804-810 | Decides disjointness. |
| TreeMap.BTreeMap.FindKey | src/lib.rs:510-527 | Finds the place of the key, or the node where it belongs. |
| TreeMap.BTreeMap.Insert | src/lib.rs:2259-2276 | Overwrites the value in place and returns the old one, or adds an entry. |
| TreeMap.BTreeMap.InsertVacant | src/lib.rs:1861-1866 | The slot looked up by the rank computed before the insertion is the new entry's, also when a node was split. |

## Left out

- Locks are atomic phases: a phase under the index lock and a node lock is one step.  The replacement of a found key, which runs under the node lock after the index lock is released, belongs to the same step, and so do the ids of one phase, except in `EventIds.SeparateIncrementsStayExact`.
- Nodes of the concurrent set are a map from identities to sequences; reference counting is not modelled.
- The creation of the first node is modelled as the code has it, without a second check for emptiness (`FirstNodes` says when that is enough); the claims about separators, keys and linearizability start from a set that is not empty and cover puts only.  A node emptied by removes can stay indexed while its key lags.
- A split that meets a node emptied meanwhile panics in the original when the change log is on; the model ends that call there, and does not model the locks it leaves behind.
- The linearizability of `contains` and `get`: the index lock is released between routing and locking the node, so routing is stated on one state.
- EventIds.IdsHaveNoGapsAndNoDuplicates: takes the ids of one phase in one step; `EventIds.SeparateIncrementsStayExact` does not.
- ConcurrentSet.BTreeSet.Get: routes and searches in one state; the index lock is released in between in the original.
- ConcurrentSet.BTreeSet.PutCdcChecked: is stated for a caller that is not interfered with, so its retry after a rejected split never happens; `Interleaving` has the retry as a step.
- The elements of a set at rest are integers, compared with the bounds through a monotone borrowed key.
- ForwardIter.EmitsStrictlyIncreasing: the iterator is a state machine on values; that every element present throughout is emitted while other calls run is not claimed, only on a set that does not change.
- The Fenwick tree, the skip list and the locks come from other libraries: the Fenwick tree is a sequence of counts with a lookup specified loosely at boundaries, the skip list an ordered map.
- TreeSet.BTreeSet.SplitOff: the set split off has the default node size of 1024, as in the code, so its nodes are known to be within its capacity when the original's capacity was at most 1024.
- TreeSet.BTreeSet.PopIndex: panics for an index out of range; the model requires the index to be in range.
- TreeIter.Iter.RangeIdx: an end excluding position zero, where the original subtracts one from zero, is not modelled.
- `partition_point` of the standard library is a scan from the left.
- The comparator variants `locate_value_cmp`, `split_off_cmp` and `delete_cmp`, which repeat the modelled ones with closures, other than in the map's insertion.
- `remove_range`, `IterMut`, `RangeMut`, `ValuesMut`, `BTreeSet::get` of the single-threaded set and value ranges: they do not do what their documentation says and are not modelled.
- `RandomMultiPair`, the multimaps, `attach_node`, serde, hashing, `Ref` guards and the thin map wrappers.
