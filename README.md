# Ordered work set and nested bean properties, modelled in Dafny

This project models two parts of a build engine's execution core and proves
properties of them.

- `NaturalOrderSet` is a navigable set whose order is the order of insertion.
  It keeps two indexes:
  - `realSet`, a `TreeSet` of `ElementWithOrder` entries ordered by their
    integer stamp;
  - `observer`, a `HashMap` from each element to its entry.

  `add` stamps a new element with the tree's current `size()`. The other
  operations read the indexes or update both. `lower`, `floor`, `ceiling`,
  `higher` and the sub-set views read both: the observer for the element's
  entry, then the tree.
- `AbstractNestedRuntimeBeanNode` holds one step of the walk over a task's
  nested properties:
  - `visitProperties` reports the node's validation problems. It then hands
    each property to its annotation handler, whose callback appends newly
    found nested beans to the walker's work queue.
  - `BeanPropertyValue` realises a getter's value lazily, through a memoizing
    supplier. Its return type decides which task dependencies it reports and
    whether it finalises the value.

Files:

- `outcomes.dfy`: `Option`, `Result` and `Outcome`.
- `ordered_entry.dfy` (module `OrderedEntries`): Java `int` as the newtype
  `int32`, 32-bit wrap-around, `compareTo`, and the `ElementWithOrder` class.
- `natural_order_set.dfy` (module `NaturalOrderSets`) has three layers:
  - The two indexes as a value (`Indexes`), with the tree as a strictly
    ascending sequence of entries.
  - Every state change as a function of the old indexes (`AddStep`,
    `RemoveStep`, `PollFirstStep`, `PollLastStep`, `AddAllStep`).
  - The class `NaturalOrderSet`. Its fields are the two indexes. Its methods
    update them in place, and each method's postcondition ties the new state
    to the matching step function.

  Two invariants are proved about the step functions:
  - `WellFormed`: the tree is ordered, and every tree entry is the one the
    observer holds for its element. Every operation keeps it.
  - `Synced`: `WellFormed`, plus every observer entry is in the tree. This is
    the invariant the set's users rely on.
- `nested_bean_node.dfy` (module `NestedBeanNodes`) models:
  - the memoized supplier as a pure step function, `Memoized`, and runs of
    calls to it, `MemoRun`;
  - the class `BeanPropertyValue`, whose methods are tied to `Memoized`;
  - `visitProperties` as a loop over the properties, proved against the fold
    functions `HandlerCalls` and `Enqueued`.

The central result concerns `add`'s stamping rule and is proved both ways:

- **When it works.** Starting from the empty set and adding distinct elements
  with no removal in between, the stamps stay dense (0, 1, …, n-1). Every
  `add` then succeeds and iteration yields the elements in insertion order
  (`AddAllInInsertionOrder`). `AddKeepsSyncedIffFresh` states the general
  condition: `add` keeps the indexes in agreement exactly when the stamp
  `size()` is not already taken.
- **When it breaks.** After a removal that is not at the tail, `size()` can
  equal a stamp that is still in use. Then:
  - `add` answers false;
  - `contains(e)` is true but neither iteration nor `size()` counts `e`;
  - a later `remove(e)` deletes the other element's tree entry.

  `AddOnTakenStamp`, `StampReuseExample` and `RemoveMiddleThenAdd` prove this.

## Model

| member | source | states |
|---|---|---|
| OrderedEntries.Wrap32 | subprojects/core/src/main/java/org/gradle/execution/plan/ElementWithOrder.java:34 | the result is the exact integer reduced modulo 2^32 into the int range, and is the exact integer whenever that fits |
| OrderedEntries.Compare | subprojects/core/src/main/java/org/gradle/execution/plan/ElementWithOrder.java:33-35 | when `order - other` does not overflow, the sign of the 32-bit difference is the order of the two ints |
| OrderedEntries.CompareOnStamps | subprojects/core/src/main/java/org/gradle/execution/plan/ElementWithOrder.java:33-35 | for non-negative orders (all stamps the set hands out) the comparison's sign is exactly their order |
| OrderedEntries.CompareOverflows | subprojects/core/src/main/java/org/gradle/execution/plan/ElementWithOrder.java:34 | the written subtraction orders the least int after 1 |
| OrderedEntries.CompareOrders | subprojects/core/src/main/java/org/gradle/execution/plan/ElementWithOrder.java:33-35 | the intended comparison: its sign is the order of the two ints for every pair |
| OrderedEntries.CompareAgreesWithoutOverflow | subprojects/core/src/main/java/org/gradle/execution/plan/ElementWithOrder.java:33-35 | where the difference fits in an int, the written and the intended comparison agree in sign |
| OrderedEntries.ElementWithOrder.constructor | subprojects/core/src/main/java/org/gradle/execution/plan/ElementWithOrder.java:37-40 | the new object holds the given order and element |
| OrderedEntries.ElementWithOrder.SetOrder | subprojects/core/src/main/java/org/gradle/execution/plan/ElementWithOrder.java:29-31 | the order becomes the new one, getOrder returns it and the element is untouched |
| OrderedEntries.ElementWithOrder.CompareTo | subprojects/core/src/main/java/org/gradle/execution/plan/ElementWithOrder.java:32-35 | equal orders compare equal whatever the elements; for non-negative orders the sign is the order of the stamps |
| NaturalOrderSets.TreeOrderIsCompareTo | subprojects/core/src/main/java/org/gradle/execution/plan/ElementWithOrder.java:32-35 | two entry objects holding entries of an ordered tree of non-negative stamps compare by compareTo as their positions in the tree do |
| NaturalOrderSets.SizeOf | subprojects/core/src/main/java/org/gradle/execution/plan/NaturalOrderSet.java:68-71 | the tree's size is never negative, is the number of entries up to Integer.MAX_VALUE and Integer.MAX_VALUE beyond |
| NaturalOrderSets.Insert | subprojects/core/src/main/java/org/gradle/execution/plan/NaturalOrderSet.java:117 | TreeSet.add of an untaken stamp: one more entry, every old entry kept, the new one present |
| NaturalOrderSets.InsertOrdered | subprojects/core/src/main/java/org/gradle/execution/plan/NaturalOrderSet.java:117 | inserting an entry whose stamp is not taken keeps the tree strictly ordered |
| NaturalOrderSets.InsertAtEnd | subprojects/core/src/main/java/org/gradle/execution/plan/NaturalOrderSet.java:117 | an entry whose stamp exceeds all others goes to the end of the tree |
| NaturalOrderSets.RemoveStamp | subprojects/core/src/main/java/org/gradle/execution/plan/NaturalOrderSet.java:126 | TreeSet.remove by comparison: no entry is added, order is kept, and an untaken stamp changes nothing |
| NaturalOrderSets.RemoveStampAt | subprojects/core/src/main/java/org/gradle/execution/plan/NaturalOrderSet.java:126 | removing the stamp of entry i removes exactly that entry, whichever element it holds |
| NaturalOrderSets.Range | subprojects/core/src/main/java/org/gradle/execution/plan/NaturalOrderSet.java:182-195 | the tree's sub-range holds exactly the entries whose stamps lie between the bounds |
| NaturalOrderSets.RangeOrdered | subprojects/core/src/main/java/org/gradle/execution/plan/NaturalOrderSet.java:182-195 | a sub-range of an ordered tree is ordered |
| NaturalOrderSets.GreatestUpTo | subprojects/core/src/main/java/org/gradle/execution/plan/NaturalOrderSet.java:34-42 | TreeSet.lower/floor: none exactly when no stamp lies below the bound, otherwise the entry with the greatest such stamp |
| NaturalOrderSets.LeastFrom | subprojects/core/src/main/java/org/gradle/execution/plan/NaturalOrderSet.java:44-52 | TreeSet.ceiling/higher: none exactly when no stamp lies above the bound, otherwise the entry with the least such stamp |
| NaturalOrderSets.ElementsBetween | subprojects/core/src/main/java/org/gradle/execution/plan/NaturalOrderSet.java:182-195 | the copied-out sub-set holds exactly the elements of the entries between the bounds |
| NaturalOrderSets.ElementsDistinct | subprojects/core/src/main/java/org/gradle/execution/plan/NaturalOrderSet.java:31-32 | with well-formed indexes no element is iterated twice |
| NaturalOrderSets.SyncedViews | subprojects/core/src/main/java/org/gradle/execution/plan/NaturalOrderSet.java:31-32 | every iterated element is contained; with synced indexes every contained element is iterated and both indexes have the same size |
| NaturalOrderSets.AddPreservesWellFormed | subprojects/core/src/main/java/org/gradle/execution/plan/NaturalOrderSet.java:110-118 | add keeps the indexes well formed in every case, stamp clash included |
| NaturalOrderSets.AddKeepsSyncedIffFresh | subprojects/core/src/main/java/org/gradle/execution/plan/NaturalOrderSet.java:110-118 | for a new element, add answers true exactly when the stamp size() is untaken, and the indexes stay synced exactly then |
| NaturalOrderSets.AddOnTakenStamp | subprojects/core/src/main/java/org/gradle/execution/plan/NaturalOrderSet.java:115-117 | on a taken stamp add answers false, the tree is unchanged, the element is contained but not iterated, and the observer outgrows the tree by one |
| NaturalOrderSets.DenseIsFresh | subprojects/core/src/main/java/org/gradle/execution/plan/NaturalOrderSet.java:115 | with stamps 0..n-1 the stamp size() is never taken |
| NaturalOrderSets.AddToDense | subprojects/core/src/main/java/org/gradle/execution/plan/NaturalOrderSet.java:110-118 | adding a new element to a dense, synced set succeeds, appends it to the iteration order and keeps the stamps dense |
| NaturalOrderSets.AddAllInInsertionOrder | subprojects/core/src/main/java/org/gradle/execution/plan/NaturalOrderSet.java:138-143 | adding distinct new elements to a dense, synced set (the empty set) iterates them in insertion order afterwards, with stamps still dense |
| NaturalOrderSets.AddAllKeepsDense | subprojects/core/src/main/java/org/gradle/execution/plan/NaturalOrderSet.java:138-143 | adding any elements, repeats included, to a dense, synced set keeps it dense and synced and contains exactly the old and the new elements |
| NaturalOrderSets.RemoveKeepsSynced | subprojects/core/src/main/java/org/gradle/execution/plan/NaturalOrderSet.java:120-129 | remove keeps the indexes well formed; from synced indexes it removes the element's own tree entry and keeps them synced |
| NaturalOrderSets.PollFirstPreserves | subprojects/core/src/main/java/org/gradle/execution/plan/NaturalOrderSet.java:54-59 | pollFirst fails only on an empty tree, returns the element with the least stamp, removes it from both indexes and keeps both invariants |
| NaturalOrderSets.PollLastPreserves | subprojects/core/src/main/java/org/gradle/execution/plan/NaturalOrderSet.java:61-66 | pollLast fails only on an empty tree, returns the element with the greatest stamp, removes it from both indexes and keeps both invariants and dense stamps |
| NaturalOrderSets.DrainFirstIsIterationOrder | subprojects/core/src/main/java/org/gradle/execution/plan/NaturalOrderSet.java:54-59 | polling the first element until the set is empty yields exactly the iteration order |
| NaturalOrderSets.ThreeAdds | subprojects/core/src/main/java/org/gradle/execution/plan/NaturalOrderSet.java:110-118 | adding a, b, c to the empty set stamps them 0, 1, 2 in both indexes |
| NaturalOrderSets.ThenRemoveFirst | subprojects/core/src/main/java/org/gradle/execution/plan/NaturalOrderSet.java:120-129 | removing a then leaves the entries stamped 1 and 2 |
| NaturalOrderSets.StampReuseExample | subprojects/core/src/main/java/org/gradle/execution/plan/NaturalOrderSet.java:110-129 | after add a, b, c and remove a, add d reuses c's stamp and answers false, and remove d then deletes c's tree entry while c stays contained |
| NaturalOrderSets.RemoveMiddleThenAdd | subprojects/core/src/main/java/org/gradle/execution/plan/NaturalOrderSet.java:110-129 | after add a, b, c and remove b, add d answers false and iteration yields a, c |
| NaturalOrderSets.AddAfterLastKeepsSynced | subprojects/core/src/main/java/org/gradle/execution/plan/NaturalOrderSet.java:110-118 | stamping one past the last stamp keeps any synced indexes synced, removals included, answers whether the element was new and appends it to the iteration order |
| NaturalOrderSets.ContainsEveryIff | subprojects/core/src/main/java/org/gradle/execution/plan/NaturalOrderSet.java:131-136 | the intended containsAll is true exactly when every element of c is contained |
| NaturalOrderSets.ContainsAllOfAbsent | subprojects/core/src/main/java/org/gradle/execution/plan/NaturalOrderSet.java:131-136 | the intended containsAll of an absent element is false |
| NaturalOrderSets.AddAllReportingIff | subprojects/core/src/main/java/org/gradle/execution/plan/NaturalOrderSet.java:138-143 | from a dense, synced set the intended addAll reaches the same state and answers true exactly when c holds an element not yet contained |
| NaturalOrderSets.FloorCeilingAt | subprojects/core/src/main/java/org/gradle/execution/plan/NaturalOrderSet.java:39-47 | floor and ceiling of an entry's own stamp find that entry |
| NaturalOrderSets.LowerAt | subprojects/core/src/main/java/org/gradle/execution/plan/NaturalOrderSet.java:34-37 | lower of an entry's stamp finds the entry before it, or nothing for the first |
| NaturalOrderSets.HigherAt | subprojects/core/src/main/java/org/gradle/execution/plan/NaturalOrderSet.java:49-52 | higher of an entry's stamp finds the entry after it, or nothing for the last |
| NaturalOrderSets.NavigateFromMember | subprojects/core/src/main/java/org/gradle/execution/plan/NaturalOrderSet.java:34-52 | for an iterated element floor and ceiling return it, lower and higher return its neighbours in iteration order and fail at either end |
| NaturalOrderSets.NaturalOrderSet.constructor | subprojects/core/src/main/java/org/gradle/execution/plan/NaturalOrderSet.java:31-32 | a new set has two empty indexes, synced and dense |
| NaturalOrderSets.NaturalOrderSet.Lower | subprojects/core/src/main/java/org/gradle/execution/plan/NaturalOrderSet.java:34-37 | a null-pointer failure when e is absent or no stamp lies below e's; otherwise the element with the greatest stamp below e's |
| NaturalOrderSets.NaturalOrderSet.Floor | subprojects/core/src/main/java/org/gradle/execution/plan/NaturalOrderSet.java:39-42 | a null-pointer failure when e is absent or no stamp lies at or below e's; otherwise the element with the greatest such stamp |
| NaturalOrderSets.NaturalOrderSet.Ceiling | subprojects/core/src/main/java/org/gradle/execution/plan/NaturalOrderSet.java:44-47 | a null-pointer failure when e is absent or no stamp lies at or above e's; otherwise the element with the least such stamp |
| NaturalOrderSets.NaturalOrderSet.Higher | subprojects/core/src/main/java/org/gradle/execution/plan/NaturalOrderSet.java:49-52 | a null-pointer failure when e is absent or no stamp lies above e's; otherwise the element with the least stamp above e's |
| NaturalOrderSets.NaturalOrderSet.First | subprojects/core/src/main/java/org/gradle/execution/plan/NaturalOrderSet.java:222-225 | no-such-element on an empty tree, otherwise the element with the least stamp |
| NaturalOrderSets.NaturalOrderSet.Last | subprojects/core/src/main/java/org/gradle/execution/plan/NaturalOrderSet.java:227-230 | no-such-element on an empty tree, otherwise the element with the greatest stamp |
| NaturalOrderSets.NaturalOrderSet.PollFirst | subprojects/core/src/main/java/org/gradle/execution/plan/NaturalOrderSet.java:54-59 | a null-pointer failure with no change on an empty tree; otherwise the new state is PollFirstStep's, the result is first() and it is no longer contained |
| NaturalOrderSets.NaturalOrderSet.PollLast | subprojects/core/src/main/java/org/gradle/execution/plan/NaturalOrderSet.java:61-66 | a null-pointer failure with no change on an empty tree; otherwise the new state is PollLastStep's, the result is last() and it is no longer contained |
| NaturalOrderSets.NaturalOrderSet.Size | subprojects/core/src/main/java/org/gradle/execution/plan/NaturalOrderSet.java:68-71 | the size is never negative and, with synced indexes, counts the contained elements |
| NaturalOrderSets.NaturalOrderSet.IsEmpty | subprojects/core/src/main/java/org/gradle/execution/plan/NaturalOrderSet.java:73-76 | asks the tree; with synced indexes it is empty exactly when nothing is contained |
| NaturalOrderSets.NaturalOrderSet.Contains | subprojects/core/src/main/java/org/gradle/execution/plan/NaturalOrderSet.java:78-81 | asks the observer; with synced indexes it agrees with iteration |
| NaturalOrderSets.NaturalOrderSet.Iterator | subprojects/core/src/main/java/org/gradle/execution/plan/NaturalOrderSet.java:83-98 | the tree's elements in ascending stamp order; with synced indexes exactly the contained elements |
| NaturalOrderSets.NaturalOrderSet.DescendingIterator | subprojects/core/src/main/java/org/gradle/execution/plan/NaturalOrderSet.java:166-180 | the iteration order reversed |
| NaturalOrderSets.NaturalOrderSet.ToArray | subprojects/core/src/main/java/org/gradle/execution/plan/NaturalOrderSet.java:100-103 | the elements in iteration order |
| NaturalOrderSets.NaturalOrderSet.SubSet | subprojects/core/src/main/java/org/gradle/execution/plan/NaturalOrderSet.java:182-185 | null-pointer failure when either end is absent, illegal-argument failure when from's stamp exceeds to's, otherwise exactly the elements whose stamps lie between the ends |
| NaturalOrderSets.NaturalOrderSet.HeadSet | subprojects/core/src/main/java/org/gradle/execution/plan/NaturalOrderSet.java:187-190 | null-pointer failure when to is absent, otherwise exactly the elements whose stamps lie below to's |
| NaturalOrderSets.NaturalOrderSet.TailSet | subprojects/core/src/main/java/org/gradle/execution/plan/NaturalOrderSet.java:192-195 | null-pointer failure when from is absent, otherwise exactly the elements whose stamps lie above from's |
| NaturalOrderSets.NaturalOrderSet.SortedSubSet | subprojects/core/src/main/java/org/gradle/execution/plan/NaturalOrderSet.java:207-210 | subSet with from inclusive and to exclusive |
| NaturalOrderSets.NaturalOrderSet.SortedHeadSet | subprojects/core/src/main/java/org/gradle/execution/plan/NaturalOrderSet.java:212-215 | headSet with to exclusive |
| NaturalOrderSets.NaturalOrderSet.SortedTailSet | subprojects/core/src/main/java/org/gradle/execution/plan/NaturalOrderSet.java:217-220 | tailSet with from inclusive |
| NaturalOrderSets.NaturalOrderSet.CompareElements | subprojects/core/src/main/java/org/gradle/execution/plan/NaturalOrderSet.java:197-205 | null-pointer failure when either element is absent; otherwise the sign is the order of the observer's stamps |
| NaturalOrderSets.NaturalOrderSet.Add | subprojects/core/src/main/java/org/gradle/execution/plan/NaturalOrderSet.java:110-118 | the new state and the answer are AddStep's; a present element changes nothing; the element is contained afterwards; the indexes stay well formed |
| NaturalOrderSets.NaturalOrderSet.Remove | subprojects/core/src/main/java/org/gradle/execution/plan/NaturalOrderSet.java:120-129 | the new state and the answer are RemoveStep's; true exactly when the element was contained; an absent element changes nothing |
| NaturalOrderSets.NaturalOrderSet.AddAll | subprojects/core/src/main/java/org/gradle/execution/plan/NaturalOrderSet.java:138-143 | the new state is AddAllStep's, add on each element in order; the answer is always true |
| NaturalOrderSets.NaturalOrderSet.ContainsAll | subprojects/core/src/main/java/org/gradle/execution/plan/NaturalOrderSet.java:131-136 | the answer is always true |
| NaturalOrderSets.NaturalOrderSet.Clear | subprojects/core/src/main/java/org/gradle/execution/plan/NaturalOrderSet.java:155-159 | both indexes become empty |
| NaturalOrderSets.NaturalOrderSet.RetainAll | subprojects/core/src/main/java/org/gradle/execution/plan/NaturalOrderSet.java:145-148 | always fails with "NaturalOrderSet retainAll" |
| NaturalOrderSets.NaturalOrderSet.RemoveAll | subprojects/core/src/main/java/org/gradle/execution/plan/NaturalOrderSet.java:150-153 | always fails with "NaturalOrderSet removeAll" |
| NaturalOrderSets.NaturalOrderSet.ToTypedArray | subprojects/core/src/main/java/org/gradle/execution/plan/NaturalOrderSet.java:105-108 | always fails with "NaturalOrderSet toArray!!" |
| NestedBeanNodes.Invoke | subprojects/core/src/main/java/org/gradle/api/internal/tasks/properties/bean/AbstractNestedRuntimeBeanNode.java:72-80 | a returned value passes through; the getter's own exception is unwrapped and rethrown; any other failure is wrapped with the getter's name and the bean |
| NestedBeanNodes.MemoizedReuses | subprojects/core/src/main/java/org/gradle/api/internal/tasks/properties/bean/AbstractNestedRuntimeBeanNode.java:68-82 | a cached value answers get() whatever the getter would do |
| NestedBeanNodes.MemoizedCachesSuccessOnly | subprojects/core/src/main/java/org/gradle/api/internal/tasks/properties/bean/AbstractNestedRuntimeBeanNode.java:68-82 | from an empty cache the value is cached exactly when the getter returns (null included), and a failure leaves the cache empty |
| NestedBeanNodes.OnceCachedAlwaysCached | subprojects/core/src/main/java/org/gradle/api/internal/tasks/properties/bean/AbstractNestedRuntimeBeanNode.java:68-82 | once a value is cached, any number of further calls return it, keep it and never invoke the getter |
| NestedBeanNodes.MemoRunReturnsOneValue | subprojects/core/src/main/java/org/gradle/api/internal/tasks/properties/bean/AbstractNestedRuntimeBeanNode.java:68-82 | in any run every successful call returns the finally cached value; nothing is cached exactly when no invocation returned, and then every call invoked the getter |
| NestedBeanNodes.NoInvocationAfterSuccess | subprojects/core/src/main/java/org/gradle/api/internal/tasks/properties/bean/AbstractNestedRuntimeBeanNode.java:68-82 | after the call whose invocation returned, no later call invokes the getter and every later call returns that same value |
| NestedBeanNodes.DependencyKindOf | subprojects/core/src/main/java/org/gradle/api/internal/tasks/properties/bean/AbstractNestedRuntimeBeanNode.java:91-104 | Provider takes priority over Buildable; any other return type reports no dependencies |
| NestedBeanNodes.Added | subprojects/core/src/main/java/org/gradle/api/internal/tasks/properties/bean/AbstractNestedRuntimeBeanNode.java:96-101 | the lazy container adds the value to the context exactly when it is not null |
| NestedBeanNodes.BeanPropertyValue.constructor | subprojects/core/src/main/java/org/gradle/api/internal/tasks/properties/bean/AbstractNestedRuntimeBeanNode.java:84-88 | a new value holds its bean and getter, has nothing cached and has invoked nothing |
| NestedBeanNodes.BeanPropertyValue.Call | subprojects/core/src/main/java/org/gradle/api/internal/tasks/properties/bean/AbstractNestedRuntimeBeanNode.java:126-130 | one memoized get(): cache and result are Memoized's, and the getter is invoked exactly when nothing was cached |
| NestedBeanNodes.BeanPropertyValue.GetTaskDependencies | subprojects/core/src/main/java/org/gradle/api/internal/tasks/properties/bean/AbstractNestedRuntimeBeanNode.java:90-104 | a Provider getter is realised through the cache and its value is the container; a Buildable one yields the lazy container and an other one the empty container, both without realising |
| NestedBeanNodes.BeanPropertyValue.VisitLazyContainer | subprojects/core/src/main/java/org/gradle/api/internal/tasks/properties/bean/AbstractNestedRuntimeBeanNode.java:96-101 | visiting the lazy container realises the value through the cache and adds it unless it is null |
| NestedBeanNodes.BeanPropertyValue.MaybeFinalizeValue | subprojects/core/src/main/java/org/gradle/api/internal/tasks/properties/bean/AbstractNestedRuntimeBeanNode.java:106-112 | a non-configurable getter changes nothing; a configurable one is realised through the cache and its value is finalised, a null value being a null dereference |
| NestedBeanNodes.FinalizeTwice | subprojects/core/src/main/java/org/gradle/api/internal/tasks/properties/bean/AbstractNestedRuntimeBeanNode.java:106-112 | finalising twice invokes the getter once when the first invocation returned, and finalises the same value both times |
| NestedBeanNodes.QualifiedName | subprojects/core/src/main/java/org/gradle/api/internal/tasks/properties/bean/AbstractNestedRuntimeBeanNode.java:52 | the node's property name, a dot and the property's name; the property's own name at the root |
| NestedBeanNodes.VisitInOrder | subprojects/core/src/main/java/org/gradle/api/internal/tasks/properties/bean/AbstractNestedRuntimeBeanNode.java:49-62 | properties are handled in order: the calls and enqueued nodes of a later property follow those of an earlier one |
| NestedBeanNodes.SkippedLeavesNoTrace | subprojects/core/src/main/java/org/gradle/api/internal/tasks/properties/bean/AbstractNestedRuntimeBeanNode.java:51 | a property whose handler does not visit gets no handler call and enqueues nothing |
| NestedBeanNodes.OneCallPerVisitedProperty | subprojects/core/src/main/java/org/gradle/api/internal/tasks/properties/bean/AbstractNestedRuntimeBeanNode.java:49-62 | there are exactly as many handler calls as visited properties |
| NestedBeanNodes.EnqueuedComeFromVisitedProperties | subprojects/core/src/main/java/org/gradle/api/internal/tasks/properties/bean/AbstractNestedRuntimeBeanNode.java:59 | every enqueued node is the factory's node for this parent and for a child reported by the handler of a visited property |
| NestedBeanNodes.NodeQueue.Add | subprojects/core/src/main/java/org/gradle/api/internal/tasks/properties/bean/AbstractNestedRuntimeBeanNode.java:59 | the node goes to the tail of the queue |
| NestedBeanNodes.VisitProperties | subprojects/core/src/main/java/org/gradle/api/internal/tasks/properties/bean/AbstractNestedRuntimeBeanNode.java:46-63 | the queue gains exactly the enqueued nodes at its tail; the events are the validation problems first, then the handler calls in property order |

Some members have no row because their contracts state nothing, but they are
still part of the model:

- `ElementWithOrder.GetOrder` and `GetElement` (ElementWithOrder.java:25-27
  and 42-44).
- The three kind predicates `IsProvider`, `IsBuildable` and `IsConfigurable`
  (AbstractNestedRuntimeBeanNode.java:114-124). They read the return-type
  description that replaces the `isAssignableFrom` checks.
- The step functions `AddStep`, `RemoveStep`, `PollFirstStep`, `PollLastStep`,
  `AddAllStep`, `Memoized` and `MemoRun`. The lemmas above state their
  properties.

Where the code and its documented intent disagree, the model follows the code:

- `add` after a removal can answer false for a new element.
- `addAll` and `containsAll` always answer true.
- A getter failure is not memoized. The next call invokes the getter again
  rather than re-raising the same failure.

## Left out

- `descendingSet()` is not modelled. It rewrites the stamps of the live
  entries through `setOrder` and copies the elements into a `TreeSet` ordered
  by the elements' natural order.
- Sub-set results are sets. Their order and the `ClassCastException` that
  `new TreeSet<E>(…)` raises for elements that are not `Comparable` are not
  modelled.
- The Java iterator protocol is left out. `iterator()` and
  `descendingIterator()` are the sequences they produce. `hasNext`/`next`,
  `NoSuchElementException` at the end and concurrent-modification behaviour
  are not modelled.
- Object identity of the `ElementWithOrder` shared by the two indexes is
  modelled by value. None of the modelled operations calls `setOrder`.
  `descendingSet` does, and through the shared object it would change both
  indexes at once; it is left out.
- NaturalOrderSets.SizeOf: saturates at Integer.MAX_VALUE, as the `Collection`
  contract describes. It does not model the wrap-around of the tree's internal
  counter, which needs more than 2^31 entries.
- The set models NullPointerException, NoSuchElementException and
  IllegalArgumentException, and no other exception of the collections it
  uses. Exception messages are not modelled, apart from the
  `RuntimeException` texts of the unsupported operations.
- NestedBeanNodes.BeanPropertyValue.GetTaskDependencies and
  `MaybeFinalizeValue` assume the realised value has Gradle's internal type.
  The ClassCastException of the casts at AbstractNestedRuntimeBeanNode.java:93
  and :110 is not modelled: a Provider getter whose value is not a
  `TaskDependencyContainer` yields its value as the container, and a
  configurable value that is not `HasConfigurableValueInternal` is finalised.
- Reflection is left out: `Method.invoke`, `setAccessible`,
  `DeprecationLogger.whileDisabled` and the exact message of the
  "Could not call" exception. A getter invocation's outcome is a parameter,
  `Invocation`. The `isAssignableFrom` checks are the three flags of
  `ReturnType`.
- Thread safety of the memoizing supplier and concurrent callers are left out.
  The model is single-threaded.
- The annotation handlers, the validation context and the node factory are
  collaborators whose code is not part of this model. They are parameters:
  - a handler is its `shouldVisit` answer and the children its callback
    reports;
  - the factory is a function of parent, name and bean.
- Handlers, the node factory and the queue's `add` are modelled as never
  throwing. In the code an exception from one of them ends `visitProperties`
  with the queue only partly extended, which `VisitProperties`' postcondition
  does not describe.
- The handler's use of the property value it receives is not modelled.
  `visitProperties` records the bean and getter the value wraps.
- RuntimeBeanNode is not part of this model. `getQualifiedPropertyName` is
  modelled as the dot-joined name, the property's own name at the root.
- JavaToolchainRepositoryRegistry is not part of this model.
- `DependencyKind`/`Container` do not model how the external caller resolves a
  Provider used as a `TaskDependencyContainer`.

## Findings

| source | as written | input that shows it | evidently intended | confidence | as-written member | corrected member |
|---|---|---|---|---|---|---|
| subprojects/core/src/main/java/org/gradle/execution/plan/NaturalOrderSet.java:115 | a new element is stamped with the tree's current size | add a, b, c; remove b; add d: d gets stamp 2, which c holds; add answers false and iteration yields a, c | a stamp above every live stamp, so add answers true and iteration yields a, c, d | high, not executed | NaturalOrderSets.RemoveMiddleThenAdd | NaturalOrderSets.AddAfterLastKeepsSynced |
| subprojects/core/src/main/java/org/gradle/execution/plan/NaturalOrderSet.java:131-136 | the memberships are or-ed into an accumulator that starts at true | containsAll([x]) with x absent answers true | true only when every element is contained (and of the accumulator, starting at true) | high, not executed | NaturalOrderSets.NaturalOrderSet.ContainsAll | NaturalOrderSets.ContainsEveryIff |
| subprojects/core/src/main/java/org/gradle/execution/plan/NaturalOrderSet.java:138-143 | the add answers are or-ed into an accumulator that starts at true | addAll([x]) with x already contained answers true although nothing changed | true exactly when some element was added (or of the answers, starting at false) | high, not executed | NaturalOrderSets.NaturalOrderSet.AddAll | NaturalOrderSets.AddAllReportingIff |
| subprojects/core/src/main/java/org/gradle/execution/plan/ElementWithOrder.java:34 | compareTo returns the 32-bit difference of the orders | orders -2147483648 and 1: the difference wraps to 2147483647, so the smaller order compares as greater | the sign of the comparison is the order of the ints (Integer.compare) | low: the set's stamps are never negative, so it cannot happen through NaturalOrderSet; not executed | OrderedEntries.CompareOverflows | OrderedEntries.CompareOrders |
