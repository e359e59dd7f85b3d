/*
 * A model of the nested-bean step of the task property walker: a node visits
 * its declared properties, hands each one, wrapped in a lazily evaluated and
 * memoized property value, to the annotation handler chosen for it, and the
 * handler's callback appends the nested beans it discovers to the walker's
 * work queue instead of recursing into them.
 *
 * Reflection is replaced by data: a getter is a name, the simple name of its
 * declaring type and a description of its return type; what invoking it
 * yields is passed in by the caller as an Invocation.
 */
module NestedBeanNodes {
  import opened Outcomes

  // ---------------------------------------------------------------------
  // Beans, getters and what invoking a getter yields
  // ---------------------------------------------------------------------

  /** A bean, by identity. */
  datatype Bean = Bean(id: nat)

  /** What a getter may return: null or some object. */
  datatype Value = Null | Object(id: nat)

  /** An exception, by identity. */
  datatype Cause = Cause(id: nat)

  /** The assignability checks on a getter's return type: is it a Provider,
      Buildable, HasConfigurableValue. A type may be several at once. */
  datatype ReturnType = ReturnType(provider: bool, buildable: bool, configurable: bool)

  datatype Getter = Getter(declaringType: string, name: string, returnType: ReturnType)

  /** One reflective invocation: the getter returned, the getter itself threw
      (the invocation layer wraps it), or the invocation failed for another
      reason (access, argument, the receiver). */
  datatype Invocation = Returned(value: Value) | TargetThrew(cause: Cause) | CallFailed(cause: Cause)

  /** A failure propagated to the caller of the property value: the getter's
      own exception unwrapped, a "Could not call ..." wrapper, or a null
      dereference. */
  datatype Error =
    | Rethrown(cause: Cause)
    | CouldNotCall(declaringType: string, getterName: string, bean: Bean, cause: Cause)
    | NullPointer

  /** The result of the memoized supplier's delegate: a returned value passes
      through, the getter's own exception is unwrapped and rethrown, any other
      failure is wrapped with the declaring type, the getter and the bean. */
  function Invoke(bean: Bean, getter: Getter, outcome: Invocation): (r: Result<Value, Error>)
    ensures r.Success? <==> outcome.Returned?
    ensures r.Success? ==> r.value == outcome.value
    ensures outcome.TargetThrew? ==> r.error == Rethrown(outcome.cause)
    ensures outcome.CallFailed? ==> r.error.CouldNotCall? && r.error.cause == outcome.cause
    ensures outcome.CallFailed? ==> r.error.bean == bean && r.error.getterName == getter.name
  {
    match outcome
    case Returned(v) => Success(v)
    case TargetThrew(cause) => Failure(Rethrown(cause))
    case CallFailed(cause) => Failure(CouldNotCall(getter.declaringType, getter.name, bean, cause))
  }

  // ---------------------------------------------------------------------
  // The memoized supplier
  // ---------------------------------------------------------------------

  /** One get() on the memoized supplier: a cached value is returned without
      invoking the getter; otherwise the getter is invoked, and only a value it
      returns (null included) is cached. Yields the new cache and the result. */
  function Memoized(cached: Option<Value>, bean: Bean, getter: Getter, outcome: Invocation): (Option<Value>, Result<Value, Error>) {
    if cached.Some? then (cached, Success(cached.value))
    else
      var r := Invoke(bean, getter, outcome);
      (if r.Success? then Some(r.value) else None, r)
  }

  /** A cached value answers every later get(), whatever the getter would do. */
  lemma MemoizedReuses(v: Value, bean: Bean, getter: Getter, outcome: Invocation)
    ensures Memoized(Some(v), bean, getter, outcome) == (Some(v), Success(v))
  {
  }

  /** From an empty cache, get() caches exactly when it succeeds, and caches
      what it returns; a failure leaves the cache empty, so the next get()
      invokes the getter again. */
  lemma MemoizedCachesSuccessOnly(bean: Bean, getter: Getter, outcome: Invocation)
    ensures var (c, r) := Memoized(None, bean, getter, outcome);
      && (c.Some? <==> r.Success?)
      && (r.Success? ==> c == Some(r.value) && r.value == outcome.value)
      && (r.Failure? ==> c == None)
  {
  }

  /** A run of get() calls, each meeting the given invocation outcome should
      it invoke the getter: the final cache and every call's result. */
  function MemoRun(cached: Option<Value>, bean: Bean, getter: Getter, outcomes: seq<Invocation>): (Option<Value>, seq<Result<Value, Error>>) {
    if outcomes == [] then (cached, [])
    else
      var (mid, results) := MemoRun(cached, bean, getter, outcomes[..|outcomes| - 1]);
      var (c, r) := Memoized(mid, bean, getter, outcomes[|outcomes| - 1]);
      (c, results + [r])
  }

  /** How many of the calls in a run invoke the getter. */
  function Invocations(cached: Option<Value>, bean: Bean, getter: Getter, outcomes: seq<Invocation>): nat {
    if outcomes == [] then 0
    else
      var init := outcomes[..|outcomes| - 1];
      Invocations(cached, bean, getter, init) + if MemoRun(cached, bean, getter, init).0.None? then 1 else 0
  }

  lemma {:induction false} MemoRunLength(cached: Option<Value>, bean: Bean, getter: Getter, outcomes: seq<Invocation>)
    ensures |MemoRun(cached, bean, getter, outcomes).1| == |outcomes|
  {
    if outcomes != [] {
      MemoRunLength(cached, bean, getter, outcomes[..|outcomes| - 1]);
    }
  }

  /** Once a value is cached, every later call returns it, the cache keeps it
      and the getter is not invoked again. */
  lemma {:induction false} OnceCachedAlwaysCached(v: Value, bean: Bean, getter: Getter, outcomes: seq<Invocation>)
    ensures MemoRun(Some(v), bean, getter, outcomes).0 == Some(v)
    ensures forall r :: r in MemoRun(Some(v), bean, getter, outcomes).1 ==> r == Success(v)
    ensures Invocations(Some(v), bean, getter, outcomes) == 0
  {
    if outcomes != [] {
      OnceCachedAlwaysCached(v, bean, getter, outcomes[..|outcomes| - 1]);
    }
  }

  /** From an empty cache, a run agrees with its first successful call: every
      successful call returns the same value, which is then cached, and the
      getter is invoked once per call up to and including that first success
      and never after it. */
  lemma {:induction false} MemoRunReturnsOneValue(bean: Bean, getter: Getter, outcomes: seq<Invocation>)
    ensures var (c, results) := MemoRun(None, bean, getter, outcomes);
      && (forall r :: r in results && r.Success? ==> c == Some(r.value))
      && (c.None? ==> Invocations(None, bean, getter, outcomes) == |outcomes|)
      && (c.None? <==> forall o :: o in outcomes ==> !o.Returned?)
  {
    if outcomes != [] {
      var init := outcomes[..|outcomes| - 1];
      var last := outcomes[|outcomes| - 1];
      MemoRunReturnsOneValue(bean, getter, init);
      var mid := MemoRun(None, bean, getter, init).0;
      if mid.Some? {
        OnceCachedAlwaysCached(mid.value, bean, getter, [last]);
        assert [last][..0] == [];
      }
      assert outcomes == init + [last];
      assert forall o :: o in outcomes <==> o in init || o == last;
    }
  }

  /** A run is its first part followed by the rest, started from the cache
      the first part leaves. */
  lemma {:induction false} MemoRunAppend(cached: Option<Value>, bean: Bean, getter: Getter, s: seq<Invocation>, t: seq<Invocation>)
    ensures MemoRun(cached, bean, getter, s + t).0 == MemoRun(MemoRun(cached, bean, getter, s).0, bean, getter, t).0
    ensures MemoRun(cached, bean, getter, s + t).1 == MemoRun(cached, bean, getter, s).1 + MemoRun(MemoRun(cached, bean, getter, s).0, bean, getter, t).1
  {
    if t == [] {
      assert s + t == s;
    } else {
      var init := t[..|t| - 1];
      MemoRunAppend(cached, bean, getter, s, init);
      assert (s + t)[..|s + t| - 1] == s + init;
      assert (s + t)[|s + t| - 1] == t[|t| - 1];
    }
  }

  /** Call i of a run from an empty cache invokes the getter. */
  ghost predicate InvokesAt(bean: Bean, getter: Getter, outcomes: seq<Invocation>, i: nat)
    requires i < |outcomes|
  {
    MemoRun(None, bean, getter, outcomes[..i]).0.None?
  }

  /** Exactly-once realization: once a call has invoked the getter and got a
      value, no later call invokes it, and every later call returns that
      value. */
  lemma NoInvocationAfterSuccess(bean: Bean, getter: Getter, outcomes: seq<Invocation>, i: nat, j: nat)
    requires i < j < |outcomes|
    requires InvokesAt(bean, getter, outcomes, i) && outcomes[i].Returned?
    ensures !InvokesAt(bean, getter, outcomes, j)
    ensures |MemoRun(None, bean, getter, outcomes).1| == |outcomes|
    ensures MemoRun(None, bean, getter, outcomes).1[j] == Success(outcomes[i].value)
  {
    var v := outcomes[i].value;
    var s := outcomes[..i + 1];
    assert s[..|s| - 1] == outcomes[..i];
    assert MemoRun(None, bean, getter, s).0 == Some(v);
    var t := outcomes[i + 1..j];
    assert outcomes[..j] == s + t;
    MemoRunAppend(None, bean, getter, s, t);
    OnceCachedAlwaysCached(v, bean, getter, t);
    var rest := outcomes[i + 1..];
    assert outcomes == s + rest;
    MemoRunAppend(None, bean, getter, s, rest);
    OnceCachedAlwaysCached(v, bean, getter, rest);
    MemoRunLength(None, bean, getter, s);
    MemoRunLength(Some(v), bean, getter, rest);
    MemoRunLength(None, bean, getter, outcomes);
    assert MemoRun(Some(v), bean, getter, rest).1[j - (i + 1)] in MemoRun(Some(v), bean, getter, rest).1;
  }

  // ---------------------------------------------------------------------
  // What a property value reports
  // ---------------------------------------------------------------------

  /** getTaskDependencies() dispatches on the return type, Provider first. */
  datatype DependencyKind = FromProvider | FromBuildable | NoDependencies

  function DependencyKindOf(t: ReturnType): (k: DependencyKind)
    ensures k == FromProvider <==> t.provider
    ensures k == FromBuildable <==> !t.provider && t.buildable
    ensures k == NoDependencies <==> !t.provider && !t.buildable
  {
    if t.provider then FromProvider
    else if t.buildable then FromBuildable
    else NoDependencies
  }

  /** A task dependency container: the realized Provider value itself (null
      when the getter returned null), a container that realizes the value
      when it is visited, or the empty container. */
  datatype Container = ValueContainer(value: Value) | LazyContainer | EmptyContainer

  /** What visiting the lazy container adds to the context: the value, unless
      it is null. */
  function Added(v: Value): (added: seq<Value>)
    ensures |added| <= 1
    ensures added == [] <==> v.Null?
    ensures forall x :: x in added ==> x == v
  {
    if v.Null? then [] else [v]
  }

  /** The property value handed to the annotation handler: a bean, one of its
      getters, the memoized supplier's cache, how many times the getter was
      invoked and the values on which implicitFinalizeValue() was called. */
  class BeanPropertyValue {
    const bean: Bean
    const getter: Getter
    var cached: Option<Value>
    var invocations: nat
    var finalized: seq<Value>

    constructor (bean: Bean, getter: Getter)
      ensures this.bean == bean && this.getter == getter
      ensures cached == None && invocations == 0 && finalized == []
    {
      this.bean := bean;
      this.getter := getter;
      cached := None;
      invocations := 0;
      finalized := [];
    }

    predicate IsProvider() {
      getter.returnType.provider
    }

    predicate IsBuildable() {
      getter.returnType.buildable
    }

    predicate IsConfigurable() {
      getter.returnType.configurable
    }

    /** call(): one get() on the memoized supplier. */
    method Call(outcome: Invocation) returns (r: Result<Value, Error>)
      modifies this
      ensures (cached, r) == Memoized(old(cached), bean, getter, outcome)
      ensures invocations == old(invocations) + if old(cached).None? then 1 else 0
      ensures finalized == old(finalized)
    {
      if cached.Some? {
        return Success(cached.value);
      }
      invocations := invocations + 1;
      r := Invoke(bean, getter, outcome);
      if r.Success? {
        cached := Some(r.value);
      }
    }

    /** getTaskDependencies(): a Provider getter is realized and its value is
        the container; a Buildable one yields a container that realizes it
        later; anything else yields the empty container without realizing. */
    method GetTaskDependencies(outcome: Invocation) returns (r: Result<Container, Error>)
      modifies this
      ensures finalized == old(finalized)
      ensures DependencyKindOf(getter.returnType) == FromProvider ==>
        var (c, v) := Memoized(old(cached), bean, getter, outcome);
        && cached == c
        && invocations == old(invocations) + (if old(cached).None? then 1 else 0)
        && r == if v.Success? then Success(ValueContainer(v.value)) else Failure(v.error)
      ensures DependencyKindOf(getter.returnType) == FromBuildable ==>
        r == Success(LazyContainer) && cached == old(cached) && invocations == old(invocations)
      ensures DependencyKindOf(getter.returnType) == NoDependencies ==>
        r == Success(EmptyContainer) && cached == old(cached) && invocations == old(invocations)
    {
      if IsProvider() {
        var v := Call(outcome);
        if v.Failure? {
          return Failure(v.error);
        }
        return Success(ValueContainer(v.value));
      }
      if IsBuildable() {
        return Success(LazyContainer);
      }
      return Success(EmptyContainer);
    }

    /** Visiting the lazy container: the value is realized and added to the
        context unless it is null. */
    method VisitLazyContainer(outcome: Invocation) returns (r: Result<seq<Value>, Error>)
      modifies this
      ensures var (c, v) := Memoized(old(cached), bean, getter, outcome);
        && cached == c
        && invocations == old(invocations) + (if old(cached).None? then 1 else 0)
        && r == if v.Success? then Success(Added(v.value)) else Failure(v.error)
      ensures finalized == old(finalized)
    {
      var v := Call(outcome);
      if v.Failure? {
        return Failure(v.error);
      }
      r := Success(Added(v.value));
    }

    /** maybeFinalizeValue(): a configurable getter is realized and the value
        receives implicitFinalizeValue(); a null value is a null dereference.
        Any other getter is left alone. */
    method MaybeFinalizeValue(outcome: Invocation) returns (r: Outcome<Error>)
      modifies this
      ensures !IsConfigurable() ==>
        r == Pass && cached == old(cached) && invocations == old(invocations) && finalized == old(finalized)
      ensures IsConfigurable() ==>
        var (c, v) := Memoized(old(cached), bean, getter, outcome);
        && cached == c
        && invocations == old(invocations) + (if old(cached).None? then 1 else 0)
        && (v.Failure? ==> r == Fail(v.error) && finalized == old(finalized))
        && (v == Success(Null) ==> r == Fail(NullPointer) && finalized == old(finalized))
        && (v.Success? && v.value.Object? ==> r == Pass && finalized == old(finalized) + [v.value])
    {
      if !IsConfigurable() {
        return Pass;
      }
      var v := Call(outcome);
      if v.Failure? {
        return Fail(v.error);
      }
      if v.value.Null? {
        return Fail(NullPointer);
      }
      finalized := finalized + [v.value];
      r := Pass;
    }
  }

  /** Finalizing twice realizes the value at most once: after a first call
      that got a value, the second call does not invoke the getter and
      finalizes the same value again. */
  method FinalizeTwice(p: BeanPropertyValue, first: Invocation, second: Invocation)
      returns (r1: Outcome<Error>, r2: Outcome<Error>)
    requires p.cached == None && p.invocations == 0 && p.IsConfigurable()
    modifies p
    ensures p.invocations <= 2
    ensures first.Returned? ==> p.invocations == 1
    ensures first.Returned? && first.value.Object? ==>
      r1 == Pass && r2 == Pass && p.finalized == old(p.finalized) + [first.value, first.value]
  {
    r1 := p.MaybeFinalizeValue(first);
    r2 := p.MaybeFinalizeValue(second);
  }

  // ---------------------------------------------------------------------
  // Visiting the properties of a node
  // ---------------------------------------------------------------------

  datatype PropertyMetadata = PropertyMetadata(propertyName: string, getter: Getter)

  /** A nested bean the handler reports through the child callback, under the
      property name it chooses. */
  datatype ChildRequest = ChildRequest(propertyName: string, bean: Bean)

  /** The visitor, by identity; handlers decide from it whether to visit. */
  datatype Visitor = Visitor(id: nat)

  /** An annotation handler: whether it visits for a given visitor, and the
      nested beans its visitPropertyValue reports for the visitor, a qualified
      property name, the property and the bean. */
  datatype Handler = Handler(
    shouldVisit: Visitor -> bool,
    childRequests: (Visitor, string, PropertyMetadata, Bean) -> seq<ChildRequest>)

  /** The type metadata of a bean: its validation problems, its properties in
      declaration order and the handler chosen for each property. */
  datatype TypeMetadata = TypeMetadata(
    validationFailures: seq<string>,
    properties: seq<PropertyMetadata>,
    handlerFor: PropertyMetadata -> Handler)

  /** A node of the walk: the node that discovered it, the property name it
      was found under (none for the root), the bean and its metadata. */
  datatype BeanNode = BeanNode(
    parent: Option<BeanNode>,
    propertyName: Option<string>,
    bean: Bean,
    metadata: TypeMetadata)

  /** What visitProperties tells the outside world, in order: each validation
      problem, reported under this node's property name, then one handler call
      per visited property with its qualified name and a fresh property value
      for the node's bean and the property's getter. */
  datatype Event =
    | ProblemReported(path: Option<string>, problem: string)
    | HandlerCalled(qualifiedName: string, bean: Bean, getter: Getter)

  /** A property name qualified by the node's own: dot-joined, or unchanged at
      the root. */
  function QualifiedName(prefix: Option<string>, name: string): (q: string)
    ensures prefix.None? ==> q == name
    ensures prefix.Some? ==>
      && |q| == |prefix.value| + 1 + |name|
      && q[..|prefix.value|] == prefix.value
      && q[|prefix.value|] == '.'
      && q[|prefix.value| + 1..] == name
  {
    if prefix.None? then name else prefix.value + "." + name
  }

  function ValidationReports(node: BeanNode): seq<Event> {
    var failures := node.metadata.validationFailures;
    seq(|failures|, i requires 0 <= i < |failures| => ProblemReported(node.propertyName, failures[i]))
  }

  function Visits(node: BeanNode, visitor: Visitor, p: PropertyMetadata): bool {
    node.metadata.handlerFor(p).shouldVisit(visitor)
  }

  function RequestsOf(node: BeanNode, visitor: Visitor, p: PropertyMetadata): seq<ChildRequest> {
    node.metadata.handlerFor(p).childRequests(visitor, QualifiedName(node.propertyName, p.propertyName), p, node.bean)
  }

  /** The nodes the node factory creates for the requests, with this node as
      the parent argument, in request order. */
  function ChildNodes(node: BeanNode, factory: (BeanNode, string, Bean) -> BeanNode, requests: seq<ChildRequest>): seq<BeanNode> {
    seq(|requests|, i requires 0 <= i < |requests| => factory(node, requests[i].propertyName, requests[i].bean))
  }

  /** The handler calls made for the given properties, in their order. */
  function HandlerCalls(node: BeanNode, visitor: Visitor, props: seq<PropertyMetadata>): seq<Event> {
    if props == [] then []
    else
      var p := props[|props| - 1];
      HandlerCalls(node, visitor, props[..|props| - 1])
        + if Visits(node, visitor, p) then [HandlerCalled(QualifiedName(node.propertyName, p.propertyName), node.bean, p.getter)] else []
  }

  /** The nodes enqueued for the given properties, in their order. */
  function Enqueued(node: BeanNode, visitor: Visitor, props: seq<PropertyMetadata>, factory: (BeanNode, string, Bean) -> BeanNode): seq<BeanNode> {
    if props == [] then []
    else
      var p := props[|props| - 1];
      Enqueued(node, visitor, props[..|props| - 1], factory)
        + if Visits(node, visitor, p) then ChildNodes(node, factory, RequestsOf(node, visitor, p)) else []
  }

  /** Visiting a list of properties is visiting its two halves in turn: the
      handler calls and the enqueued nodes of the second half follow those of
      the first. */
  lemma {:induction false} VisitInOrder(node: BeanNode, visitor: Visitor, p1: seq<PropertyMetadata>, p2: seq<PropertyMetadata>, factory: (BeanNode, string, Bean) -> BeanNode)
    ensures HandlerCalls(node, visitor, p1 + p2) == HandlerCalls(node, visitor, p1) + HandlerCalls(node, visitor, p2)
    ensures Enqueued(node, visitor, p1 + p2, factory) == Enqueued(node, visitor, p1, factory) + Enqueued(node, visitor, p2, factory)
  {
    if p2 == [] {
      assert p1 + p2 == p1;
    } else {
      var init := p2[..|p2| - 1];
      VisitInOrder(node, visitor, p1, init, factory);
      assert (p1 + p2)[..|p1 + p2| - 1] == p1 + init;
      assert (p1 + p2)[|p1 + p2| - 1] == p2[|p2| - 1];
    }
  }

  /** A property its handler does not visit for this visitor leaves no trace:
      no handler call and no enqueued node. */
  lemma SkippedLeavesNoTrace(node: BeanNode, visitor: Visitor, p: PropertyMetadata, factory: (BeanNode, string, Bean) -> BeanNode)
    requires !Visits(node, visitor, p)
    ensures HandlerCalls(node, visitor, [p]) == []
    ensures Enqueued(node, visitor, [p], factory) == []
  {
    assert [p][..0] == [];
  }

  /** Exactly one handler call per visited property, and none otherwise. */
  lemma {:induction false} OneCallPerVisitedProperty(node: BeanNode, visitor: Visitor, props: seq<PropertyMetadata>)
    ensures |HandlerCalls(node, visitor, props)| == |set i | 0 <= i < |props| && Visits(node, visitor, props[i])|
  {
    if props != [] {
      var n := |props| - 1;
      OneCallPerVisitedProperty(node, visitor, props[..n]);
      var before := set i | 0 <= i < n && Visits(node, visitor, props[..n][i]);
      var now := set i | 0 <= i < |props| && Visits(node, visitor, props[i]);
      assert before == set i | 0 <= i < n && Visits(node, visitor, props[i]);
      if Visits(node, visitor, props[n]) {
        assert now == before + {n};
      } else {
        assert now == before;
      }
    }
  }

  /** Every enqueued node was created by the factory, with this node as the
      parent argument, for a request the handler of a visited property made. */
  lemma {:induction false} EnqueuedComeFromVisitedProperties(node: BeanNode, visitor: Visitor, props: seq<PropertyMetadata>, factory: (BeanNode, string, Bean) -> BeanNode, k: nat)
    requires k < |Enqueued(node, visitor, props, factory)|
    ensures exists i, j ::
      && 0 <= i < |props| && Visits(node, visitor, props[i])
      && 0 <= j < |RequestsOf(node, visitor, props[i])|
      && Enqueued(node, visitor, props, factory)[k] == factory(node, RequestsOf(node, visitor, props[i])[j].propertyName, RequestsOf(node, visitor, props[i])[j].bean)
  {
    var n := |props| - 1;
    var front := Enqueued(node, visitor, props[..n], factory);
    if k < |front| {
      EnqueuedComeFromVisitedProperties(node, visitor, props[..n], factory, k);
      var i, j :| 0 <= i < n && Visits(node, visitor, props[..n][i])
        && 0 <= j < |RequestsOf(node, visitor, props[..n][i])|
        && front[k] == factory(node, RequestsOf(node, visitor, props[..n][i])[j].propertyName, RequestsOf(node, visitor, props[..n][i])[j].bean);
      assert props[..n][i] == props[i];
    } else {
      var j := k - |front|;
      assert Visits(node, visitor, props[n]);
      assert Enqueued(node, visitor, props, factory)[k] == ChildNodes(node, factory, RequestsOf(node, visitor, props[n]))[j];
    }
  }

  /** The walker's work queue, a FIFO the caller owns. */
  class NodeQueue {
    var items: seq<BeanNode>

    constructor (items: seq<BeanNode>)
      ensures this.items == items
    {
      this.items := items;
    }

    method Add(n: BeanNode)
      modifies this
      ensures items == old(items) + [n]
    {
      items := items + [n];
    }
  }

  /** visitProperties: the validation problems first, then the properties in
      order; a property whose handler visits gets one handler call, and each
      child the handler reports is created by the factory and appended to the
      tail of the queue. Nothing is recursed into. */
  method VisitProperties(node: BeanNode, visitor: Visitor, queue: NodeQueue, factory: (BeanNode, string, Bean) -> BeanNode)
      returns (events: seq<Event>)
    modifies queue
    ensures queue.items == old(queue.items) + Enqueued(node, visitor, node.metadata.properties, factory)
    ensures events == ValidationReports(node) + HandlerCalls(node, visitor, node.metadata.properties)
  {
    var props := node.metadata.properties;
    events := ValidationReports(node);
    for i := 0 to |props|
      invariant queue.items == old(queue.items) + Enqueued(node, visitor, props[..i], factory)
      invariant events == ValidationReports(node) + HandlerCalls(node, visitor, props[..i])
    {
      var p := props[i];
      assert props[..i + 1][..i] == props[..i];
      if node.metadata.handlerFor(p).shouldVisit(visitor) {
        var name := QualifiedName(node.propertyName, p.propertyName);
        events := events + [HandlerCalled(name, node.bean, p.getter)];
        var requests := node.metadata.handlerFor(p).childRequests(visitor, name, p, node.bean);
        ghost var before := queue.items;
        for j := 0 to |requests|
          invariant queue.items == before + ChildNodes(node, factory, requests[..j])
        {
          queue.Add(factory(node, requests[j].propertyName, requests[j].bean));
        }
        assert requests[..|requests|] == requests;
      }
    }
    assert props[..|props|] == props;
  }
}
