/**
 * The fault-handling rules of AppLogic/Helpers/TaskExtensions.cs.
 *
 * A task is reduced to its final state.  Awaiting it and reading its
 * `Exception` property follow the .NET rules: awaiting a canceled task
 * rethrows the cancellation exception it was canceled with, or throws a fresh
 * TaskCanceledException when it was canceled without one (`Task.FromCanceled`,
 * `TrySetCanceled()`, a token canceled before the task started); awaiting a
 * faulted task throws its first inner exception, and `Exception` is a fresh
 * aggregate of all inner exceptions.
 * The fire-and-forget helpers (`Observe`, `IgnoreCancellations`, `Handle`)
 * become functions returning what they hand to the logger or handler and
 * what they rethrow to the synchronization context.
 */
module TaskExtensions {
  import opened Wrappers
  import opened Faults

  /** A task's final state; a canceled task may hold the cancellation exception that canceled it. */
  datatype Task = RanToCompletion | Canceled(oce: Option<Exc>) | Faulted(inners: seq<Exc>)

  /** A faulted task always carries at least one exception; a canceled one holds only a cancellation. */
  predicate ValidTask(t: Task) {
    (t.Faulted? ==> |t.inners| >= 1) &&
    (t.Canceled? && t.oce.Some? ==> IsCancellation(t.oce.value))
  }

  const CanceledMessage := "A task was canceled."
  const AggregateMessage := "One or more errors occurred."

  /** The exception `await` throws, if any: a cancellation for a canceled task, one of its exceptions for a faulted one. */
  function Await(t: Task): (r: Option<Exc>)
    requires ValidTask(t)
    ensures r.None? <==> t.RanToCompletion?
    ensures t.Canceled? ==> IsCancellation(r.value)
    ensures t.Canceled? && t.oce.Some? ==> r == t.oce
    ensures t.Faulted? ==> r.value in t.inners
  {
    match t
    case RanToCompletion => None
    case Canceled(None) => Some(Leaf(TaskCanceled, CanceledMessage))
    case Canceled(Some(e)) => Some(e)
    case Faulted(inners) => Some(inners[0])
  }

  /** `Task.Exception`: null unless faulted; an aggregate whose AsEnumerable is that of the task's exceptions. */
  function TaskException(t: Task): (r: Option<Exc>)
    ensures r.Some? <==> t.Faulted?
    ensures r.Some? ==> r.value.Aggregate? && r.value.inners == t.inners
    ensures r.Some? && t.inners != [] ==> AsEnumerable(r) == FlatAll(t.inners)
  {
    if !t.Faulted? then None
    else if t.inners == [] then Some(Aggregate(AggregateMessage, []))
    else
      FlatOfNonEmptyAggregate(AggregateMessage, t.inners);
      Some(Aggregate(AggregateMessage, t.inners))
  }

  /**
   * How an `async Task` method ends when its body throws `thrown` (or returns):
   * a cancellation cancels it and is kept, anything else faults it; either
   * way, awaiting the task throws exactly what the body threw.
   */
  function AsyncOutcome(thrown: Option<Exc>): (t: Task)
    ensures ValidTask(t)
    ensures t.RanToCompletion? <==> thrown.None?
    ensures t.Canceled? <==> thrown.Some? && IsCancellation(thrown.value)
    ensures Await(t) == thrown
  {
    match thrown
    case None => RanToCompletion
    case Some(e) => if IsCancellation(e) then Canceled(Some(e)) else Faulted([e])
  }

  /** What a task reports as its faults: AsEnumerable of its exception, or the cancellation `await` throws. */
  function Reported(t: Task): seq<Exc>
    requires ValidTask(t)
  {
    match t
    case RanToCompletion => []
    case Canceled(_) => [Await(t).value]
    case Faulted(_) => AsEnumerable(TaskException(t))
  }

  // ---------------------------------------------------------------------------
  // WithAggregatedExceptions
  // ---------------------------------------------------------------------------

  /** The condition under which WithAggregatedExceptions replaces the outcome. */
  predicate NeedsFlatten(t: Task)
    requires ValidTask(t)
  {
    t.Faulted? && (|t.inners| > 1 || t.inners[0].Aggregate?)
  }

  lemma {:induction false} LeavesAllOfLeaves(cs: seq<Exc>)
    requires forall x :: x in cs ==> x.Leaf?
    ensures LeavesAll(cs) == cs
  {
    if cs != [] {
      LeavesAllOfLeaves(cs[1..]);
    }
  }

  /**
   * WithAggregatedExceptions: the continuation keeps the task's state and every
   * non-aggregate exception it holds; when it replaces the outcome, awaiting
   * the result throws one aggregate whose inner exceptions are all leaves.
   */
  function WithAggregatedExceptions(t: Task): (r: Task)
    requires ValidTask(t)
    ensures ValidTask(r)
    ensures r.Faulted? <==> t.Faulted?
    ensures r.Canceled? <==> t.Canceled?
    ensures !t.Faulted? ==> r == t
    ensures r.Faulted? ==> multiset(LeavesAll(r.inners)) == multiset(LeavesAll(t.inners))
    ensures r != t ==> |r.inners| == 1 && r.inners[0].Aggregate? &&
                       forall x :: x in r.inners[0].inners ==> x.Leaf?
  {
    if NeedsFlatten(t) then
      var flat := Flatten(AggregateMessage, t.inners);
      FlattenKeepsLeaves(AggregateMessage, t.inners);
      LeavesAllOfLeaves(flat.inners);
      assert LeavesAll([flat]) == Leaves(flat) + LeavesAll([]);
      Faulted([flat])
    else t
  }

  /** Only a faulted task with several inner exceptions or a nested aggregate is rewritten. */
  lemma WithAggregatedExceptionsPassesThrough(t: Task)
    requires ValidTask(t) && !NeedsFlatten(t)
    ensures WithAggregatedExceptions(t) == t
    ensures t.Faulted? ==> Await(WithAggregatedExceptions(t)) == Some(t.inners[0]) && !t.inners[0].Aggregate?
  {
  }

  /** Two faults are flattened into one aggregate holding both, in order. */
  lemma AggregatedTwoLeaves(x: Exc, y: Exc)
    requires x.Leaf? && y.Leaf?
    ensures Await(WithAggregatedExceptions(Faulted([x, y]))) == Some(Aggregate(AggregateMessage, [x, y]))
  {
    var cs := [x, y];
    assert cs[1..][1..] == [];
    assert DirectLeaves(cs[1..]) == [y] + DirectLeaves([]);
    assert DirectAggregateInners(cs[1..]) == [] + DirectAggregateInners([]);
    assert DirectAggregateInners(cs) == [] && DirectLeaves(cs) == cs;
    assert FlattenQueue([cs]) == DirectLeaves(cs) + FlattenQueue([]);
    var t := Faulted(cs);
    assert NeedsFlatten(t);
    assert FlattenQueue([]) == [];
    assert Flatten(AggregateMessage, cs) == Aggregate(AggregateMessage, cs);
    assert WithAggregatedExceptions(t) == Faulted([Flatten(AggregateMessage, cs)]);
  }

  // ---------------------------------------------------------------------------
  // PickException and the fire-and-forget helpers
  // ---------------------------------------------------------------------------

  /** PickException: the whole aggregate when the task holds several exceptions, otherwise the unwrapped caught exception. */
  function PickException(t: Task, caught: Exc): (r: Exc)
    ensures !IsSingleAggregate(r)
    ensures t.Faulted? && |t.inners| > 1 ==> r.Aggregate? && r.inners == t.inners
  {
    if t.Faulted? && |t.inners| > 1 then TaskException(t).value else Unwrapped(caught)
  }

  /** The picked exception loses none of the faults the task reports. */
  lemma PickKeepsFaults(t: Task)
    requires ValidTask(t) && Await(t).Some?
    ensures Flat(PickException(t, Await(t).value)) == Reported(t)
  {
    var caught := Await(t).value;
    FlatOfUnwrapped(caught);
    if t.Faulted? && |t.inners| == 1 {
      FlatOfNonEmptyAggregate(AggregateMessage, t.inners);
      assert FlatAll(t.inners) == Flat(caught) + FlatAll([]);
    }
  }

  /** What a helper hands to its logger or handler, and what it rethrows. */
  datatype Outcome = Outcome(handed: Option<Exc>, rethrown: Option<Exc>)

  /** The exception handed to the logger: the picked one, when there is a logger and the await threw. */
  function Logged(t: Task, hasLogger: bool): (r: Option<Exc>)
    requires ValidTask(t)
    ensures r.Some? <==> hasLogger && Await(t).Some?
    ensures r.Some? ==> Flat(r.value) == Reported(t)
    ensures hasLogger && t.Canceled? ==> r == Await(t)
  {
    if hasLogger && Await(t).Some? then
      PickKeepsFaults(t);
      Some(PickException(t, Await(t).value))
    else None
  }

  /** Observe: logs the picked exception and always rethrows what the await threw. */
  function Observe(t: Task, hasLogger: bool): (r: Outcome)
    requires ValidTask(t)
    ensures r.rethrown == Await(t)
    ensures r.handed.Some? <==> hasLogger && !t.RanToCompletion?
    ensures r.handed.Some? ==> Flat(r.handed.value) == Reported(t)
  {
    Outcome(Logged(t, hasLogger), Await(t))
  }

  /** The swallow condition of IgnoreCancellations. */
  predicate Swallowed(t: Task, caught: Exc) {
    t.Canceled? || IsCancellation(caught) || IsOperationCanceled(TaskException(t))
  }

  /** IgnoreCancellations: logs any fault, swallows cancellations, rethrows the rest unchanged. */
  function IgnoreCancellations(t: Task, hasLogger: bool): (r: Outcome)
    requires ValidTask(t)
    ensures r.handed == Logged(t, hasLogger)
    ensures r.rethrown.Some? ==> r.rethrown == Await(t)
    ensures t.Canceled? || t.RanToCompletion? ==> r.rethrown.None?
  {
    match Await(t)
    case None => Outcome(None, None)
    case Some(caught) => Outcome(Logged(t, hasLogger), if Swallowed(t, caught) then None else Some(caught))
  }

  /**
   * For a faulted task, IgnoreCancellations swallows exactly when its first
   * exception is a cancellation or its fault tree has no empty aggregate and
   * only cancellation leaves.
   */
  lemma IgnoreCancellationsSwallowsFaulted(t: Task, hasLogger: bool)
    requires ValidTask(t) && t.Faulted?
    ensures IgnoreCancellations(t, hasLogger).rethrown.None? <==>
      IsCancellation(t.inners[0]) ||
      ((forall i :: 0 <= i < |t.inners| ==> NoEmptyAggregate(t.inners[i])) && AllCancellations(LeavesAll(t.inners)))
  {
    IsOperationCanceledTree(Aggregate(AggregateMessage, t.inners));
  }

  /** A consequence of checking only the first exception: a fault mixing a cancellation with another error is swallowed. */
  lemma IgnoreCancellationsSwallowsMixedFault()
    ensures var t := Faulted([Leaf(TaskCanceled, CanceledMessage), Leaf(InvalidOperation, "Invalid!")]);
      IgnoreCancellations(t, false).rethrown.None? && !IsOperationCanceled(TaskException(t))
  {
    var t := Faulted([Leaf(TaskCanceled, CanceledMessage), Leaf(InvalidOperation, "Invalid!")]);
    var cs := t.inners;
    FlatOfNonEmptyAggregate(AggregateMessage, cs);
    assert cs[1..][1..] == [];
    assert FlatAll(cs[1..]) == Flat(cs[1]) + FlatAll([]);
    assert FlatAll(cs) == [cs[0], cs[1]];
    assert !IsCancellation(Flat(TaskException(t).value)[1]);
  }

  /** Handle(Task, handler): hands the picked exception to the handler and rethrows iff the handler declines it. */
  function HandleTask(t: Task, handler: Exc -> bool): (r: Outcome)
    requires ValidTask(t)
    ensures r.handed == Logged(t, true)
    ensures r.rethrown.Some? <==> r.handed.Some? && !handler(r.handed.value)
    ensures r.rethrown.Some? ==> r.rethrown == Await(t)
  {
    match Await(t)
    case None => Outcome(None, None)
    case Some(caught) =>
      var picked := PickException(t, caught);
      Outcome(Logged(t, true), if handler(picked) == false then Some(caught) else None)
  }

  /**
   * A task canceled by an exception its body threw hands that very exception
   * to the logger and the handler, and rethrows it: nothing is replaced by a
   * fresh TaskCanceledException.
   */
  lemma CanceledByThrowKeepsException(e: Exc, handler: Exc -> bool)
    requires IsCancellation(e)
    ensures var t := AsyncOutcome(Some(e));
      Observe(t, true) == Outcome(Some(e), Some(e)) &&
      IgnoreCancellations(t, true) == Outcome(Some(e), None) &&
      HandleTask(t, handler) == Outcome(Some(e), if handler(e) then None else Some(e))
  {
  }

  /** Handle(Exception, action): the action is called once per element of AsEnumerable, in order; the result lists the calls. */
  method HandleException(e: Exc) returns (calls: seq<Exc>)
    ensures calls == AsEnumerable(Some(e))
    ensures forall x :: x in calls ==> IsTerminal(x)
  {
    var all := Flat(e);
    FlatElementsAreTerminal(e);
    calls := [];
    var i := 0;
    while i < |all|
      invariant 0 <= i <= |all|
      invariant calls == all[..i]
    {
      calls := calls + [all[i]];
      i := i + 1;
    }
  }

  // ---------------------------------------------------------------------------
  // The scenarios of Tests/ExtensionsTest.cs
  // ---------------------------------------------------------------------------

  /** The exceptions the helpers rethrow, in order: each goes to the synchronization context. */
  function Rethrown(os: seq<Outcome>): (r: seq<Exc>)
    ensures |r| <= |os|
  {
    if os == [] then []
    else (if os[0].rethrown.Some? then [os[0].rethrown.value] else []) + Rethrown(os[1..])
  }

  /** The number of logger or handler calls. */
  function HandedCount(os: seq<Outcome>): (n: nat)
    ensures n <= |os|
  {
    if os == [] then 0 else (if os[0].handed.Some? then 1 else 0) + HandedCount(os[1..])
  }

  /** The four work items of the Observe and Handle tests: two canceled, then InvalidOperation, then NotImplemented. */
  function TestWork(): seq<Task>
  {
    [AsyncOutcome(Await(Canceled(None))), AsyncOutcome(Await(Canceled(None))),
     AsyncOutcome(Some(Leaf(InvalidOperation, ""))), AsyncOutcome(Some(Leaf(NotImplemented, "")))]
  }

  lemma RethrownCons(o: Outcome, rest: seq<Outcome>)
    ensures Rethrown([o] + rest) == Rethrown([o]) + Rethrown(rest)
    ensures HandedCount([o] + rest) == HandedCount([o]) + HandedCount(rest)
  {
    assert ([o] + rest)[1..] == rest;
    assert [o][1..] == [];
  }

  lemma UnfoldFour(o0: Outcome, o1: Outcome, o2: Outcome, o3: Outcome)
    ensures Rethrown([o0, o1, o2, o3]) == Rethrown([o0]) + Rethrown([o1]) + Rethrown([o2]) + Rethrown([o3])
    ensures HandedCount([o0, o1, o2, o3]) == HandedCount([o0]) + HandedCount([o1]) + HandedCount([o2]) + HandedCount([o3])
  {
    var tail2 := [o2] + [o3];
    var tail1 := [o1] + tail2;
    assert [o0, o1, o2, o3] == [o0] + tail1;
    RethrownCons(o2, [o3]);
    RethrownCons(o1, tail2);
    RethrownCons(o0, tail1);
  }

  /** Observe with no logger, then three logging Observes: all four faults are rethrown in order and the logger runs three times. */
  lemma ObserveScenario()
    ensures var w := TestWork();
      var os := [Observe(w[0], false), Observe(w[1], true), Observe(w[2], true), Observe(w[3], true)];
      Rethrown(os) == [Leaf(TaskCanceled, CanceledMessage), Leaf(TaskCanceled, CanceledMessage),
                       Leaf(InvalidOperation, ""), Leaf(NotImplemented, "")] &&
      HandedCount(os) == 3
  {
    var w := TestWork();
    assert w == [Canceled(Some(Leaf(TaskCanceled, CanceledMessage))), Canceled(Some(Leaf(TaskCanceled, CanceledMessage))), Faulted([Leaf(InvalidOperation, "")]), Faulted([Leaf(NotImplemented, "")])];
    var os := [Observe(w[0], false), Observe(w[1], true), Observe(w[2], true), Observe(w[3], true)];
    UnfoldFour(os[0], os[1], os[2], os[3]);
  }

  /** A handler that accepts everything: nothing is rethrown and it sees all four faults in order. */
  lemma HandleScenario()
    ensures var w := TestWork();
      var h := (x: Exc) => true;
      var os := [HandleTask(w[0], h), HandleTask(w[1], h), HandleTask(w[2], h), HandleTask(w[3], h)];
      Rethrown(os) == [] &&
      [os[0].handed.value.kind, os[1].handed.value.kind, os[2].handed.value.kind, os[3].handed.value.kind] ==
        [TaskCanceled, TaskCanceled, InvalidOperation, NotImplemented]
  {
    var w := TestWork();
    assert w == [Canceled(Some(Leaf(TaskCanceled, CanceledMessage))), Canceled(Some(Leaf(TaskCanceled, CanceledMessage))), Faulted([Leaf(InvalidOperation, "")]), Faulted([Leaf(NotImplemented, "")])];
    var h := (x: Exc) => true;
    var os := [HandleTask(w[0], h), HandleTask(w[1], h), HandleTask(w[2], h), HandleTask(w[3], h)];
    UnfoldFour(os[0], os[1], os[2], os[3]);
  }

  /** The IgnoreCancellations test: a canceled task and two all-cancellation aggregates are all swallowed; the logger still runs. */
  lemma IgnoreCancellationsScenario()
    ensures var t := AsyncOutcome(Some(CanceledExample().inners[0]));
      IgnoreCancellations(Canceled(None), false).rethrown.None? &&
      IgnoreCancellations(t, false).rethrown.None? &&
      IgnoreCancellations(t, true).rethrown.None? &&
      IgnoreCancellations(t, true).handed.Some?
  {
    var ex3 := CanceledExample().inners[0];
    var t := AsyncOutcome(Some(ex3));
    assert t == Faulted([ex3]);
    CanceledExampleIsCancellationOnly();
    FlatOfNonEmptyAggregate(AggregateMessage, [ex3]);
    FlatOfNonEmptyAggregate("Wait", [ex3]);
    assert Flat(TaskException(t).value) == Flat(CanceledExample());
  }
}
