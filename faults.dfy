/**
 * The fault-tree algebra of AppLogic/Helpers/ExceptionExtensions.cs.
 *
 * An exception is either a leaf of some kind or an AggregateException
 * holding an ordered list of inner exceptions.  `Option<Exc>` stands for a
 * nullable exception reference.  A leaf message `""` stands for the default
 * message of the exception's parameterless constructor, whose text is not
 * modelled; messages the code relies on are written out.
 */
module Faults {
  import opened Wrappers

  /** The exception classes the modelled code distinguishes. */
  datatype Kind =
    | OperationCanceled
    | TaskCanceled          // a subclass of OperationCanceledException
    | InvalidOperation
    | NotImplemented
    | NotSupported
    | Format
    | Argument
    | ArgumentNull
    | Overflow
    | IndexOutOfRange
    | AbandonedMutex
    | Win32(errorCode: int)
    | Other(typeName: string)

  datatype Exc =
    | Leaf(kind: Kind, message: string)
    | Aggregate(message: string, inners: seq<Exc>)

  /** `ex is OperationCanceledException`: true for the class and its subclass TaskCanceledException. */
  predicate IsCancellation(e: Exc) {
    e.Leaf? && (e.kind == OperationCanceled || e.kind == TaskCanceled)
  }

  /** An aggregate with exactly one inner exception: the shape `Unwrap` strips. */
  predicate IsSingleAggregate(e: Exc) {
    e.Aggregate? && |e.inners| == 1
  }

  // ---------------------------------------------------------------------------
  // Unwrap
  // ---------------------------------------------------------------------------

  /** The result of stripping a chain of single-inner aggregates. */
  function Unwrapped(e: Exc): (r: Exc)
    ensures !IsSingleAggregate(r)
  {
    if IsSingleAggregate(e) then Unwrapped(e.inners[0]) else e
  }

  /** ExceptionExtensions.Unwrap: the while loop that keeps descending into the only inner exception. */
  method Unwrap(e: Exc) returns (r: Exc)
    ensures r == Unwrapped(e)
    ensures !IsSingleAggregate(r)
  {
    var inner := e;
    while IsSingleAggregate(inner)
      invariant Unwrapped(inner) == Unwrapped(e)
      decreases inner
    {
      inner := inner.inners[0];
    }
    return inner;
  }

  // ---------------------------------------------------------------------------
  // AsEnumerable
  // ---------------------------------------------------------------------------

  /** ExceptionExtensions.AsEnumerable on a non-null exception: at least one element, none an aggregate with inner exceptions. */
  function Flat(e: Exc): (r: seq<Exc>)
    ensures |r| >= 1
    ensures forall x :: x in r ==> IsTerminal(x)
  {
    match e
    case Leaf(_, _) => [e]
    case Aggregate(_, cs) =>
      if |cs| == 0 then [e]
      else if |cs| == 1 && !cs[0].Aggregate? then [cs[0]]
      else FlatAll(cs)
  }

  /** `InnerExceptions.SelectMany(inner => inner.AsEnumerable())`. */
  function FlatAll(cs: seq<Exc>): (r: seq<Exc>)
    ensures |r| >= |cs|
    ensures forall x :: x in r ==> IsTerminal(x)
  {
    if cs == [] then [] else Flat(cs[0]) + FlatAll(cs[1..])
  }

  /** ExceptionExtensions.AsEnumerable: a null exception yields nothing, any other at least one terminal exception. */
  function AsEnumerable(oe: Option<Exc>): (r: seq<Exc>)
    ensures r == [] <==> oe.None?
    ensures forall x :: x in r ==> IsTerminal(x)
  {
    match oe
    case None => []
    case Some(e) => Flat(e)
  }

  /** The terminal nodes of a fault tree: leaves and empty aggregates, depth first, left to right. */
  function Terminals(e: Exc): seq<Exc>
  {
    match e
    case Leaf(_, _) => [e]
    case Aggregate(_, cs) => if |cs| == 0 then [e] else TerminalsAll(cs)
  }

  function TerminalsAll(cs: seq<Exc>): seq<Exc>
  {
    if cs == [] then [] else Terminals(cs[0]) + TerminalsAll(cs[1..])
  }

  /** A flattened element is never an aggregate that still has inner exceptions. */
  predicate IsTerminal(e: Exc) {
    e.Leaf? || |e.inners| == 0
  }

  /**
   * AsEnumerable yields exactly the terminal nodes of the tree in depth-first
   * order: the "single non-aggregate inner" shortcut of the source changes nothing.
   */
  lemma {:induction false} FlatIsTerminals(e: Exc)
    ensures Flat(e) == Terminals(e)
    decreases e, 1
  {
    match e
    case Leaf(_, _) =>
    case Aggregate(_, cs) =>
      if |cs| == 0 {
      } else if |cs| == 1 && !cs[0].Aggregate? {
        assert TerminalsAll(cs[1..]) == [];
        assert Terminals(cs[0]) == [cs[0]];
      } else {
        FlatAllIsTerminalsAll(cs);
      }
  }

  lemma {:induction false} FlatAllIsTerminalsAll(cs: seq<Exc>)
    ensures FlatAll(cs) == TerminalsAll(cs)
    decreases cs, 0
  {
    if cs != [] {
      FlatIsTerminals(cs[0]);
      FlatAllIsTerminalsAll(cs[1..]);
    }
  }

  /** For an aggregate with at least one inner exception, AsEnumerable is the concatenation of the inners' flattenings. */
  lemma {:induction false} FlatOfNonEmptyAggregate(m: string, cs: seq<Exc>)
    requires |cs| >= 1
    ensures Flat(Aggregate(m, cs)) == FlatAll(cs)
  {
    if |cs| == 1 && !cs[0].Aggregate? {
      assert cs[1..] == [];
    }
  }

  lemma {:induction false} FlatAllAppend(a: seq<Exc>, b: seq<Exc>)
    ensures FlatAll(a + b) == FlatAll(a) + FlatAll(b)
  {
    if a != [] {
      assert (a + b)[1..] == a[1..] + b;
      FlatAllAppend(a[1..], b);
      assert FlatAll(a + b) == Flat(a[0]) + FlatAll(a[1..] + b);
    } else {
      assert a + b == b;
    }
  }

  lemma {:induction false} TerminalsAreTerminal(e: Exc)
    ensures forall x :: x in Terminals(e) ==> IsTerminal(x)
    ensures |Terminals(e)| >= 1
    decreases e, 1
  {
    match e
    case Leaf(_, _) =>
    case Aggregate(_, cs) =>
      if |cs| > 0 {
        TerminalsAllAreTerminal(cs);
        TerminalsAreTerminal(cs[0]);
      }
  }

  lemma {:induction false} TerminalsAllAreTerminal(cs: seq<Exc>)
    ensures forall x :: x in TerminalsAll(cs) ==> IsTerminal(x)
    decreases cs, 0
  {
    if cs != [] {
      TerminalsAreTerminal(cs[0]);
      TerminalsAllAreTerminal(cs[1..]);
    }
  }

  /** Every element AsEnumerable yields is a non-aggregate or an empty aggregate, and a non-null exception yields at least one. */
  lemma FlatElementsAreTerminal(e: Exc)
    ensures forall x :: x in AsEnumerable(Some(e)) ==> IsTerminal(x)
    ensures |AsEnumerable(Some(e))| >= 1
  {
    FlatIsTerminals(e);
    TerminalsAreTerminal(e);
  }

  /** Unwrapping does not change what AsEnumerable yields. */
  lemma {:induction false} FlatOfUnwrapped(e: Exc)
    ensures Flat(Unwrapped(e)) == Flat(e)
  {
    if IsSingleAggregate(e) {
      FlatOfUnwrapped(e.inners[0]);
      FlatOfNonEmptyAggregate(e.message, e.inners);
      assert e.inners[1..] == [];
    }
  }

  // ---------------------------------------------------------------------------
  // IsOperationCanceled
  // ---------------------------------------------------------------------------

  predicate AllCancellations(s: seq<Exc>) {
    forall x :: x in s ==> IsCancellation(x)
  }

  /** ExceptionExtensions.IsOperationCanceled: null never is; a cancellation exception, or an aggregate of one, always is. */
  predicate IsOperationCanceled(oe: Option<Exc>)
    ensures IsOperationCanceled(oe) ==> oe.Some?
    ensures oe.Some? && IsCancellation(Unwrapped(oe.value)) ==> IsOperationCanceled(oe)
  {
    match oe
    case None => false
    case Some(e) =>
      FlatOfUnwrapped(e);
      if IsCancellation(e) then true
      else if e.Aggregate? then
        (|e.inners| == 1 && IsCancellation(e.inners[0])) || AllCancellations(Flat(e))
      else false
  }

  /** The single-cancellation shortcut is subsumed: an exception is cancellation-only iff it is non-null and every flattened element is a cancellation. */
  lemma IsOperationCanceledIffAllFlatCancel(oe: Option<Exc>)
    ensures IsOperationCanceled(oe) <==> oe.Some? && AllCancellations(AsEnumerable(oe))
  {
    if oe.Some? {
      var e := oe.value;
      if e.Aggregate? && |e.inners| == 1 && IsCancellation(e.inners[0]) {
        assert Flat(e) == [e.inners[0]];
      }
    }
  }

  /** No aggregate anywhere in the tree is empty. */
  predicate NoEmptyAggregate(e: Exc)
  {
    match e
    case Leaf(_, _) => true
    case Aggregate(_, cs) => |cs| > 0 && forall i :: 0 <= i < |cs| ==> NoEmptyAggregate(cs[i])
  }

  /** The non-aggregate exceptions of a tree, depth first. */
  function Leaves(e: Exc): seq<Exc>
  {
    match e
    case Leaf(_, _) => [e]
    case Aggregate(_, cs) => LeavesAll(cs)
  }

  function LeavesAll(cs: seq<Exc>): seq<Exc>
  {
    if cs == [] then [] else Leaves(cs[0]) + LeavesAll(cs[1..])
  }

  /** A tree is cancellation-only iff it has no empty aggregate and every leaf is a cancellation. */
  lemma {:induction false} CancellationOnlyTree(e: Exc)
    ensures AllCancellations(Terminals(e)) <==> NoEmptyAggregate(e) && AllCancellations(Leaves(e))
    decreases e, 1
  {
    match e
    case Leaf(_, _) =>
    case Aggregate(_, cs) =>
      if |cs| == 0 {
        assert Terminals(e) == [e];
        assert !IsCancellation(e);
      } else {
        CancellationOnlyTrees(cs);
      }
  }

  lemma {:induction false} CancellationOnlyTrees(cs: seq<Exc>)
    ensures AllCancellations(TerminalsAll(cs)) <==>
      (forall i :: 0 <= i < |cs| ==> NoEmptyAggregate(cs[i])) && AllCancellations(LeavesAll(cs))
    decreases cs, 0
  {
    if cs != [] {
      CancellationOnlyTree(cs[0]);
      CancellationOnlyTrees(cs[1..]);
      assert forall i :: 1 <= i < |cs| ==> cs[i] == cs[1..][i - 1];
    }
  }

  /** IsOperationCanceled in terms of the tree: non-null, no empty aggregate, and only cancellation leaves. */
  lemma IsOperationCanceledTree(e: Exc)
    ensures IsOperationCanceled(Some(e)) <==> NoEmptyAggregate(e) && AllCancellations(Leaves(e))
  {
    IsOperationCanceledIffAllFlatCancel(Some(e));
    FlatIsTerminals(e);
    CancellationOnlyTree(e);
  }

  // ---------------------------------------------------------------------------
  // AggregateException.Flatten (the .NET library routine used by TaskExtensions)
  // ---------------------------------------------------------------------------

  function Size(e: Exc): nat
  {
    match e
    case Leaf(_, _) => 1
    case Aggregate(_, cs) => 1 + SizeAll(cs)
  }

  function SizeAll(cs: seq<Exc>): nat
  {
    if cs == [] then 0 else Size(cs[0]) + SizeAll(cs[1..])
  }

  function SizeQueue(q: seq<seq<Exc>>): nat
  {
    if q == [] then 0 else 1 + SizeAll(q[0]) + SizeQueue(q[1..])
  }

  /** The direct non-aggregate inner exceptions, in order. */
  function DirectLeaves(cs: seq<Exc>): (r: seq<Exc>)
    ensures forall x :: x in r ==> x.Leaf?
  {
    if cs == [] then []
    else (if cs[0].Aggregate? then [] else [cs[0]]) + DirectLeaves(cs[1..])
  }

  /** The inner lists of the direct aggregate inner exceptions, in order. */
  function DirectAggregateInners(cs: seq<Exc>): seq<seq<Exc>>
  {
    if cs == [] then []
    else (if cs[0].Aggregate? then [cs[0].inners] else []) + DirectAggregateInners(cs[1..])
  }

  lemma {:induction false} SizeQueueAppend(a: seq<seq<Exc>>, b: seq<seq<Exc>>)
    ensures SizeQueue(a + b) == SizeQueue(a) + SizeQueue(b)
  {
    if a != [] {
      assert (a + b)[1..] == a[1..] + b;
      SizeQueueAppend(a[1..], b);
      assert SizeQueue(a + b) == 1 + SizeAll(a[0]) + SizeQueue(a[1..] + b);
    } else {
      assert a + b == b;
    }
  }

  lemma {:induction false} DirectAggregateInnersSmaller(cs: seq<Exc>)
    ensures SizeQueue(DirectAggregateInners(cs)) <= SizeAll(cs)
  {
    if cs != [] {
      DirectAggregateInnersSmaller(cs[1..]);
      var head := if cs[0].Aggregate? then [cs[0].inners] else [];
      SizeQueueAppend(head, DirectAggregateInners(cs[1..]));
    }
  }

  /**
   * The breadth-first loop of AggregateException.Flatten: each dequeued aggregate
   * contributes its direct non-aggregate inners and enqueues its aggregate inners.
   */
  function FlattenQueue(pending: seq<seq<Exc>>): (r: seq<Exc>)
    ensures forall x :: x in r ==> x.Leaf?
    decreases SizeQueue(pending)
  {
    if pending == [] then []
    else
      var next := pending[1..] + DirectAggregateInners(pending[0]);
      SizeQueueAppend(pending[1..], DirectAggregateInners(pending[0]));
      DirectAggregateInnersSmaller(pending[0]);
      DirectLeaves(pending[0]) + FlattenQueue(next)
  }

  /** AggregateException.Flatten: a new aggregate with the same message holding every non-aggregate exception of the tree. */
  function Flatten(message: string, inners: seq<Exc>): (r: Exc)
    ensures r.Aggregate? && r.message == message
    ensures forall x :: x in r.inners ==> x.Leaf?
  {
    Aggregate(message, FlattenQueue([inners]))
  }

  function LeavesQueue(q: seq<seq<Exc>>): seq<Exc>
  {
    if q == [] then [] else LeavesAll(q[0]) + LeavesQueue(q[1..])
  }

  lemma {:induction false} LeavesQueueAppend(a: seq<seq<Exc>>, b: seq<seq<Exc>>)
    ensures LeavesQueue(a + b) == LeavesQueue(a) + LeavesQueue(b)
  {
    if a != [] {
      assert (a + b)[1..] == a[1..] + b;
      LeavesQueueAppend(a[1..], b);
      assert LeavesQueue(a + b) == LeavesAll(a[0]) + LeavesQueue(a[1..] + b);
    } else {
      assert a + b == b;
    }
  }

  lemma {:induction false} LeavesAllSplit(cs: seq<Exc>)
    ensures multiset(LeavesAll(cs)) == multiset(DirectLeaves(cs)) + multiset(LeavesQueue(DirectAggregateInners(cs)))
  {
    if cs != [] {
      LeavesAllSplit(cs[1..]);
      var head := if cs[0].Aggregate? then [cs[0].inners] else [];
      LeavesQueueAppend(head, DirectAggregateInners(cs[1..]));
      if cs[0].Aggregate? {
        assert LeavesQueue(head) == LeavesAll(cs[0].inners) + LeavesQueue([]);
      }
    }
  }

  lemma {:induction false} FlattenQueueLeaves(pending: seq<seq<Exc>>)
    ensures multiset(FlattenQueue(pending)) == multiset(LeavesQueue(pending))
    decreases SizeQueue(pending)
  {
    if pending != [] {
      var next := pending[1..] + DirectAggregateInners(pending[0]);
      SizeQueueAppend(pending[1..], DirectAggregateInners(pending[0]));
      DirectAggregateInnersSmaller(pending[0]);
      FlattenQueueLeaves(next);
      LeavesQueueAppend(pending[1..], DirectAggregateInners(pending[0]));
      LeavesAllSplit(pending[0]);
    }
  }

  /** Flatten keeps every non-aggregate exception of the tree, as many times as it occurs, and nothing else. */
  lemma FlattenKeepsLeaves(message: string, inners: seq<Exc>)
    ensures Flatten(message, inners).inners == FlattenQueue([inners])
    ensures forall x :: x in Flatten(message, inners).inners ==> x.Leaf?
    ensures multiset(Flatten(message, inners).inners) == multiset(LeavesAll(inners))
  {
    FlattenQueueLeaves([inners]);
    assert LeavesQueue([inners]) == LeavesAll(inners) + LeavesQueue([]);
  }

  // ---------------------------------------------------------------------------
  // The fault trees of Tests/ExtensionsTest.cs
  // ---------------------------------------------------------------------------

  /** The tree thrown in the AsEnumerable test, wrapped once more by Task.Wait(). */
  function NestedExample(): Exc
  {
    var ex1 := Aggregate("ex1", [Aggregate("Empty aggregate", []), Leaf(TaskCanceled, "Canceled 1")]);
    var ex2 := Aggregate("ex2", [ex1, Leaf(TaskCanceled, "Canceled 2")]);
    var ex3 := Aggregate("ex3", [ex2, Leaf(InvalidOperation, "Invalid")]);
    var ex4 := Aggregate("ex4", [ex3, Leaf(NotImplemented, "Not Implemented")]);
    Aggregate("Wait", [ex4])
  }

  lemma NestedExampleFlattensToFive()
    ensures AsEnumerable(Some(NestedExample())) ==
      [Aggregate("Empty aggregate", []), Leaf(TaskCanceled, "Canceled 1"), Leaf(TaskCanceled, "Canceled 2"),
       Leaf(InvalidOperation, "Invalid"), Leaf(NotImplemented, "Not Implemented")]
    ensures !IsOperationCanceled(Some(NestedExample()))
  {
    var empty := Aggregate("Empty aggregate", []);
    var c1, c2 := Leaf(TaskCanceled, "Canceled 1"), Leaf(TaskCanceled, "Canceled 2");
    var io, ni := Leaf(InvalidOperation, "Invalid"), Leaf(NotImplemented, "Not Implemented");
    var ex1 := Aggregate("ex1", [empty, c1]);
    var ex2 := Aggregate("ex2", [ex1, c2]);
    var ex3 := Aggregate("ex3", [ex2, io]);
    var ex4 := Aggregate("ex4", [ex3, ni]);
    PairTerminals(ex1, empty, c1);
    PairTerminals(ex2, ex1, c2);
    PairTerminals(ex3, ex2, io);
    PairTerminals(ex4, ex3, ni);
    assert TerminalsAll([ex4]) == Terminals(ex4) + TerminalsAll([]);
    FlatIsTerminals(NestedExample());
    assert !IsCancellation(Flat(NestedExample())[0]);
  }

  lemma PairTerminals(p: Exc, a: Exc, b: Exc)
    requires p.Aggregate? && p.inners == [a, b]
    ensures Terminals(p) == Terminals(a) + Terminals(b)
  {
    assert p.inners[1..] == [b];
    assert TerminalsAll([b]) == Terminals(b) + TerminalsAll([]);
  }

  /** The all-TaskCanceled tree of the IsOperationCanceled test, wrapped by Task.Wait(). */
  function CanceledExample(): Exc
  {
    var ex1 := Aggregate("ex1", [Leaf(TaskCanceled, "Canceled 1!")]);
    var ex3 := Aggregate("ex3", [ex1, Leaf(TaskCanceled, "Canceled 3!"), Leaf(TaskCanceled, "Canceled 4!")]);
    Aggregate("Wait", [ex3])
  }

  lemma CanceledExampleIsCancellationOnly()
    ensures IsOperationCanceled(Some(CanceledExample()))
    ensures IsOperationCanceled(Some(Leaf(TaskCanceled, "Canceled!")))
    ensures !IsOperationCanceled(Some(Leaf(InvalidOperation, "Invalid!")))
    ensures !IsOperationCanceled(None)
  {
    var e := CanceledExample();
    FlatIsTerminals(e);
    assert Terminals(e) == [Leaf(TaskCanceled, "Canceled 1!"), Leaf(TaskCanceled, "Canceled 3!"), Leaf(TaskCanceled, "Canceled 4!")];
  }
}
