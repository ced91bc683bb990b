/**
 * The bookkeeping of the test apartments: Tests/AsyncApartmentBase.cs with the
 * two conclusion policies of Tests/ThreadPoolApartment.cs and
 * Tests/SingleThreadApartment.cs.
 *
 * Every `lock` body is one atomic method.  The synchronization context that
 * each concrete apartment owns is folded into the apartment: `Post` and the
 * work items it queues live here.  A work item is either a posted callback
 * (which may throw) or the task that `Run` schedules through the apartment's
 * task scheduler (whose fault stays in the task).  The async overloads of
 * `Run` unwrap the task their lambda returns, so their scope stays open
 * until that inner task ends.
 */
module Apartments {
  import opened Wrappers
  import opened Faults
  import TaskExtensions

  /** Which concrete apartment: its conclusion hook and its queue policy. */
  datatype Flavor = ThreadPool | SingleThread

  /** The completion promise: pending, or resolved once. */
  datatype Completion = Pending | Succeeded | FaultedWith(faults: seq<Exc>)

  /** What TrySetCompletion resolves to: success iff no fault was recorded, else the faults in insertion order. */
  function Resolution(faults: seq<Exc>): (c: Completion)
    ensures c != Pending
    ensures c.Succeeded? <==> faults == []
    ensures c.FaultedWith? ==> c.faults == faults
  {
    if faults == [] then Succeeded else FaultedWith(faults)
  }

  /** The `Completion` task seen by a client once the promise is resolved. */
  function CompletionTask(c: Completion): (t: TaskExtensions.Task)
    requires c != Pending && (c.FaultedWith? ==> c.faults != [])
    ensures TaskExtensions.ValidTask(t)
    ensures t.RanToCompletion? <==> c.Succeeded?
  {
    if c.Succeeded? then TaskExtensions.RanToCompletion else TaskExtensions.Faulted(c.faults)
  }

  datatype WorkItem =
    | Callback(throws: Option<Exc>)           // a SendOrPostCallback; `throws` is what it raises, if anything
    | ScopedTask(outcome: TaskExtensions.Task) // the task started by Run for an action or a function, with its final state
    | AsyncTask(outcome: TaskExtensions.Task)  // the task started by Run for an async function; `outcome` is the final state of the task it returns

  /** Counter units an item holds: a posted callback one (Post), a Run task two (its scope and its Post). */
  function Weight(items: seq<WorkItem>): nat
  {
    if items == [] then 0 else (if items[0].Callback? then 1 else 2) + Weight(items[1..])
  }

  /** Counter units a run of `items` releases: an async Run task releases its Post, and its scope only when its inner task ends. */
  function Released(items: seq<WorkItem>): nat
  {
    if items == [] then 0 else (if items[0].ScopedTask? then 2 else 1) + Released(items[1..])
  }

  /** The inner tasks a run of `items` leaves running: those the async Run lambdas return, in order. */
  function AwaitedBy(items: seq<WorkItem>): seq<TaskExtensions.Task>
  {
    if items == [] then [] else (if items[0].AsyncTask? then [items[0].outcome] else []) + AwaitedBy(items[1..])
  }

  /** The faults a run of `items` records, in order. */
  function ThrownBy(items: seq<WorkItem>): seq<Exc>
  {
    if items == [] then []
    else (if items[0].Callback? && items[0].throws.Some? then [items[0].throws.value] else []) + ThrownBy(items[1..])
  }

  /** The Run tasks a run of `items` finishes, in order. */
  function OutcomesOf(items: seq<WorkItem>): seq<TaskExtensions.Task>
  {
    if items == [] then []
    else (if items[0].ScopedTask? then [items[0].outcome] else []) + OutcomesOf(items[1..])
  }

  lemma {:induction false} WeightAppend(a: seq<WorkItem>, b: seq<WorkItem>)
    ensures Weight(a + b) == Weight(a) + Weight(b)
  {
    if a == [] {
      assert a + b == b;
    } else {
      assert (a + b)[1..] == a[1..] + b;
      WeightAppend(a[1..], b);
    }
  }

  lemma {:induction false} ThrownByAppend(a: seq<WorkItem>, b: seq<WorkItem>)
    ensures ThrownBy(a + b) == ThrownBy(a) + ThrownBy(b)
  {
    if a == [] {
      assert a + b == b;
    } else {
      assert (a + b)[1..] == a[1..] + b;
      ThrownByAppend(a[1..], b);
    }
  }

  lemma {:induction false} OutcomesOfAppend(a: seq<WorkItem>, b: seq<WorkItem>)
    ensures OutcomesOf(a + b) == OutcomesOf(a) + OutcomesOf(b)
  {
    if a == [] {
      assert a + b == b;
    } else {
      var head := if a[0].ScopedTask? then [a[0].outcome] else [];
      assert (a + b)[0] == a[0] && (a + b)[1..] == a[1..] + b;
      OutcomesOfAppend(a[1..], b);
      assert OutcomesOf(a + b) == head + (OutcomesOf(a[1..]) + OutcomesOf(b));
    }
  }

  lemma {:induction false} ReleasedAppend(a: seq<WorkItem>, b: seq<WorkItem>)
    ensures Released(a + b) == Released(a) + Released(b)
  {
    if a == [] {
      assert a + b == b;
    } else {
      assert (a + b)[0] == a[0] && (a + b)[1..] == a[1..] + b;
      ReleasedAppend(a[1..], b);
    }
  }

  lemma {:induction false} AwaitedByAppend(a: seq<WorkItem>, b: seq<WorkItem>)
    ensures AwaitedBy(a + b) == AwaitedBy(a) + AwaitedBy(b)
  {
    if a == [] {
      assert a + b == b;
    } else {
      var head := if a[0].AsyncTask? then [a[0].outcome] else [];
      assert (a + b)[0] == a[0] && (a + b)[1..] == a[1..] + b;
      AwaitedByAppend(a[1..], b);
      assert AwaitedBy(a + b) == head + (AwaitedBy(a[1..]) + AwaitedBy(b));
    }
  }

  /** The units items hold are the units their run releases plus one per inner task left running. */
  lemma {:induction false} WeightSplit(items: seq<WorkItem>)
    ensures Weight(items) == Released(items) + |AwaitedBy(items)|
  {
    if items != [] {
      WeightSplit(items[1..]);
    }
  }

  lemma ItemsAppend(a: seq<WorkItem>, b: seq<WorkItem>)
    ensures Weight(a + b) == Weight(a) + Weight(b)
    ensures ThrownBy(a + b) == ThrownBy(a) + ThrownBy(b)
    ensures OutcomesOf(a + b) == OutcomesOf(a) + OutcomesOf(b)
    ensures Released(a + b) == Released(a) + Released(b)
    ensures AwaitedBy(a + b) == AwaitedBy(a) + AwaitedBy(b)
  {
    WeightAppend(a, b);
    ThrownByAppend(a, b);
    OutcomesOfAppend(a, b);
    ReleasedAppend(a, b);
    AwaitedByAppend(a, b);
  }

  /** Taking out the item at `i` leaves the others' units, and the item's units are what its run releases plus its inner task. */
  lemma WeightRemoveAt(items: seq<WorkItem>, i: nat)
    requires i < |items|
    ensures Weight(items) == Weight(items[..i] + items[i + 1..]) + Released([items[i]]) + |AwaitedBy([items[i]])|
  {
    assert items == items[..i] + [items[i]] + items[i + 1..];
    WeightAppend(items[..i] + [items[i]], items[i + 1..]);
    WeightAppend(items[..i], [items[i]]);
    WeightAppend(items[..i], items[i + 1..]);
    WeightSplit([items[i]]);
  }

  /** Running one more item of `items` adds that item's share to each tally of the prefix run so far. */
  lemma PrefixStep(items: seq<WorkItem>, k: nat)
    requires k < |items|
    ensures ThrownBy(items[..k + 1]) == ThrownBy(items[..k]) + ThrownBy([items[k]])
    ensures OutcomesOf(items[..k + 1]) == OutcomesOf(items[..k]) + OutcomesOf([items[k]])
    ensures AwaitedBy(items[..k + 1]) == AwaitedBy(items[..k]) + AwaitedBy([items[k]])
    ensures Released(items[..k + 1]) == Released(items[..k]) + Released([items[k]])
  {
    assert items[..k + 1] == items[..k] + [items[k]];
    ItemsAppend(items[..k], [items[k]]);
  }

  /** The message of the InvalidOperationException a completed BlockingCollection throws on Add. */
  function AddingCompletedMessage(): string
  {
    "The collection has been marked as complete with regards to additions."
  }

  /** The message of the TaskSchedulerException thrown when the scheduler refuses a task. */
  function SchedulerMessage(): string
  {
    "An exception was thrown by a TaskScheduler."
  }

  /** What DisposeAsync does: return, raise the accumulated faults, or wait for completion. */
  datatype DisposeOutcome = Returned | Raised(e: Exc) | Suspended

  /** The ambient `SynchronizationContext.Current` of one thread; contexts are named by number. */
  class ContextSlot {
    var current: Option<nat>

    constructor (initial: Option<nat>)
      ensures current == initial
    {
      current := initial;
    }
  }

  class Apartment {
    const flavor: Flavor
    /** False models an apartment whose AnyBackgroundOperation is null (no way to track async void work). */
    const tracksOperations: bool
    /** The number that names this apartment's synchronization context in a ContextSlot. */
    const contextId: nat

    var operationCount: int
    var faults: seq<Exc>
    var completionCommenced: bool
    var completion: Completion
    /** Items posted and not yet run: the thread-pool queue, or the single-thread mailbox in FIFO order. */
    var queued: seq<WorkItem>
    /** The single-thread mailbox refuses new items (CompleteAdding was called). */
    var addingCompleted: bool
    /** The single-thread worker has drained the mailbox and left its loop. */
    var workerExited: bool
    /** The final states of the tasks started by Run, in the order they finished. */
    var finished: seq<TaskExtensions.Task>
    /** The inner tasks of async Run calls whose lambda has run and whose task has not ended; each holds its scope's unit. */
    var awaiting: seq<TaskExtensions.Task>

    /** OperationStarted calls made from outside and not yet matched by OperationCompleted. */
    ghost var brackets: nat
    /** Counter units that can never be released (a Post refused by a closed mailbox). */
    ghost var leaked: nat

    ghost predicate Valid()
      reads this
    {
      && operationCount == Weight(queued) + |awaiting| + brackets + leaked
      && (flavor == ThreadPool ==> !addingCompleted && !workerExited)
      && (addingCompleted ==> completionCommenced)
      && (completion != Pending ==> completionCommenced)
      && (completion.FaultedWith? ==> completion.faults != [])
      && (workerExited ==> addingCompleted && queued == [])
      && (flavor == SingleThread ==> (completion != Pending <==> workerExited))
    }

    constructor (flavor: Flavor, tracksOperations: bool, contextId: nat)
      ensures Valid()
      ensures this.flavor == flavor && this.tracksOperations == tracksOperations && this.contextId == contextId
      ensures operationCount == 0 && faults == [] && !completionCommenced && completion == Pending
      ensures queued == [] && !addingCompleted && !workerExited && finished == [] && awaiting == []
      ensures brackets == 0 && leaked == 0
    {
      this.flavor := flavor;
      this.tracksOperations := tracksOperations;
      this.contextId := contextId;
      operationCount := 0;
      faults := [];
      completionCommenced := false;
      completion := Pending;
      queued := [];
      addingCompleted := false;
      workerExited := false;
      finished := [];
      awaiting := [];
      brackets := 0;
      leaked := 0;
    }

    /** AnyBackgroundOperation: true/false from the counter, or null when operations are not tracked; false means nothing is queued or awaited. */
    function AnyBackgroundOperation(): (r: Option<bool>)
      reads this
      ensures r.Some? <==> tracksOperations
      ensures Valid() && r == Some(false) ==> queued == [] && awaiting == [] && brackets == 0
    {
      if tracksOperations then Some(operationCount > 0) else None
    }

    /** The state ConcludeCompletion leaves, starting from completion `c0` and mailbox flag `a0`. */
    ghost predicate ConcludedFrom(c0: Completion, a0: bool)
      reads this
    {
      if flavor == ThreadPool then
        completion == (if c0 == Pending then Resolution(faults) else c0) && addingCompleted == a0
      else
        addingCompleted && completion == c0
    }

    method AddException(e: Exc)
      modifies this`faults
      ensures faults == old(faults) + [e]
    {
      faults := faults + [e];
    }

    method GetExceptions() returns (snapshot: seq<Exc>)
      ensures snapshot == faults
    {
      snapshot := faults;
    }

    method ClearExceptions()
      modifies this`faults
      ensures faults == []
    {
      faults := [];
    }

    /** TrySetCompletion: resolves a pending promise from the fault list; a resolved one stays as it is. */
    method TrySetCompletion() returns (won: bool)
      modifies this`completion
      ensures won <==> old(completion) == Pending
      ensures completion == if won then Resolution(faults) else old(completion)
    {
      if completion != Pending {
        return false;
      }
      completion := Resolution(faults);
      won := true;
    }

    /** ConcludeCompletion: resolve the promise (thread pool) or close the mailbox (single thread). */
    method Conclude()
      modifies this`completion, this`addingCompleted
      ensures ConcludedFrom(old(completion), old(addingCompleted))
    {
      if flavor == ThreadPool {
        var _ := TrySetCompletion();
      } else {
        addingCompleted := true;
      }
    }

    /** Complete: CommenceCompletion with an action that concludes unless a background operation is known to be running. */
    method Complete() returns (concluded: bool)
      requires Valid()
      modifies this`completionCommenced, this`completion, this`addingCompleted
      ensures Valid()
      ensures completionCommenced
      ensures concluded <==> !old(completionCommenced) && AnyBackgroundOperation() != Some(true)
      ensures if concluded then ConcludedFrom(old(completion), old(addingCompleted))
              else completion == old(completion) && addingCompleted == old(addingCompleted)
    {
      if completionCommenced {
        return false;
      }
      completionCommenced := true;
      concluded := AnyBackgroundOperation() != Some(true);
      if concluded {
        Conclude();
      }
    }

    /** The lock body of OperationCompleted; the result is `AnyBackgroundOperation == false` afterwards. */
    method CountDown() returns (allDone: bool)
      requires operationCount >= 1
      modifies this`operationCount, this`completion, this`addingCompleted
      ensures operationCount == old(operationCount) - 1
      ensures allDone <==> tracksOperations && operationCount == 0
      ensures if completionCommenced && allDone then ConcludedFrom(old(completion), old(addingCompleted))
              else completion == old(completion) && addingCompleted == old(addingCompleted)
    {
      operationCount := operationCount - 1;
      allDone := AnyBackgroundOperation() == Some(false);
      if completionCommenced && allDone {
        Conclude();
      }
    }

    method OperationStarted()
      requires Valid()
      modifies this`operationCount, this`brackets
      ensures Valid()
      ensures operationCount == old(operationCount) + 1 && brackets == old(brackets) + 1
    {
      operationCount := operationCount + 1;
      brackets := brackets + 1;
    }

    /** OperationCompleted: needs a matching earlier OperationStarted; concludes when commenced and nothing is left. */
    method OperationCompleted() returns (allDone: bool)
      requires Valid() && brackets >= 1
      modifies this`operationCount, this`completion, this`addingCompleted, this`brackets
      ensures Valid()
      ensures operationCount == old(operationCount) - 1 && brackets == old(brackets) - 1
      ensures allDone <==> tracksOperations && operationCount == 0
      ensures if completionCommenced && allDone then ConcludedFrom(old(completion), old(addingCompleted))
              else completion == old(completion) && addingCompleted == old(addingCompleted)
    {
      allDone := CountDown();
      brackets := brackets - 1;
    }

    /** Post: count the callback, then queue it; a closed single-thread mailbox refuses it after the count went up. */
    method Post(throws: Option<Exc>) returns (refused: Option<Exc>)
      requires Valid()
      modifies this`operationCount, this`queued, this`leaked
      ensures Valid()
      ensures operationCount == old(operationCount) + 1
      ensures refused.Some? <==> flavor == SingleThread && addingCompleted
      ensures refused.Some? ==> refused.value.Leaf? && refused.value.kind == InvalidOperation
      ensures leaked == old(leaked) + (if refused.Some? then 1 else 0)
      ensures queued == if refused.Some? then old(queued) else old(queued) + [Callback(throws)]
    {
      operationCount := operationCount + 1;
      if flavor == SingleThread && addingCompleted {
        leaked := leaked + 1;
        return Some(Leaf(InvalidOperation, AddingCompletedMessage()));
      }
      WeightAppend(queued, [Callback(throws)]);
      queued := queued + [Callback(throws)];
      refused := None;
    }

    /**
     * Run: open a scope and schedule the task on the apartment.  StartNew
     * creates its task as queued by the runtime, so even a token that is
     * already canceled does not cancel it early: the task is still posted,
     * and only when it runs does it end canceled, without running the lambda
     * (so an async lambda leaves no inner task).  A closed single-thread
     * mailbox makes the scheduling throw, leaving both counts behind.
     * `isAsync` picks the overloads for an async lambda, whose scheduled task
     * is unwrapped into the task the lambda returns.
     */
    method Run(outcome: TaskExtensions.Task, tokenCanceled: bool, isAsync: bool) returns (thrown: Option<Exc>)
      requires Valid()
      modifies this`operationCount, this`queued, this`leaked
      ensures Valid()
      ensures operationCount == old(operationCount) + 2
      ensures thrown.Some? <==> flavor == SingleThread && addingCompleted
      ensures thrown.Some? ==> thrown.value == Leaf(Other("TaskSchedulerException"), SchedulerMessage())
      ensures thrown.Some? ==> queued == old(queued)
      ensures thrown.None? ==> queued == old(queued) + [if tokenCanceled then ScopedTask(TaskExtensions.Canceled(None))
                                                         else if isAsync then AsyncTask(outcome) else ScopedTask(outcome)]
      ensures leaked == old(leaked) + (if thrown.Some? then 2 else 0)
    {
      if tokenCanceled {
        thrown := RunScheduled(TaskExtensions.Canceled(None), false);
      } else {
        thrown := RunScheduled(outcome, isAsync);
      }
    }

    /** Scheduling the Run task: the scope opens and the task is posted, or refused by a closed single-thread mailbox. */
    method RunScheduled(outcome: TaskExtensions.Task, isAsync: bool) returns (thrown: Option<Exc>)
      requires Valid()
      modifies this`operationCount, this`queued, this`leaked
      ensures Valid()
      ensures operationCount == old(operationCount) + 2
      ensures thrown.Some? <==> flavor == SingleThread && addingCompleted
      ensures thrown.Some? ==> thrown.value == Leaf(Other("TaskSchedulerException"), SchedulerMessage())
      ensures queued == if thrown.Some? then old(queued) else old(queued) + [if isAsync then AsyncTask(outcome) else ScopedTask(outcome)]
      ensures leaked == old(leaked) + (if thrown.Some? then 2 else 0)
    {
      operationCount := operationCount + 2;
      if flavor == SingleThread && addingCompleted {
        leaked := leaked + 2;
        return Some(Leaf(Other("TaskSchedulerException"), SchedulerMessage()));
      }
      var item := if isAsync then AsyncTask(outcome) else ScopedTask(outcome);
      WeightAppend(queued, [item]);
      queued := queued + [item];
      thrown := None;
    }

    /**
     * The task an async Run lambda returned ends: the Run task takes its final
     * state, and the scope's continuation releases the scope's unit.
     */
    method InnerTaskEnded(k: nat)
      requires Valid() && k < |awaiting|
      modifies this`operationCount, this`awaiting, this`finished, this`completion, this`addingCompleted
      ensures Valid()
      ensures awaiting == old(awaiting[..k] + awaiting[k + 1..])
      ensures finished == old(finished) + [old(awaiting[k])]
      ensures operationCount == old(operationCount) - 1
      ensures if completionCommenced && tracksOperations && operationCount == 0 then ConcludedFrom(old(completion), old(addingCompleted))
              else completion == old(completion) && addingCompleted == old(addingCompleted)
    {
      var outcome := awaiting[k];
      awaiting := awaiting[..k] + awaiting[k + 1..];
      finished := finished + [outcome];
      var _ := CountDown();
    }

    /**
     * Run one dequeued item on a thread whose current context is this
     * apartment's: record a callback's fault first, then release the units
     * the item gives back; an async Run task leaves its inner task running.
     */
    method RunItem(item: WorkItem, slot: ContextSlot)
      requires operationCount >= Released([item])
      requires slot.current == Some(contextId)
      modifies this`faults, this`finished, this`operationCount, this`completion, this`addingCompleted, this`awaiting
      ensures faults == old(faults) + ThrownBy([item])
      ensures finished == old(finished) + OutcomesOf([item])
      ensures awaiting == old(awaiting) + AwaitedBy([item])
      ensures operationCount == old(operationCount) - Released([item])
      ensures if completionCommenced && tracksOperations && operationCount == 0 then ConcludedFrom(old(completion), old(addingCompleted))
              else completion == old(completion) && addingCompleted == old(addingCompleted)
    {
      match item
      case Callback(throws) =>
        if throws.Some? {
          AddException(throws.value);
        }
        var _ := CountDown();
      case ScopedTask(outcome) =>
        finished := finished + [outcome];
        var _ := CountDown();   // the Run scope's continuation runs synchronously when the task ends
        var _ := CountDown();   // then the posted callback's own completion
      case AsyncTask(outcome) =>
        awaiting := awaiting + [outcome];
        var _ := CountDown();   // the lambda has returned its task: only the posted callback completes
    }

    /**
     * A thread-pool worker running the callback at `i` (the pool keeps no order):
     * the callback runs with this apartment's context current (RunItem demands
     * it), and the thread's previous context is restored however the callback ends.
     */
    method RunPooled(i: nat, slot: ContextSlot)
      requires Valid() && flavor == ThreadPool && i < |queued|
      modifies this`faults, this`finished, this`operationCount, this`completion, this`addingCompleted, this`queued, this`awaiting, slot
      ensures Valid()
      ensures slot.current == old(slot.current)
      ensures queued == old(queued[..i] + queued[i + 1..])
      ensures faults == old(faults) + ThrownBy([old(queued[i])])
      ensures finished == old(finished) + OutcomesOf([old(queued[i])])
      ensures awaiting == old(awaiting) + AwaitedBy([old(queued[i])])
      ensures operationCount == old(operationCount) - Released([old(queued[i])])
      ensures if completionCommenced && tracksOperations && operationCount == 0 then ConcludedFrom(old(completion), old(addingCompleted))
              else completion == old(completion)
    {
      var item := queued[i];
      WeightRemoveAt(queued, i);
      queued := queued[..i] + queued[i + 1..];
      var saved := slot.current;
      slot.current := Some(contextId);
      RunItem(item, slot);
      slot.current := saved;
    }

    /** The single-thread worker taking the oldest mailbox item. */
    method RunNext(slot: ContextSlot)
      requires Valid() && flavor == SingleThread && queued != []
      requires slot.current == Some(contextId)
      modifies this`faults, this`finished, this`operationCount, this`completion, this`addingCompleted, this`queued, this`awaiting
      ensures Valid()
      ensures queued == old(queued[1..])
      ensures faults == old(faults) + ThrownBy([old(queued[0])])
      ensures finished == old(finished) + OutcomesOf([old(queued[0])])
      ensures awaiting == old(awaiting) + AwaitedBy([old(queued[0])])
      ensures operationCount == old(operationCount) - Released([old(queued[0])])
      ensures completion == old(completion)
      ensures addingCompleted == (old(addingCompleted) || (completionCommenced && tracksOperations && operationCount == 0))
    {
      var item := queued[0];
      assert queued == [item] + queued[1..];
      ItemsAppend([item], queued[1..]);
      WeightSplit([item]);
      queued := queued[1..];
      RunItem(item, slot);
    }

    /**
     * The worker's consuming loop, on the thread whose current context is
     * this apartment's: run every mailbox item in FIFO order, then, if the
     * mailbox is closed, leave the loop and try to resolve completion exactly
     * once.
     */
    method Pump(slot: ContextSlot) returns (exited: bool)
      requires Valid() && flavor == SingleThread
      requires slot.current == Some(contextId)
      modifies this`faults, this`finished, this`operationCount, this`completion, this`addingCompleted, this`queued, this`workerExited, this`awaiting
      ensures Valid()
      ensures queued == []
      ensures faults == old(faults) + ThrownBy(old(queued))
      ensures finished == old(finished) + OutcomesOf(old(queued))
      ensures awaiting == old(awaiting) + AwaitedBy(old(queued))
      ensures operationCount == old(operationCount) - Released(old(queued))
      ensures exited <==> !old(workerExited) && workerExited
      ensures workerExited <==> addingCompleted
      ensures exited ==> old(completion) == Pending && completion == Resolution(faults)
      ensures !exited ==> completion == old(completion)
    {
      Drain(slot);
      if addingCompleted && !workerExited {
        var _ := TrySetCompletion();
        workerExited := true;
        return true;
      }
      exited := false;
    }

    /** The items of the mailbox, run one by one in FIFO order until it is empty. */
    method Drain(slot: ContextSlot)
      requires Valid() && flavor == SingleThread
      requires slot.current == Some(contextId)
      modifies this`faults, this`finished, this`operationCount, this`completion, this`addingCompleted, this`queued, this`awaiting
      ensures Valid()
      ensures queued == []
      ensures faults == old(faults) + ThrownBy(old(queued))
      ensures finished == old(finished) + OutcomesOf(old(queued))
      ensures awaiting == old(awaiting) + AwaitedBy(old(queued))
      ensures operationCount == old(operationCount) - Released(old(queued))
      ensures completion == old(completion)
      ensures addingCompleted ==> completionCommenced
    {
      ghost var items := queued;
      var k := 0;
      while queued != []
        invariant Valid()
        invariant 0 <= k <= |items| && queued == items[k..]
        invariant faults == old(faults) + ThrownBy(items[..k])
        invariant finished == old(finished) + OutcomesOf(items[..k])
        invariant awaiting == old(awaiting) + AwaitedBy(items[..k])
        invariant operationCount == old(operationCount) - Released(items[..k])
        invariant completion == old(completion)
        decreases |queued|
      {
        PrefixStep(items, k);
        assert queued[0] == items[k] && queued[1..] == items[k + 1..];
        RunNext(slot);
        k := k + 1;
      }
      assert items[..k] == items;
    }

    /** The single-thread context's Conclude: CompleteAdding on the mailbox. */
    method CloseMailbox()
      requires Valid() && flavor == SingleThread && completionCommenced
      modifies this`addingCompleted
      ensures Valid() && addingCompleted
    {
      addingCompleted := true;
    }

    /**
     * The value DisposeAsync's finally block produces: one aggregate of all
     * recorded faults, if any.  It decides both when Complete() resolved the
     * promise at once and when DisposeAsync resumes after awaiting it, since
     * the exception that await throws is caught and dropped.
     */
    function FinallyOutcome(): (r: DisposeOutcome)
      reads this
      ensures r != Suspended
      ensures r.Raised? <==> faults != []
      ensures r.Raised? ==> r.e.Aggregate? && r.e.inners == faults
    {
      if faults == [] then Returned
      else Raised(Aggregate((if flavor == ThreadPool then "ThreadPoolApartment" else "SingleThreadApartment") + ".MoveNext", faults))
    }

    /**
     * DisposeAsync up to its first await: a resolved completion returns at once,
     * whatever faults were added since; otherwise Complete() runs and, if that
     * resolved the completion, the finally block decides.
     */
    method DisposeAsync() returns (r: DisposeOutcome)
      requires Valid()
      modifies this`completionCommenced, this`completion, this`addingCompleted
      ensures Valid()
      ensures old(completion) != Pending ==>
                r == Returned && completion == old(completion) &&
                completionCommenced == old(completionCommenced) && addingCompleted == old(addingCompleted)
      ensures old(completion) == Pending ==> completionCommenced
      ensures old(completion) == Pending && completion != Pending ==> r == FinallyOutcome()
      ensures old(completion) == Pending && completion == Pending ==> r == Suspended
    {
      if completion != Pending {
        return Returned;
      }
      var _ := Complete();
      if completion == Pending {
        return Suspended;
      }
      r := FinallyOutcome();
    }

    /** Send is not supported by either context. */
    method Send() returns (thrown: Exc)
      ensures thrown.Leaf? && thrown.kind == NotImplemented && thrown.message == "Send"
    {
      thrown := Leaf(NotImplemented, "Send");
    }

    /** CreateCopy returns the context itself. */
    method CreateCopy() returns (copy: Apartment)
      ensures copy == this
    {
      copy := this;
    }
  }

  // ---------------------------------------------------------------------------
  // Tests/ThreadPoolApartmentTest.cs and the apartment side of Tests/ExtensionsTest.cs
  // ---------------------------------------------------------------------------

  /** The callbacks that async void methods post to rethrow `fs`, one each, in order. */
  function Rethrows(fs: seq<Exc>): (items: seq<WorkItem>)
    ensures |items| == |fs|
  {
    seq(|fs|, k requires 0 <= k < |fs| => Callback(Some(fs[k])))
  }

  /** A thread-pool apartment after Complete() with one bracket open per async void method still to fail. */
  ghost predicate AwaitingFaults(a: Apartment, fs: seq<Exc>)
    reads a
  {
    a.Valid() && a.flavor == ThreadPool && a.tracksOperations && a.completionCommenced &&
    a.leaked == 0 && a.faults == [] && a.awaiting == [] &&
    (|fs| > 0 ==> a.completion == Pending) && (|fs| == 0 ==> a.completion == Succeeded)
  }

  /** Each async void method fails: it posts its exception to the context, then its operation completes. */
  method FailAfterComplete(a: Apartment, fs: seq<Exc>)
    requires AwaitingFaults(a, fs) && a.brackets == |fs| && a.queued == []
    modifies a`operationCount, a`queued, a`leaked, a`completion, a`addingCompleted, a`brackets
    ensures AwaitingFaults(a, fs) && a.brackets == 0 && a.queued == Rethrows(fs)
  {
    var i := 0;
    while i < |fs|
      invariant 0 <= i <= |fs|
      invariant AwaitingFaults(a, fs) && a.brackets == |fs| - i && a.queued == Rethrows(fs[..i])
    {
      assert Rethrows(fs[..i + 1]) == Rethrows(fs[..i]) + [Callback(Some(fs[i]))];
      var _ := a.Post(Some(fs[i]));
      var _ := a.OperationCompleted();
      i := i + 1;
    }
    assert fs[..i] == fs;
  }

  /** The pool runs the posted callbacks; each rethrow is recorded, and the last one resolves completion. */
  method RunRethrows(a: Apartment, worker: ContextSlot, fs: seq<Exc>)
    requires AwaitingFaults(a, fs) && a.brackets == 0 && a.queued == Rethrows(fs)
    modifies a`faults, a`finished, a`operationCount, a`completion, a`addingCompleted, a`queued, a`awaiting, worker
    ensures a.Valid() && a.faults == fs && a.completion == Resolution(fs) && a.operationCount == 0
  {
    var i := 0;
    while i < |fs|
      invariant 0 <= i <= |fs|
      invariant a.Valid() && a.completionCommenced && a.brackets == 0 && a.leaked == 0 && a.awaiting == []
      invariant a.queued == Rethrows(fs[i..]) && a.faults == fs[..i]
      invariant i < |fs| ==> a.completion == Pending
      invariant i == |fs| ==> a.completion == Resolution(a.faults)
    {
      assert a.queued[1..] == Rethrows(fs[i + 1..]);
      assert ThrownBy([a.queued[0]]) == [fs[i]];
      assert fs[..i + 1] == fs[..i] + [fs[i]];
      a.RunPooled(0, worker);
      i := i + 1;
    }
    assert fs[..i] == fs;
  }

  /**
   * The shape of the apartment tests on a thread-pool apartment: `Run` an
   * async lambda that starts one async void method per element of `fs`
   * (YieldingLambda); Complete() while they are pending; each method then fails with its
   * exception, which is posted to the context and run there.  The completion
   * resolves once, after the last of them, with the faults in the order they
   * were posted, and the counter ends at zero.
   */
  method AsyncVoidFaults(fs: seq<Exc>) returns (busyBefore: Option<bool>, resolved: Completion, snapshot: seq<Exc>, busyAfter: Option<bool>)
    ensures busyBefore == Some(|fs| > 0)
    ensures resolved == Resolution(fs)
    ensures snapshot == fs
    ensures busyAfter == Some(false)
  {
    var a, worker := YieldingLambda(|fs|);
    busyBefore := a.AnyBackgroundOperation();
    var _ := a.Complete();
    FailAfterComplete(a, fs);
    RunRethrows(a, worker, fs);
    snapshot := a.GetExceptions();
    resolved := a.completion;
    busyAfter := a.AnyBackgroundOperation();
  }

  /**
   * A fresh thread-pool apartment `Run`s an async lambda that yields once
   * (its continuation is posted to the apartment), then starts `n` async void
   * methods and ends: only the `n` brackets of those methods remain.
   */
  method YieldingLambda(n: nat) returns (a: Apartment, worker: ContextSlot)
    ensures fresh(a) && fresh(worker)
    ensures a.Valid() && a.flavor == ThreadPool && a.tracksOperations && a.completion == Pending && !a.completionCommenced
    ensures a.brackets == n && a.leaked == 0 && a.faults == [] && a.queued == [] && a.awaiting == []
  {
    a := new Apartment(ThreadPool, true, 1);
    worker := new ContextSlot(None);
    var _ := a.Run(TaskExtensions.RanToCompletion, false, true);
    // the lambda runs up to `await Task.Yield()`, whose continuation is posted
    a.RunPooled(0, worker);
    var _ := a.Post(None);
    // the continuation starts the async void methods, then the lambda's task ends
    var i := 0;
    while i < n
      invariant 0 <= i <= n
      invariant a.Valid() && a.flavor == ThreadPool && a.tracksOperations && fresh(a)
      invariant a.brackets == i && a.leaked == 0 && !a.completionCommenced && a.faults == []
      invariant a.queued == [Callback(None)] && a.awaiting == [TaskExtensions.RanToCompletion] && a.completion == Pending
    {
      a.OperationStarted();
      i := i + 1;
    }
    a.InnerTaskEnded(0);
    a.RunPooled(0, worker);
  }

  /**
   * The async overloads of Run keep their scope open until the inner task
   * ends: with that task still running, the apartment is busy and Complete()
   * does not conclude; once it ends, the completion resolves.
   */
  method AsyncScopeScenario() returns (busy: Option<bool>, concluded: bool, beforeEnd: Completion, afterEnd: Completion)
    ensures busy == Some(true)
    ensures !concluded && beforeEnd == Pending
    ensures afterEnd == Succeeded
  {
    var worker := new ContextSlot(None);
    var a := new Apartment(ThreadPool, true, 2);
    var _ := a.Run(TaskExtensions.RanToCompletion, false, true);
    a.RunPooled(0, worker);
    busy := a.AnyBackgroundOperation();
    concluded := a.Complete();
    beforeEnd := a.completion;
    a.InnerTaskEnded(0);
    afterEnd := a.completion;
  }

  /**
   * A token canceled before Run still posts the task: the apartment is busy
   * until the pool runs it, and then it ends canceled with no exception of
   * its own and gives both units back.
   */
  method CanceledTokenScenario() returns (busyBefore: Option<bool>, busyAfter: Option<bool>, ended: seq<TaskExtensions.Task>)
    ensures busyBefore == Some(true) && busyAfter == Some(false)
    ensures ended == [TaskExtensions.Canceled(None)]
  {
    var worker := new ContextSlot(None);
    var a := new Apartment(ThreadPool, true, 3);
    var _ := a.Run(TaskExtensions.RanToCompletion, true, true);
    busyBefore := a.AnyBackgroundOperation();
    a.RunPooled(0, worker);
    busyAfter := a.AnyBackgroundOperation();
    ended := a.finished;
  }

  /** After the single-thread mailbox is closed, Run throws the scheduler exception even for a canceled token. */
  method CanceledTokenClosedMailbox() returns (thrown: Option<Exc>)
    ensures thrown == Some(Leaf(Other("TaskSchedulerException"), SchedulerMessage()))
  {
    var a := new Apartment(SingleThread, true, 4);
    var _ := a.Complete();
    a.CloseMailbox();
    thrown := a.Run(TaskExtensions.RanToCompletion, true, false);
  }

  /** The same lambda through the synchronous overloads leaves nothing running once its task has run, and Complete() concludes. */
  method SyncScopeScenario() returns (busy: Option<bool>, concluded: bool, resolved: Completion)
    ensures busy == Some(false)
    ensures concluded && resolved == Succeeded
  {
    var worker := new ContextSlot(None);
    var a := new Apartment(ThreadPool, true, 1);
    var _ := a.Run(TaskExtensions.RanToCompletion, false, false);
    a.RunPooled(0, worker);
    busy := a.AnyBackgroundOperation();
    concluded := a.Complete();
    resolved := a.completion;
  }

  /**
   * Tests/ThreadPoolApartmentTest.cs: two async void methods fault after
   * Complete(); the completion faults with exactly those two exceptions in
   * order, and awaiting it through WithAggregatedExceptions throws one
   * aggregate of both.
   */
  method TwoFaultsScenario() returns (awaited: Option<Exc>, busyBefore: Option<bool>, busyAfter: Option<bool>)
    ensures busyBefore == Some(true) && busyAfter == Some(false)
    ensures awaited == Some(Aggregate(TaskExtensions.AggregateMessage, [Leaf(InvalidOperation, ""), Leaf(NotSupported, "")]))
  {
    var fs := [Leaf(InvalidOperation, ""), Leaf(NotSupported, "")];
    var resolved, snapshot;
    busyBefore, resolved, snapshot, busyAfter := AsyncVoidFaults(fs);
    TaskExtensions.AggregatedTwoLeaves(fs[0], fs[1]);
    awaited := TaskExtensions.Await(TaskExtensions.WithAggregatedExceptions(CompletionTask(resolved)));
  }

  /**
   * The Observe test of Tests/ExtensionsTest.cs: what the four Observe calls
   * rethrow reaches the apartment, so its fault list and its completion hold
   * the two cancellations, then InvalidOperation, then NotImplemented.
   */
  method ObservedFaultsScenario() returns (snapshot: seq<Exc>, resolved: Completion)
    ensures snapshot == [Leaf(TaskCanceled, TaskExtensions.CanceledMessage), Leaf(TaskCanceled, TaskExtensions.CanceledMessage),
                         Leaf(InvalidOperation, ""), Leaf(NotImplemented, "")]
    ensures resolved == FaultedWith(snapshot)
  {
    var w := TaskExtensions.TestWork();
    var os := [TaskExtensions.Observe(w[0], false), TaskExtensions.Observe(w[1], true),
               TaskExtensions.Observe(w[2], true), TaskExtensions.Observe(w[3], true)];
    TaskExtensions.ObserveScenario();
    var busyBefore, busyAfter;
    busyBefore, resolved, snapshot, busyAfter := AsyncVoidFaults(TaskExtensions.Rethrown(os));
  }
}
