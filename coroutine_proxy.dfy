/**
 * The sequential part of Tests/CoroutineProxy.cs: a promise that is set at
 * most once, an unbounded channel that keeps item order and ends in a
 * terminal state, and the cursor that reads it.
 *
 * A routine is given by the items it yields and the exception it ends with,
 * if any.  The lock-step interleaving of two coroutines is scheduling and is
 * not modelled.
 */
module Coroutines {
  import opened Wrappers
  import opened Faults
  import TaskExtensions

  datatype ChannelState = Open | Closed | ClosedWith(error: Exc)

  /** An unbounded channel: what was written, in order, and whether the writer completed it. */
  class Channel<T> {
    var items: seq<T>
    var state: ChannelState

    constructor ()
      ensures items == [] && state == Open
    {
      items := [];
      state := Open;
    }

    /** WriteAsync on an unbounded open channel always succeeds at once. */
    method Write(x: T)
      requires state == Open
      modifies this`items
      ensures items == old(items) + [x]
    {
      items := items + [x];
    }

    /** Writer.Complete() or Writer.Complete(ex). */
    method Complete(error: Option<Exc>)
      requires state == Open
      modifies this`state
      ensures state == if error.None? then Closed else ClosedWith(error.value)
    {
      state := if error.None? then Closed else ClosedWith(error.value);
    }
  }

  /** The proxy's promise of the channel's reader. */
  datatype Promise<T> = Unset | Resolved(channel: Channel<T>) | Canceled

  /** What awaiting AsAsyncEnumerable yields. */
  datatype Awaited<T> = Ready(channel: Channel<T>) | CanceledWait(e: Exc) | Pending

  /** What GetNextAsync yields: the next item, an exception, or nothing yet. */
  datatype Next<T> = Item(value: T) | Failed(e: Exc) | Suspended

  const SetResultMessage := "An attempt was made to transition a task to a final state when it had already completed."
  const OperationCanceledMessage := "The operation was canceled."

  /** What reading past the last item gives, for each channel state. */
  function EndOf<T>(state: ChannelState): (r: Next<T>)
    ensures !r.Item?
    ensures r.Failed? <==> state != Open
  {
    match state
    case Open => Suspended
    case Closed => Failed(Leaf(IndexOutOfRange, "GetNextAsync"))
    case ClosedWith(e) => Failed(e)
  }

  class CoroutineProxy<T> {
    var promise: Promise<T>

    constructor ()
      ensures promise == Unset
    {
      promise := Unset;
    }

    /**
     * Run: a token already canceled cancels the run, with the exception
     * ThrowIfCancellationRequested throws, before the promise is touched; the promise is set before the routine runs, and setting it a
     * second time throws; every yielded item is written in order, then the
     * channel is completed, with the routine's fault if it failed, and that
     * same fault is rethrown.  `outcome` is the final state of Run's task.
     */
    method Run(routine: seq<T>, routineFault: Option<Exc>, tokenCanceled: bool)
      returns (outcome: TaskExtensions.Task, channel: Channel?<T>)
      modifies this`promise
      ensures tokenCanceled ==> outcome == TaskExtensions.Canceled(Some(Leaf(OperationCanceled, OperationCanceledMessage))) &&
                                promise == old(promise) && channel == null
      ensures !tokenCanceled && old(promise) != Unset ==>
                outcome == TaskExtensions.Faulted([Leaf(InvalidOperation, SetResultMessage)]) &&
                promise == old(promise) && channel == null
      ensures !tokenCanceled && old(promise) == Unset ==>
                channel != null && fresh(channel) && promise == Resolved(channel) &&
                channel.items == routine &&
                channel.state == (if routineFault.None? then Closed else ClosedWith(routineFault.value)) &&
                outcome == TaskExtensions.AsyncOutcome(routineFault)
    {
      if tokenCanceled {
        return TaskExtensions.AsyncOutcome(Some(Leaf(OperationCanceled, OperationCanceledMessage))), null;
      }
      var ch := new Channel<T>();
      if promise != Unset {
        return TaskExtensions.AsyncOutcome(Some(Leaf(InvalidOperation, SetResultMessage))), null;
      }
      promise := Resolved(ch);
      var i := 0;
      while i < |routine|
        invariant 0 <= i <= |routine|
        invariant ch.items == routine[..i] && ch.state == Open
        invariant promise == Resolved(ch)
      {
        ch.Write(routine[i]);
        i := i + 1;
        assert ch.items == routine[..i];
      }
      ch.Complete(routineFault);
      outcome := TaskExtensions.AsyncOutcome(routineFault);
      channel := ch;
    }

    /**
     * AsAsyncEnumerable: a canceled token cancels the promise if it is still
     * unset; awaiting then gives the channel, a TaskCanceledException, or
     * nothing yet.
     */
    method AsAsyncEnumerable(tokenCanceled: bool) returns (r: Awaited<T>)
      modifies this`promise
      ensures promise == if tokenCanceled && old(promise) == Unset then Canceled else old(promise)
      ensures promise.Resolved? ==> r == Ready(promise.channel)
      ensures promise.Canceled? ==> r == CanceledWait(Leaf(TaskCanceled, TaskExtensions.CanceledMessage))
      ensures promise.Unset? ==> r == Pending
    {
      if tokenCanceled && promise == Unset {
        promise := Canceled;
      }
      match promise
      case Resolved(ch) => r := Ready(ch);
      case Canceled => r := CanceledWait(Leaf(TaskCanceled, TaskExtensions.CanceledMessage));
      case Unset => r := Pending;
    }
  }

  /** An enumerator over the channel's reader: how many items it has consumed. */
  class Cursor<T> {
    const channel: Channel<T>
    var pos: nat

    constructor (channel: Channel<T>)
      ensures this.channel == channel && pos == 0
    {
      this.channel := channel;
      pos := 0;
    }

    /** GetNextAsync: the next item in write order; past the last, IndexOutOfRange once completed, the fault once faulted. */
    method GetNext() returns (r: Next<T>)
      requires pos <= |channel.items|
      modifies this`pos
      ensures old(pos) < |channel.items| ==> r == Item(channel.items[old(pos)]) && pos == old(pos) + 1
      ensures old(pos) == |channel.items| ==> r == EndOf(channel.state) && pos == old(pos)
    {
      if pos < |channel.items| {
        r := Item(channel.items[pos]);
        pos := pos + 1;
      } else {
        r := EndOf(channel.state);
      }
    }

    /**
     * GetNextAsync(token): the plain GetNextAsync starts first and takes its
     * item; a canceled token then cancels only the continuation, so the item
     * taken is lost to the caller.
     */
    method GetNextWithToken(tokenCanceled: bool) returns (r: Next<T>)
      requires pos <= |channel.items|
      modifies this`pos
      ensures tokenCanceled ==> r == Failed(Leaf(TaskCanceled, TaskExtensions.CanceledMessage))
      ensures pos == if old(pos) < |channel.items| then old(pos) + 1 else old(pos)
      ensures !tokenCanceled && old(pos) < |channel.items| ==> r == Item(channel.items[old(pos)])
      ensures !tokenCanceled && old(pos) == |channel.items| ==> r == EndOf(channel.state)
    {
      r := GetNext();
      if tokenCanceled {
        r := Failed(Leaf(TaskCanceled, TaskExtensions.CanceledMessage));
      }
    }

    /** Calling GetNextAsync until it stops yielding items: the rest of the items in order, then the end. */
    method ReadToEnd() returns (got: seq<T>, last: Next<T>)
      requires pos <= |channel.items|
      modifies this`pos
      ensures got == channel.items[old(pos)..]
      ensures pos == |channel.items|
      ensures last == EndOf(channel.state)
    {
      got := [];
      last := GetNext();
      while last.Item?
        invariant old(pos) <= pos <= |channel.items|
        invariant last.Item? ==> pos >= old(pos) + 1 && last.value == channel.items[pos - 1] &&
                                 got == channel.items[old(pos)..pos - 1]
        invariant !last.Item? ==> got == channel.items[old(pos)..pos] && pos == |channel.items| && last == EndOf(channel.state)
        decreases |channel.items| - pos, if last.Item? then 1 else 0
      {
        got := got + [last.value];
        assert got == channel.items[old(pos)..pos];
        last := GetNext();
      }
    }
  }

  // ---------------------------------------------------------------------------
  // Scenarios
  // ---------------------------------------------------------------------------

  /**
   * A consumer waiting on the proxy, then a run yielding three items: the
   * consumer reads them in order and then gets IndexOutOfRange; a second
   * run on the same proxy faults on SetResult.
   */
  method ForwardingScenario() returns (before: Awaited<string>, got: seq<string>, last: Next<string>, second: TaskExtensions.Task)
    ensures before == Pending
    ensures got == ["1 from A", "2 from A", "3 from A"]
    ensures last == Failed(Leaf(IndexOutOfRange, "GetNextAsync"))
    ensures second == TaskExtensions.Faulted([Leaf(InvalidOperation, SetResultMessage)])
  {
    var proxy := new CoroutineProxy<string>();
    before := proxy.AsAsyncEnumerable(false);
    var outcome, ch := proxy.Run(["1 from A", "2 from A", "3 from A"], None, false);
    var after := proxy.AsAsyncEnumerable(false);
    var cursor := new Cursor(after.channel);
    got, last := cursor.ReadToEnd();
    assert ch.items[0..] == ch.items;
    var ch2;
    second, ch2 := proxy.Run(["again"], None, false);
  }

  /** A consumer whose token is canceled first: it sees a cancellation, and the run that follows faults on SetResult. */
  method CanceledConsumerScenario() returns (seen: Awaited<string>, run: TaskExtensions.Task)
    ensures seen.CanceledWait?
    ensures run == TaskExtensions.Faulted([Leaf(InvalidOperation, SetResultMessage)])
  {
    var proxy := new CoroutineProxy<string>();
    seen := proxy.AsAsyncEnumerable(true);
    var ch;
    run, ch := proxy.Run(["1 from A"], None, false);
  }

  /** A routine that fails after one item: the reader gets the item, then the routine's own exception. */
  method FaultingRoutineScenario() returns (got: seq<string>, last: Next<string>, run: TaskExtensions.Task)
    ensures got == ["1 from A"]
    ensures last == Failed(Leaf(InvalidOperation, "Invalid!"))
    ensures run == TaskExtensions.Faulted([Leaf(InvalidOperation, "Invalid!")])
  {
    var proxy := new CoroutineProxy<string>();
    var ch;
    run, ch := proxy.Run(["1 from A"], Some(Leaf(InvalidOperation, "Invalid!")), false);
    var cursor := new Cursor(ch);
    got, last := cursor.ReadToEnd();
    assert ch.items[0..] == ch.items;
  }
}
