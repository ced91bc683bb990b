/**
 * The pumping wait of Tests/SingleThreadApartment.cs: the classifier of
 * native wait results and the `Wait` loop with its remaining-timeout
 * arithmetic.
 *
 * The Win32 calls become inputs: the zero-timeout probe's result, and one
 * `Step` per round of the loop holding what MsgWaitForMultipleObjectsEx
 * returned, whether PeekMessage removed a message, and the tick count read
 * afterwards.  Should the steps run out before the loop returns, the
 * outcome is `Unfinished`.
 */
module NativeWait {
  import opened Wrappers
  import opened Faults
  import opened MachineInts

  const WAIT_OBJECT_0: u32 := 0
  const WAIT_ABANDONED_0: u32 := 0x80
  const WAIT_IO_COMPLETION: u32 := 0xC0
  const WAIT_TIMEOUT: u32 := 0x102
  const WAIT_FAILED: u32 := 0xFFFF_FFFF
  /** WaitHandle.WaitTimeout */
  const WaitTimeout: int := 258
  /** Timeout.Infinite */
  const Infinite: int := -1

  datatype Check =
    | Checked(success: bool, managed: int)
    | Throws(e: Exc)

  /** `WAIT_ABANDONED_0 + count` in unsigned 32-bit arithmetic. */
  function AbandonedEnd(count: u32): u32
  {
    ((WAIT_ABANDONED_0 as int + count as int) % 0x1_0000_0000) as u32
  }

  /** IsNativeWaitSuccessful: the if-chain over the native result, in the source's order. */
  function IsNativeWaitSuccessful(count: u32, native: u32, lastError: int): (r: Check)
    ensures native == WAIT_TIMEOUT ==> r == Checked(false, WaitTimeout)
    ensures (r.Checked? && r.success) <==> native != WAIT_TIMEOUT && native < count
    ensures r.Checked? && r.success ==> r.managed == Wrap32(native as int)
    ensures r.Checked? && r.success && count < 0x8000_0000 ==> 0 <= r.managed < count as int && r.managed == native as int
    ensures r.Checked? && !r.success ==> r.managed == WaitTimeout || native == count || native == WAIT_IO_COMPLETION
    ensures r.Throws? ==> r.e.Leaf? && r.e.kind in {AbandonedMutex, Win32(lastError), InvalidOperation}
  {
    if native == WAIT_TIMEOUT then Checked(false, WaitTimeout)
    else
      var managed := Wrap32(native as int - WAIT_OBJECT_0 as int);
      if native as int == WAIT_OBJECT_0 as int + count as int then Checked(false, managed)
      else if WAIT_OBJECT_0 <= native && native as int < WAIT_OBJECT_0 as int + count as int then Checked(true, managed)
      else if WAIT_ABANDONED_0 <= native && native < AbandonedEnd(count) then Throws(Leaf(AbandonedMutex, ""))
      else if native == WAIT_IO_COMPLETION then Checked(false, managed)
      else if native == WAIT_FAILED then Throws(Leaf(Win32(lastError), ""))
      else Throws(Leaf(InvalidOperation, ""))
  }

  /** The classes of native results, for any handle count up to MAXIMUM_WAIT_OBJECTS (64). */
  lemma NativeWaitClasses(count: u32, lastError: int)
    requires 1 <= count <= 64
    ensures IsNativeWaitSuccessful(count, WAIT_TIMEOUT, lastError) == Checked(false, WaitTimeout)
    ensures forall i: u32 :: i < count ==> IsNativeWaitSuccessful(count, i, lastError) == Checked(true, i as int)
    ensures IsNativeWaitSuccessful(count, count, lastError) == Checked(false, count as int)
    ensures forall i: u32 :: WAIT_ABANDONED_0 <= i < WAIT_ABANDONED_0 + count ==> IsNativeWaitSuccessful(count, i, lastError) == Throws(Leaf(AbandonedMutex, ""))
    ensures IsNativeWaitSuccessful(count, WAIT_IO_COMPLETION, lastError) == Checked(false, WAIT_IO_COMPLETION as int)
    ensures IsNativeWaitSuccessful(count, WAIT_FAILED, lastError) == Throws(Leaf(Win32(lastError), ""))
    ensures forall i: u32 ::
              (i != WAIT_TIMEOUT && i > count && !(WAIT_ABANDONED_0 <= i < WAIT_ABANDONED_0 + count) &&
               i != WAIT_IO_COMPLETION && i != WAIT_FAILED) ==>
              IsNativeWaitSuccessful(count, i, lastError) == Throws(Leaf(InvalidOperation, ""))
  {
    assert AbandonedEnd(count) == WAIT_ABANDONED_0 + count;
  }

  /** One round of the pumping loop, as the environment answers it. */
  datatype Step = Step(native: u32, peeked: bool, tick: int)

  datatype WaitOutcome =
    | Returned(value: int)
    | Raised(e: Exc)
    | Unfinished

  /** The remaining timeout after `tick`: the wrapped lapse since `start` taken off `timeout`, not below zero. */
  function Remaining(timeout: int, start: int, tick: int): (r: int)
    ensures r >= 0
    ensures Wrap32(timeout - Wrap32(tick - start)) > 0 ==> r == Wrap32(timeout - Wrap32(tick - start))
    ensures Wrap32(timeout - Wrap32(tick - start)) <= 0 ==> r == 0
  {
    var lapse := Wrap32(tick - start);
    var left := Wrap32(timeout - lapse);
    if left > 0 then left else 0
  }

  /** The wait pumps: `pump` is set, and the handle array is non-null, non-empty and not a WaitAll over several handles. */
  predicate Pumps(pump: bool, handles: Option<seq<nat>>, waitAll: bool)
  {
    pump && handles.Some? && |handles.value| > 0 && !(waitAll && |handles.value| > 1)
  }

  /** A native result after which the loop goes on: checked, no handle signalled, and not a timeout. */
  predicate Continues(c: Check)
  {
    c.Checked? && !c.success && c.managed != WaitTimeout
  }

  /** After a round, time is left: the wait is infinite, or the remaining timeout is positive. */
  predicate TimeLeft(timeout: int, startTick: int, s: Step)
  {
    timeout == Infinite || Remaining(timeout, startTick, s.tick) > 0
  }

  /** The number of the first `n` rounds whose PeekMessage removed a message. */
  function Peeked(steps: seq<Step>, n: nat): (m: nat)
    requires n <= |steps|
    ensures m <= n
  {
    if n == 0 then 0 else Peeked(steps, n - 1) + (if steps[n - 1].peeked then 1 else 0)
  }

  /**
   * How the round `last` ends the loop with `r`: Unfinished means it went on
   * with time left; otherwise its check throws, signals a handle or times
   * out, or it went on and the remaining time reached zero.
   */
  predicate LastRound(c: Check, timeout: int, startTick: int, last: Step, r: WaitOutcome)
  {
    if r == Unfinished then Continues(c) && TimeLeft(timeout, startTick, last)
    else (c.Throws? && r == Raised(c.e)) ||
         (c.Checked? && (c.success || c.managed == WaitTimeout) && r == Returned(c.managed)) ||
         (Continues(c) && !TimeLeft(timeout, startTick, last) && r == Returned(WaitTimeout))
  }

  /**
   * How one round of the loop ends: a throwing check raises, a signalled
   * handle or a native timeout returns the managed result, and a round that
   * goes on returns WaitTimeout once no time is left.  None: the loop goes on.
   */
  function RoundEnd(c: Check, timeout: int, startTick: int, s: Step): (r: Option<WaitOutcome>)
    ensures r.None? <==> Continues(c) && TimeLeft(timeout, startTick, s)
    ensures r.Some? ==> r.value != Unfinished && LastRound(c, timeout, startTick, s, r.value)
  {
    if c.Throws? then Some(Raised(c.e))
    else if c.success || c.managed == WaitTimeout then Some(Returned(c.managed))
    else if timeout != Infinite && Remaining(timeout, startTick, s.tick) <= 0 then Some(Returned(WaitTimeout))
    else None
  }

  /**
   * How the zero-timeout probe `c` bears on the outcome: when no round ran
   * and the wait ended, the probe threw or found a signalled handle; when a
   * round ran, or the rounds ran out, the probe went on.
   */
  predicate ProbeDecides(c: Check, r: WaitOutcome, rounds: nat)
  {
    (rounds == 0 && r != Unfinished ==>
       (c.Throws? && r == Raised(c.e)) || (c.Checked? && c.success && r == Returned(c.managed))) &&
    (rounds > 0 || r == Unfinished ==> c.Checked? && !c.success)
  }

  /**
   * The loop ended with `r` after `rounds` rounds: the rounds before the last
   * went on, the last one decided as LastRound says, and `dispatched` counts
   * the peeked messages of the rounds that went on.
   */
  predicate RoundsDecide(count: u32, lastError: int, timeout: int, startTick: int, steps: seq<Step>,
                         rounds: nat, r: WaitOutcome, dispatched: nat)
  {
    0 < rounds <= |steps| ==>
      var c := IsNativeWaitSuccessful(count, steps[rounds - 1].native, lastError);
      WentOn(count, lastError, timeout, startTick, steps, rounds - 1) &&
      LastRound(c, timeout, startTick, steps[rounds - 1], r) &&
      dispatched == Peeked(steps, rounds - 1) + (if Continues(c) && steps[rounds - 1].peeked then 1 else 0)
  }

  /**
   * SingleThreadSyncContext.Wait.  `handles` is the handle array (None for
   * null), `defaultWait` what the non-pumping base wait returns, `probe` the
   * result of the zero-timeout check, `startTick` the tick count read before
   * the loop.  `passed` lists the timeouts handed to the native wait, one per
   * round; `dispatched` counts the messages dispatched.
   *
   * When it pumps: a probe that throws or finds a signalled handle decides
   * at once (ProbeDecides); otherwise every round but the last went on, and
   * the last one decides (RoundsDecide).
   */
  method Wait(pump: bool, handles: Option<seq<nat>>, waitAll: bool, timeout: int, defaultWait: int,
              probe: u32, startTick: int, steps: seq<Step>, lastError: int)
    returns (r: WaitOutcome, passed: seq<u32>, dispatched: nat)
    requires -0x8000_0000 <= timeout < 0x8000_0000
    requires handles.Some? ==> |handles.value| < 0x8000_0000
    ensures !pump ==> r == Returned(defaultWait) && passed == []
    ensures pump && (handles.None? || |handles.value| == 0) ==> r == Raised(Leaf(ArgumentNull, "")) && passed == []
    ensures pump && handles.Some? && waitAll && |handles.value| > 1 ==> r == Raised(Leaf(NotSupported, "WaitAll for multiple handles on a STA thread is not supported.")) && passed == []
    ensures pump && handles.Some? && r.Returned? ==> 0 <= r.value < |handles.value| || r.value == WaitTimeout
    ensures r.Raised? ==> r.e.Leaf?
    ensures |passed| <= |steps|
    ensures |passed| > 0 ==> passed[0] == ToUInt(timeout)
    ensures forall k :: 1 <= k < |passed| ==> passed[k] == ToUInt(After(timeout, startTick, steps[k - 1]))
    ensures forall k :: 1 <= k < |passed| ==> passed[k] > 0
    ensures r == Unfinished ==> |passed| == |steps|
    ensures dispatched <= |passed|
    ensures Pumps(pump, handles, waitAll) ==>
              ProbeDecides(IsNativeWaitSuccessful(|handles.value| as u32, probe, lastError), r, |passed|) &&
              RoundsDecide(|handles.value| as u32, lastError, timeout, startTick, steps, |passed|, r, dispatched)
  {
    passed, dispatched := [], 0;
    if !pump {
      return Returned(defaultWait), passed, dispatched;
    }
    if handles.None? || |handles.value| == 0 {
      return Raised(Leaf(ArgumentNull, "")), passed, dispatched;
    }
    var count := |handles.value| as u32;
    if waitAll && count > 1 {
      return Raised(Leaf(NotSupported, "WaitAll for multiple handles on a STA thread is not supported.")), passed, dispatched;
    }
    var check := IsNativeWaitSuccessful(count, probe, lastError);
    if check.Throws? {
      return Raised(check.e), passed, dispatched;
    }
    if check.success {
      return Returned(check.managed), passed, dispatched;
    }
    r, passed, dispatched := PumpRounds(count, timeout, startTick, steps, lastError);
    if |passed| > 0 {
      PassedPositive(count, lastError, timeout, startTick, steps, |passed| - 1);
      LastRoundRange(count, lastError, timeout, startTick, steps[|passed| - 1], r);
    }
  }

  /** The timeout left after round `s`: Infinite stays Infinite; a finite one is recomputed from the tick count. */
  function After(timeout: int, startTick: int, s: Step): int
  {
    if timeout == Infinite then Infinite else Remaining(timeout, startTick, s.tick)
  }

  /** Each of the first `n` rounds went on: its check continued, and time was left after it. */
  predicate WentOn(count: u32, lastError: int, timeout: int, startTick: int, steps: seq<Step>, n: nat)
    requires n <= |steps|
  {
    n == 0 ||
    (WentOn(count, lastError, timeout, startTick, steps, n - 1) &&
     Continues(IsNativeWaitSuccessful(count, steps[n - 1].native, lastError)) &&
     TimeLeft(timeout, startTick, steps[n - 1]))
  }

  /** WentOn, round by round. */
  lemma {:induction false} WentOnEach(count: u32, lastError: int, timeout: int, startTick: int, steps: seq<Step>, n: nat)
    requires n <= |steps|
    ensures WentOn(count, lastError, timeout, startTick, steps, n) <==>
            forall k :: 0 <= k < n ==>
              Continues(IsNativeWaitSuccessful(count, steps[k].native, lastError)) && TimeLeft(timeout, startTick, steps[k])
  {
    if n > 0 {
      WentOnEach(count, lastError, timeout, startTick, steps, n - 1);
    }
  }

  /** After rounds that went on, the timeout handed to the next round is positive, or INFINITE as an unsigned value. */
  lemma PassedPositive(count: u32, lastError: int, timeout: int, startTick: int, steps: seq<Step>, n: nat)
    requires -0x8000_0000 <= timeout < 0x8000_0000
    requires n <= |steps|
    requires WentOn(count, lastError, timeout, startTick, steps, n)
    ensures forall k :: 0 <= k < n ==> ToUInt(After(timeout, startTick, steps[k])) > 0
  {
    WentOnEach(count, lastError, timeout, startTick, steps, n);
  }

  /** The round that ends the loop returns a handle index or WaitTimeout, and raises only leaves. */
  lemma LastRoundRange(count: u32, lastError: int, timeout: int, startTick: int, last: Step, r: WaitOutcome)
    requires 0 < count < 0x8000_0000
    requires LastRound(IsNativeWaitSuccessful(count, last.native, lastError), timeout, startTick, last, r)
    ensures r.Returned? ==> 0 <= r.value < count as int || r.value == WaitTimeout
    ensures r.Raised? ==> r.e.Leaf?
  {
  }

  /** The rounds of Wait's loop, once the probe has not decided. */
  method PumpRounds(count: u32, timeout: int, startTick: int, steps: seq<Step>, lastError: int)
    returns (r: WaitOutcome, passed: seq<u32>, dispatched: nat)
    ensures |passed| <= |steps|
    ensures |passed| > 0 ==> passed[0] == ToUInt(timeout)
    ensures forall k :: 1 <= k < |passed| ==> passed[k] == ToUInt(After(timeout, startTick, steps[k - 1]))
    ensures r == Unfinished ==> |passed| == |steps|
    ensures r != Unfinished ==> |passed| > 0
    ensures |passed| == 0 ==> dispatched == 0
    ensures RoundsDecide(count, lastError, timeout, startTick, steps, |passed|, r, dispatched)
  {
    passed, dispatched := [], 0;
    var remaining := timeout;
    var i := 0;
    while i < |steps|
      invariant 0 <= i <= |steps| && |passed| == i
      invariant i > 0 ==> passed[0] == ToUInt(timeout)
      invariant forall k :: 1 <= k < i ==> passed[k] == ToUInt(After(timeout, startTick, steps[k - 1]))
      invariant dispatched == Peeked(steps, i)
      invariant WentOn(count, lastError, timeout, startTick, steps, i)
      invariant remaining == if i == 0 then timeout else After(timeout, startTick, steps[i - 1])
    {
      passed := passed + [ToUInt(remaining)];
      var check := IsNativeWaitSuccessful(count, steps[i].native, lastError);
      var end := RoundEnd(check, timeout, startTick, steps[i]);
      if Continues(check) && steps[i].peeked {
        dispatched := dispatched + 1;
      }
      if end.Some? {
        return end.value, passed, dispatched;
      }
      remaining := After(timeout, startTick, steps[i]);
      i := i + 1;
    }
    r := Unfinished;
  }
}
