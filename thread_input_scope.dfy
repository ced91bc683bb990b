/**
 * AppLogic/Helpers/AttachedThreadInputScope.cs: a scope that attaches the
 * calling thread's input queue to the foreground window's thread, with at
 * most one current scope per thread.  The thread-local `s_current` is a
 * `CurrentSlot` object (one per thread); the Win32 results
 * (GetForegroundWindow, GetCurrentThreadId, GetWindowThreadProcessId,
 * AttachThreadInput, GetClassName) are constructor parameters, and the
 * AttachThreadInput calls made are recorded in an `InputQueues` log.
 */
module ThreadInputScope {
  import opened MachineInts
  import opened WinApi

  /** One AttachThreadInput(idAttach, idAttachTo, fAttach) call. */
  datatype AttachThreadInput = AttachThreadInput(idAttach: u32, idAttachTo: u32, attach: bool)

  /** The calls made to AttachThreadInput so far. */
  class InputQueues {
    var calls: seq<AttachThreadInput>

    constructor()
      ensures calls == []
    {
      calls := [];
    }
  }

  /** `s_current` of one thread. */
  class CurrentSlot {
    var current: Scope?

    constructor()
      ensures current == null
    {
      current := null;
    }
  }

  const ConsoleWindowClass := "ConsoleWindowClass"

  /** The attach call the constructor makes: none when the threads are the same. */
  function AttachCalls(currentThreadId: u32, foregroundThreadId: u32): seq<AttachThreadInput>
  {
    if currentThreadId != foregroundThreadId then [AttachThreadInput(currentThreadId, foregroundThreadId, true)] else []
  }

  /** Whether the constructor ends attached. */
  predicate AttachOutcome(currentThreadId: u32, foregroundThreadId: u32, attachSucceeds: bool, className: string)
  {
    currentThreadId == foregroundThreadId || attachSucceeds || className == ConsoleWindowClass
  }

  class Scope {
    const slot: CurrentSlot
    const queues: InputQueues
    const foregroundWindow: Handle
    const foregroundThreadId: u32
    const currentThreadId: u32
    var attached: bool

    predicate IsCurrent()
      reads slot
    {
      slot.current == this
    }

    /** The detach call Dispose makes for this scope now. */
    function DetachCalls(): seq<AttachThreadInput>
      reads this
    {
      if attached && currentThreadId != foregroundThreadId
      then [AttachThreadInput(currentThreadId, foregroundThreadId, false)]
      else []
    }

    /**
     * AttachedThreadInputScope.Create: disposes the thread's current scope,
     * becomes current, and attaches to the foreground thread.  When the
     * threads differ and AttachThreadInput fails, the scope counts as
     * attached only if the foreground window is a console window; it is
     * current either way.
     */
    constructor(slot: CurrentSlot, queues: InputQueues, foregroundWindow: Handle,
                currentThreadId: u32, foregroundThreadId: u32, attachSucceeds: bool, className: string)
      requires slot.current != null ==> slot.current.slot == slot && slot.current.queues == queues
      modifies slot, queues, slot.current
      ensures this.slot == slot && this.queues == queues && this.foregroundWindow == foregroundWindow
      ensures this.currentThreadId == currentThreadId && this.foregroundThreadId == foregroundThreadId
      ensures IsCurrent()
      ensures attached <==> AttachOutcome(currentThreadId, foregroundThreadId, attachSucceeds, className)
      ensures old(slot.current) != null ==> !old(slot.current).attached
      ensures queues.calls == old(queues.calls) +
                              (if old(slot.current) != null then old(slot.current.DetachCalls()) else []) +
                              AttachCalls(currentThreadId, foregroundThreadId)
    {
      var previous := slot.current;
      if previous != null {
        previous.Dispose();
      }
      this.slot := slot;
      this.queues := queues;
      this.foregroundWindow := foregroundWindow;
      this.currentThreadId := currentThreadId;
      this.foregroundThreadId := foregroundThreadId;
      var succeeded := true;
      if currentThreadId != foregroundThreadId {
        queues.calls := queues.calls + [AttachThreadInput(currentThreadId, foregroundThreadId, true)];
        if !attachSucceeds && className != ConsoleWindowClass {
          succeeded := false;
        }
      }
      this.attached := succeeded;
      new;
      slot.current := this;
    }

    /**
     * Dispose: nothing happens unless this scope is current; then the slot
     * is cleared and, if attached, the scope detaches (with a Win32 call
     * only when the threads differ) and is no longer attached.
     */
    method Dispose()
      modifies this, slot, queues
      ensures !old(IsCurrent()) ==> unchanged(this, slot, queues)
      ensures old(IsCurrent()) ==> slot.current == null && !attached &&
                                   queues.calls == old(queues.calls) + old(DetachCalls())
    {
      if slot.current == this {
        slot.current := null;
        if attached {
          attached := false;
          if currentThreadId != foregroundThreadId {
            queues.calls := queues.calls + [AttachThreadInput(currentThreadId, foregroundThreadId, false)];
          }
        }
      }
    }
  }

  /**
   * A `using` block: a scope is created and disposed.  Each attach made is
   * matched by one detach, and the thread is left with no current scope.
   */
  method UsingScope(slot: CurrentSlot, queues: InputQueues, foregroundWindow: Handle,
                    currentThreadId: u32, foregroundThreadId: u32, attachSucceeds: bool, className: string)
    requires slot.current == null
    modifies slot, queues
    ensures slot.current == null
    ensures queues.calls == old(queues.calls) +
                            (if currentThreadId != foregroundThreadId
                             then [AttachThreadInput(currentThreadId, foregroundThreadId, true)] +
                                  (if AttachOutcome(currentThreadId, foregroundThreadId, attachSucceeds, className)
                                   then [AttachThreadInput(currentThreadId, foregroundThreadId, false)] else [])
                             else [])
  {
    var scope := new Scope(slot, queues, foregroundWindow, currentThreadId, foregroundThreadId, attachSucceeds, className);
    scope.Dispose();
  }

  /** Disposing twice detaches once: the second Dispose finds the scope no longer current. */
  method DisposeTwice(scope: Scope)
    modifies scope, scope.slot, scope.queues
    ensures !scope.IsCurrent()
    ensures old(scope.IsCurrent()) ==> !scope.attached
    ensures scope.queues.calls == old(scope.queues.calls) + (if old(scope.IsCurrent()) then old(scope.DetachCalls()) else [])
  {
    scope.Dispose();
    scope.Dispose();
  }
}
