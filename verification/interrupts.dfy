/** The web build's interrupt manager (src/hardwarecommunication/interrupts_web.cc): the table of
    256 handler slots, the single active manager, and the dispatch of an interrupt through its
    handler and the task scheduler. Handlers and managers are named by identities; what a
    handler's HandleInterrupt and the task manager's Schedule do to the stack pointer are
    function parameters. */
module Interrupts {
  import opened Ints
  import opened Wrappers

  const SLOTS: nat := 256

  type HandlerId = nat
  type ManagerId = nat
  type Slots = s: seq<Option<HandlerId>> | |s| == SLOTS witness seq(SLOTS, _ => None)

  datatype Manager = Manager(
    id: ManagerId,
    handlers: Slots,
    hardwareInterruptOffset: uint16,
    hasTaskManager: bool,
    interruptCount: nat,
    boot: bool)

  /** The constructor: every slot empty, one interrupt counted, not yet booted. */
  function NewManager(id: ManagerId, offset: uint16, hasTaskManager: bool): (m: Manager)
    ensures forall n :: 0 <= n < SLOTS ==> m.handlers[n].None?
    ensures m.interruptCount == 1 && !m.boot
    ensures m.id == id && m.hardwareInterruptOffset == offset && m.hasTaskManager == hasTaskManager
  {
    Manager(id, seq(SLOTS, _ => None), offset, hasTaskManager, 1, false)
  }

  /** The InterruptHandler constructor: with a manager, the handler takes slot `n`, replacing
      whatever was there; without one nothing is registered. */
  function Register(m: Option<Manager>, n: uint8, h: HandlerId): (r: Option<Manager>)
    ensures m.None? <==> r.None?
    ensures r.Some? ==> r.value == m.value.(handlers := r.value.handlers)
    ensures r.Some? ==> r.value.handlers[n] == Some(h)
    ensures r.Some? ==> forall k :: 0 <= k < SLOTS && k != n ==> r.value.handlers[k] == m.value.handlers[k]
  {
    match m
    case None => None
    case Some(mgr) => Some(mgr.(handlers := mgr.handlers[n := Some(h)]))
  }

  /** The InterruptHandler destructor: slot `n` is cleared only if it still holds this handler. */
  function Unregister(m: Option<Manager>, n: uint8, h: HandlerId): (r: Option<Manager>)
    ensures m.None? <==> r.None?
    ensures r.Some? ==> r.value == m.value.(handlers := r.value.handlers)
    ensures r.Some? && m.value.handlers[n] == Some(h) ==> r.value.handlers[n].None?
    ensures r.Some? && m.value.handlers[n] != Some(h) ==> r.value == m.value
    ensures r.Some? ==> forall k :: 0 <= k < SLOTS && k != n ==> r.value.handlers[k] == m.value.handlers[k]
  {
    match m
    case None => None
    case Some(mgr) =>
      if mgr.handlers[n] == Some(h) then Some(mgr.(handlers := mgr.handlers[n := None]))
      else m
  }

  /** A handler constructed and destroyed leaves its slot empty, even if the slot had an earlier
      occupant, and every other slot as it was. */
  lemma RegisterThenUnregister(m: Manager, n: uint8, h: HandlerId)
    ensures var r := Unregister(Register(Some(m), n, h), n, h).value;
      r.handlers[n].None? && forall k :: 0 <= k < SLOTS && k != n ==> r.handlers[k] == m.handlers[k]
  {
  }

  /** A handler whose slot was taken over by a later one does not clear the newcomer when it is
      destroyed. */
  lemma ReplacedHandlerKeepsSlot(m: Manager, n: uint8, first: HandlerId, second: HandlerId)
    requires first != second
    ensures Unregister(Register(Register(Some(m), n, first), n, second), n, first) == Register(Register(Some(m), n, first), n, second)
    ensures Unregister(Register(Register(Some(m), n, first), n, second), n, first).value.handlers[n] == Some(second)
  {
  }

  // ---------------------------------------------------------------------------
  // The active manager

  /** Activate: the active manager, if any, is deactivated, and this one becomes active. With a
      single active pointer both steps land on the same result: only this manager is active. */
  function Activate(active: Option<ManagerId>, self: ManagerId): (r: Option<ManagerId>)
    ensures r == Some(self)
    ensures forall other :: other != self ==> r != Some(other)
  {
    Some(self)
  }

  /** Deactivate: the active manager is cleared only if it is this one. */
  function Deactivate(active: Option<ManagerId>, self: ManagerId): (r: Option<ManagerId>)
    ensures active == Some(self) ==> r.None?
    ensures active != Some(self) ==> r == active
  {
    if active == Some(self) then None else active
  }

  /** Activating and then deactivating the same manager leaves none active; deactivating a
      manager that is not the active one changes nothing. */
  lemma ActivateThenDeactivate(active: Option<ManagerId>, self: ManagerId, other: ManagerId)
    requires other != self
    ensures Deactivate(Activate(active, self), self).None?
    ensures Deactivate(Activate(active, self), other) == Some(self)
  {
  }

  // ---------------------------------------------------------------------------
  // Dispatch

  /** DoHandleInterrupt: the stack pointer goes through the slot's handler if there is one, then
      through the scheduler when the (8-bit) number equals the (16-bit) hardware offset and
      there is a task manager. */
  function DoHandleInterrupt(m: Manager, n: uint8, esp: uint32,
                             run: (HandlerId, uint32) -> uint32, schedule: uint32 -> uint32): (r: uint32)
  {
    var handled := if m.handlers[n].Some? then run(m.handlers[n].value, esp) else esp;
    if n == m.hardwareInterruptOffset && m.hasTaskManager then schedule(handled) else handled
  }

  /** handleInterrupt: dispatches to the active manager; with none, the stack pointer is returned
      as it came. */
  function HandleInterrupt(active: Option<Manager>, n: uint8, esp: uint32,
                           run: (HandlerId, uint32) -> uint32, schedule: uint32 -> uint32): (r: uint32)
    ensures active.None? ==> r == esp
  {
    match active
    case None => esp
    case Some(m) => DoHandleInterrupt(m, n, esp, run, schedule)
  }

  /** The base class's HandleInterrupt returns the stack pointer it is given. */
  function DefaultHandler(h: HandlerId, esp: uint32): (r: uint32)
    ensures r == esp
  {
    esp
  }

  /** The stack pointer comes out of a dispatch changed only by the registered handler and, on
      the timer interrupt with a task manager, the scheduler: with neither, it is untouched. */
  lemma DispatchThreadsEsp(m: Manager, n: uint8, esp: uint32,
                           run: (HandlerId, uint32) -> uint32, schedule: uint32 -> uint32)
    ensures m.handlers[n].None? && !(n == m.hardwareInterruptOffset && m.hasTaskManager)
      ==> DoHandleInterrupt(m, n, esp, run, schedule) == esp
    ensures m.handlers[n].Some? && !(n == m.hardwareInterruptOffset && m.hasTaskManager)
      ==> DoHandleInterrupt(m, n, esp, run, schedule) == run(m.handlers[n].value, esp)
    ensures m.handlers[n].Some? && n == m.hardwareInterruptOffset && m.hasTaskManager
      ==> DoHandleInterrupt(m, n, esp, run, schedule) == schedule(run(m.handlers[n].value, esp))
    ensures m.handlers[n].None? && n == m.hardwareInterruptOffset && m.hasTaskManager
      ==> DoHandleInterrupt(m, n, esp, run, schedule) == schedule(esp)
  {
  }

  /** An offset of 256 or more can never equal an 8-bit interrupt number, so such a manager
      never schedules. */
  lemma WideOffsetNeverSchedules(m: Manager, n: uint8, esp: uint32,
                                 run: (HandlerId, uint32) -> uint32, schedule: uint32 -> uint32)
    requires m.hardwareInterruptOffset >= 256
    ensures DoHandleInterrupt(m, n, esp, run, schedule) == DoHandleInterrupt(m.(hasTaskManager := false), n, esp, run, schedule)
  {
  }

  /** A freshly built manager whose handlers all keep the base class's behaviour, and which has no
      task manager, hands every stack pointer back unchanged. */
  lemma FreshManagerIsIdentity(id: ManagerId, offset: uint16, n: uint8, esp: uint32, schedule: uint32 -> uint32)
    ensures HandleInterrupt(Some(NewManager(id, offset, false)), n, esp, DefaultHandler, schedule) == esp
  {
  }
}
