/** The process table and the round-robin scheduler. */
module ProcessTable {
  import opened Bytes

  const MAX_PROCESSES: nat := 16
  const NAME_MAX: nat := 32

  datatype State = Dead | Ready | Running

  /** A process control block; `esp`, `dir` and `kstack` are physical addresses. */
  datatype Pcb = Pcb(pid: nat, state: State, esp: nat, dir: nat, kstack: nat, name: seq<Byte>) {
    predicate Alive() {
      state != Dead
    }

    function StackTop(): nat {
      kstack + 4096
    }
  }

  /** What the scheduler owns: the table, the current slot (negative before the start), the next pid, and the two
      registers it loads on a switch. */
  datatype Sched = Sched(procs: seq<Pcb>, current: int, nextPid: nat, esp0: nat, cr3: nat) {
    predicate Shaped() {
      |procs| == MAX_PROCESSES && current < MAX_PROCESSES
    }

    predicate IsAlive(pid: nat) {
      exists s :: 0 <= s < |procs| && procs[s].pid == pid && procs[s].Alive()
    }
  }

  /** The slot `i` places after `start` around the table. */
  function Around(start: nat, i: nat): nat {
    if start + i < MAX_PROCESSES then start + i else start + i - MAX_PROCESSES
  }

  /** How many places after `start` slot `s` comes up: 1 for the next slot, 16 for `start` itself. */
  function Distance(start: nat, s: nat): nat
    requires start < MAX_PROCESSES && s < MAX_PROCESSES
  {
    if s > start then s - start else s + MAX_PROCESSES - start
  }

  /** The place around the table is the sum modulo its size, and the distance leads to the slot. */
  lemma AroundTable(start: nat, i: nat, s: nat)
    requires start < MAX_PROCESSES && i <= MAX_PROCESSES && s < MAX_PROCESSES
    ensures Around(start, i) == (start + i) % MAX_PROCESSES
    ensures 1 <= Distance(start, s) <= MAX_PROCESSES && (start + Distance(start, s)) % MAX_PROCESSES == s
  {
  }

  ghost predicate NoneReady(procs: seq<Pcb>) {
    forall s :: 0 <= s < |procs| ==> procs[s].state != Ready
  }

  /** Slot `s` is the ready one that comes up first after `start`. */
  ghost predicate FirstReady(procs: seq<Pcb>, start: nat, s: nat)
    requires |procs| == MAX_PROCESSES && start < MAX_PROCESSES && s < MAX_PROCESSES
  {
    procs[s].state == Ready &&
    forall k :: 0 <= k < MAX_PROCESSES && procs[k].state == Ready ==> Distance(start, s) <= Distance(start, k)
  }

  /** The scan for the next ready slot, from `i` places after `start` on; negative when there is none. */
  function Scan(procs: seq<Pcb>, start: nat, i: nat): (r: int)
    requires |procs| == MAX_PROCESSES && start < MAX_PROCESSES && 0 < i
    ensures r < MAX_PROCESSES
    decreases MAX_PROCESSES + 1 - i
  {
    if i > MAX_PROCESSES then -1
    else if procs[Around(start, i)].state == Ready then Around(start, i)
    else Scan(procs, start, i + 1)
  }

  lemma DistanceAround(start: nat, i: nat)
    requires start < MAX_PROCESSES && 0 < i <= MAX_PROCESSES
    ensures Around(start, i) < MAX_PROCESSES && Distance(start, Around(start, i)) == i
  {
  }

  lemma AroundDistance(start: nat, s: nat)
    requires start < MAX_PROCESSES && s < MAX_PROCESSES
    ensures 0 < Distance(start, s) <= MAX_PROCESSES && Around(start, Distance(start, s)) == s
  {
  }

  lemma {:induction false} ScanFrom(procs: seq<Pcb>, start: nat, i: nat)
    requires |procs| == MAX_PROCESSES && start < MAX_PROCESSES && 0 < i <= MAX_PROCESSES + 1
    requires forall k :: 0 <= k < MAX_PROCESSES && procs[k].state == Ready ==> Distance(start, k) >= i
    ensures var r := Scan(procs, start, i); if r < 0 then NoneReady(procs) else FirstReady(procs, start, r)
    decreases MAX_PROCESSES + 1 - i
  {
    if i == MAX_PROCESSES + 1 {
      forall k | 0 <= k < MAX_PROCESSES ensures procs[k].state != Ready { AroundDistance(start, k); }
    } else {
      DistanceAround(start, i);
      if procs[Around(start, i)].state != Ready {
        forall k | 0 <= k < MAX_PROCESSES && procs[k].state == Ready ensures Distance(start, k) >= i + 1 {
          AroundDistance(start, k);
        }
        ScanFrom(procs, start, i + 1);
      }
    }
  }

  /** The scan finds the ready slot that comes up first, or there is none. */
  lemma ScanFinds(procs: seq<Pcb>, start: nat)
    requires |procs| == MAX_PROCESSES && start < MAX_PROCESSES
    ensures var r := Scan(procs, start, 1); if r < 0 then NoneReady(procs) else FirstReady(procs, start, r)
  {
    forall k | 0 <= k < MAX_PROCESSES ensures Distance(start, k) >= 1 { AroundDistance(start, k); }
    ScanFrom(procs, start, 1);
  }

  /** Makes slot `s` the running one, with its kernel stack and page directory loaded. */
  function Enter(sc: Sched, s: nat): Sched
    requires sc.Shaped() && s < MAX_PROCESSES
  {
    sc.(procs := sc.procs[s := sc.procs[s].(state := Running)], current := s,
        esp0 := sc.procs[s].StackTop(), cr3 := sc.procs[s].dir)
  }

  /** A running process that is scheduled away becomes ready again. */
  function Preempted(p: Pcb): Pcb {
    if p.state == Running then p.(state := Ready) else p
  }

  function Scheduled(sc: Sched): (r: Sched)
    requires sc.Shaped()
    ensures r.Shaped()
  {
    if sc.current < 0 then sc
    else
      var next := Scan(sc.procs, sc.current, 1);
      if next < 0 then sc
      else Enter(sc.(procs := sc.procs[sc.current := Preempted(sc.procs[sc.current])]), next)
  }

  /** The first dead slot, or 16. */
  function FreeSlot(procs: seq<Pcb>, i: nat): (r: nat)
    requires i <= |procs|
    ensures i <= r <= |procs| && (r < |procs| ==> procs[r].state == Dead)
    ensures forall k :: i <= k < r ==> procs[k].state != Dead
    decreases |procs| - i
  {
    if i == |procs| || procs[i].state == Dead then i else FreeSlot(procs, i + 1)
  }

  function ShortName(name: seq<Byte>): seq<Byte> {
    if |name| < NAME_MAX then name else name[..NAME_MAX - 1]
  }

  /** The table with a new ready process in its first dead slot. */
  function Created(sc: Sched, esp: nat, dir: nat, kstack: nat, name: seq<Byte>): Sched
    requires sc.Shaped() && FreeSlot(sc.procs, 0) < MAX_PROCESSES
  {
    sc.(procs := sc.procs[FreeSlot(sc.procs, 0) := Pcb(sc.nextPid, Ready, esp, dir, kstack, ShortName(name))],
        nextPid := sc.nextPid + 1)
  }

  /** Only the state of a control block is different. */
  predicate SameBlock(p: Pcb, q: Pcb) {
    q.pid == p.pid && q.esp == p.esp && q.dir == p.dir && q.kstack == p.kstack && q.name == p.name
  }

  /** What entering slot `s` does, in terms of the table before: it runs on its own kernel stack and directory, and no
      other slot changes. */
  ghost predicate Entered(procs: seq<Pcb>, r: Sched, s: nat) {
    && |procs| == |r.procs| == MAX_PROCESSES && s < MAX_PROCESSES && r.current == s
    && r.procs[s].state == Running && r.cr3 == procs[s].dir && r.esp0 == procs[s].kstack + 4096
    && forall t :: 0 <= t < MAX_PROCESSES ==> SameBlock(procs[t], r.procs[t])
  }

  /** The state a process is left in when another one is entered: a dead process stays dead. */
  function LeftAs(state: State): State {
    if state == Running then Ready else state
  }

  /** The scheduler enters the nearest ready slot; the process that was running becomes ready, and nothing else changes.
      Without a ready slot nothing changes at all. */
  lemma ScheduledExact(sc: Sched)
    requires sc.Shaped() && sc.current >= 0
    ensures var r := Scheduled(sc);
            if NoneReady(sc.procs) then r == sc
            else
              && r.current >= 0 && FirstReady(sc.procs, sc.current, r.current) && Entered(sc.procs, r, r.current)
              && r.nextPid == sc.nextPid
              && (sc.current != r.current ==>
                    r.procs[sc.current].state == LeftAs(sc.procs[sc.current].state))
              && forall t :: 0 <= t < MAX_PROCESSES && t != r.current && t != sc.current ==>
                   r.procs[t].state == sc.procs[t].state
  {
    ScanFinds(sc.procs, sc.current);
  }

  /** The scheduler changes no control block but for its state. */
  lemma ScheduledKeepsBlocks(sc: Sched, s: nat)
    requires sc.Shaped() && s < MAX_PROCESSES
    ensures SameBlock(sc.procs[s], Scheduled(sc).procs[s])
  {
    if sc.current >= 0 { ScheduledExact(sc); }
  }

  /** What a creation writes, in terms of the table before: slot `s` holds the new process, ready to run, and no other
      slot changes. The name is cut to 31 bytes. */
  ghost predicate Registered(procs: seq<Pcb>, r: seq<Pcb>, s: nat, pid: nat, esp: nat, dir: nat, kstack: nat,
                             name: seq<Byte>)
  {
    && |procs| == |r| == MAX_PROCESSES && s < MAX_PROCESSES
    && r[s].pid == pid && r[s].state == Ready && r[s].esp == esp && r[s].dir == dir && r[s].kstack == kstack
    && r[s].name <= name && |r[s].name| == (if |name| < 31 then |name| else 31)
    && forall t :: 0 <= t < MAX_PROCESSES && t != s ==> r[t] == procs[t]
  }

  /** A creation takes the first dead slot and the next pid, and does not switch. */
  lemma CreatedExact(sc: Sched, esp: nat, dir: nat, kstack: nat, name: seq<Byte>)
    requires sc.Shaped() && FreeSlot(sc.procs, 0) < MAX_PROCESSES
    ensures var r, s := Created(sc, esp, dir, kstack, name), FreeSlot(sc.procs, 0);
            && sc.procs[s].state == Dead && (forall t :: 0 <= t < s ==> sc.procs[t].state != Dead)
            && Registered(sc.procs, r.procs, s, sc.nextPid, esp, dir, kstack, name)
            && r.nextPid == sc.nextPid + 1 && r.current == sc.current && r.cr3 == sc.cr3 && r.esp0 == sc.esp0
  {
  }
}

module Scheduler {
  import opened Bytes
  import opened ProcessTable

  class Scheduler {
    var procs: seq<Pcb>
    var current: int
    var nextPid: nat
    var esp0: nat
    var cr3: nat

    ghost function Value(): Sched
      reads this
    {
      Sched(procs, current, nextPid, esp0, cr3)
    }

    constructor ()
      ensures Value().Shaped() && current < 0 && nextPid == 1
      ensures forall s :: 0 <= s < MAX_PROCESSES ==> procs[s] == Pcb(0, Dead, 0, 0, 0, [])
    {
      procs := seq(MAX_PROCESSES, _ => Pcb(0, Dead, 0, 0, 0, []));
      current, nextPid, esp0, cr3 := -1, 1, 0, 0;
    }

    method FindFreeSlot() returns (slot: nat)
      requires Value().Shaped()
      ensures slot == FreeSlot(procs, 0)
    {
      slot := 0;
      while slot < MAX_PROCESSES && procs[slot].state != Dead
        invariant slot <= MAX_PROCESSES && FreeSlot(procs, 0) == FreeSlot(procs, slot)
      {
        slot := slot + 1;
      }
    }

    /** Enters a loaded program into the free slot that was found, and returns its pid. */
    method Register(slot: nat, esp: nat, dir: nat, kstack: nat, name: seq<Byte>) returns (pid: nat)
      requires Value().Shaped() && slot == FreeSlot(procs, 0) < MAX_PROCESSES
      modifies this`procs, this`nextPid
      ensures Value().Shaped() && pid == old(nextPid) && Value() == Created(old(Value()), esp, dir, kstack, name)
      ensures Registered(old(procs), procs, slot, pid, esp, dir, kstack, name) && nextPid == pid + 1
    {
      pid := nextPid;
      procs := procs[slot := Pcb(nextPid, Ready, esp, dir, kstack, ShortName(name))];
      nextPid := nextPid + 1;
    }

    method ProcessIsAlive(pid: nat) returns (alive: bool)
      requires Value().Shaped()
      ensures alive <==> Value().IsAlive(pid)
    {
      for i := 0 to MAX_PROCESSES
        invariant forall k :: 0 <= k < i ==> !(procs[k].pid == pid && procs[k].Alive())
      {
        if procs[i].pid == pid && procs[i].state != Dead { return true; }
      }
      return false;
    }

    method FindReady(start: nat) returns (next: int)
      requires Value().Shaped() && start < MAX_PROCESSES
      ensures next == Scan(procs, start, 1)
      ensures if next < 0 then NoneReady(procs) else FirstReady(procs, start, next)
    {
      ScanFinds(procs, start);
      var i := 1;
      while i <= MAX_PROCESSES
        invariant 1 <= i <= MAX_PROCESSES + 1 && Scan(procs, start, 1) == Scan(procs, start, i)
      {
        var idx := Around(start, i);
        if procs[idx].state == Ready { return idx; }
        i := i + 1;
      }
      return -1;
    }

    /** Gives the processor to the next ready process around the table; without one, nothing happens. */
    method Schedule()
      requires Value().Shaped()
      modifies this
      ensures Value() == Scheduled(old(Value()))
      ensures old(current) >= 0 && !NoneReady(old(procs)) ==>
                0 <= current < MAX_PROCESSES && FirstReady(old(procs), old(current), current) &&
                Entered(old(procs), Value(), current)
    {
      if current < 0 { return; }
      ScheduledExact(Value());
      var start := 0;
      while start < MAX_PROCESSES && start != current
        invariant start <= current
      {
        start := start + 1;
      }
      var next := FindReady(start);
      if next < 0 { return; }
      if procs[current].state == Running {
        procs := procs[current := procs[current].(state := Ready)];
      }
      procs := procs[next := procs[next].(state := Running)];
      current := next;
      esp0 := procs[next].StackTop();
      cr3 := procs[next].dir;
    }

    /** Enters the first ready process; without one, nothing happens. */
    method Start() returns (started: bool)
      requires Value().Shaped() && current < 0
      modifies this
      ensures started <==> !NoneReady(old(procs))
      ensures !started ==> Value() == old(Value())
      ensures started ==> 0 <= current < MAX_PROCESSES && old(procs)[current].state == Ready
      ensures started ==> Value() == Enter(old(Value()), current) && Entered(old(procs), Value(), current)
      ensures started ==> forall s :: 0 <= s < current ==> old(procs)[s].state != Ready
    {
      var i := 0;
      while i < MAX_PROCESSES && procs[i].state != Ready
        invariant i <= MAX_PROCESSES && forall s :: 0 <= s < i ==> procs[s].state != Ready
      {
        i := i + 1;
      }
      if i == MAX_PROCESSES { return false; }
      procs := procs[i := procs[i].(state := Running)];
      current := i;
      esp0 := procs[i].StackTop();
      cr3 := procs[i].dir;
      started := true;
    }
  }
}
