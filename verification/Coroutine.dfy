/** The coroutine scheduler: one shared stack, copied out at a yield and back in at a resume
    (coroutine.c). Switching contexts hands control over; what a coroutine does while it runs is to
    write the shared stack and to call the scheduler. */
module Coroutine {
  type Byte = b: int | 0 <= b < 256

  const STACK_SIZE: nat := 1024 * 1024
  const DEFAULT_COROUTINE: nat := 16

  datatype Status = Dead | Ready | Running | Suspend

  /** A coroutine with a block of its own for the stack it had when it yielded. */
  class Routine {
    var cap: nat
    var size: nat
    var status: Status
    var stack: seq<Byte>

    constructor ()
      ensures cap == 0 && size == 0 && status == Ready && stack == []
    {
      cap := 0;
      size := 0;
      status := Ready;
      stack := [];
    }
  }

  function Occupied(co: seq<Routine?>): nat {
    if co == [] then 0 else Occupied(co[..|co| - 1]) + if co[|co| - 1] == null then 0 else 1
  }

  /** No coroutine is in two slots. */
  ghost predicate Separate(co: seq<Routine?>) {
    forall i, j :: 0 <= i < j < |co| && co[i] != null ==> co[i] != co[j]
  }

  function SlotFrom(k: nat, n: nat, cap: nat): nat
    requires cap >= 1
  {
    (k + n) % cap
  }

  lemma {:induction false} OccupiedUpdate(co: seq<Routine?>, i: nat, c: Routine?)
    requires i < |co|
    ensures Occupied(co[i := c]) + (if co[i] == null then 0 else 1) == Occupied(co) + if c == null then 0 else 1
  {
    var n := |co| - 1;
    if i < n {
      OccupiedUpdate(co[..n], i, c);
      assert co[i := c][..n] == co[..n][i := c];
    } else {
      assert co[i := c][..n] == co[..n];
    }
  }

  lemma {:induction false} AllOccupied(co: seq<Routine?>)
    ensures Occupied(co) <= |co|
    ensures Occupied(co) == |co| <==> forall i :: 0 <= i < |co| ==> co[i] != null
  {
    if co != [] {
      AllOccupied(co[..|co| - 1]);
    }
  }

  lemma {:induction false} OccupiedMore(co: seq<Routine?>, n: nat)
    ensures Occupied(co + seq(n, _ => null)) == Occupied(co)
  {
    var more: seq<Routine?> := seq(n, _ => null);
    if n == 0 {
      assert co + more == co;
    } else {
      OccupiedMore(co, n - 1);
      assert (co + more)[..|co + more| - 1] == co + seq(n - 1, _ => null);
    }
  }

  class Schedule {
    const stack: array<Byte>
    var nco: nat
    var cap: nat
    var running: int
    var co: seq<Routine?>
    /** For each suspended coroutine, the part of the stack it had when it yielded. */
    ghost var saved: map<nat, seq<Byte>>

    /** The live coroutines. */
    ghost function Routines(): set<Routine>
      reads this
    {
      set i | 0 <= i < |co| && co[i] != null :: co[i]
    }

    ghost predicate Valid()
      reads this, Routines()
    {
      && stack.Length == STACK_SIZE && |co| == cap && cap >= 1 && nco == Occupied(co)
      && (running == -1 || (0 <= running < cap && co[running] != null))
      && Separate(co)
      && (forall i :: 0 <= i < cap && co[i] != null ==> InOrder(co[i]) && (co[i].status == Running <==> i == running))
      && (forall i :: i in saved <==> 0 <= i < cap && co[i] != null && co[i].status == Suspend)
      && (forall i :: i in saved ==> co[i].stack[..co[i].size] == saved[i])
    }

    ghost predicate InOrder(c: Routine)
      reads c
    {
      c.status != Dead && c.size <= c.cap == |c.stack| && c.size <= STACK_SIZE
    }

    constructor ()
      ensures Valid() && running == -1 && nco == 0 && fresh(stack) && Routines() == {}
      ensures cap == 16 && co == seq(16, _ => null) && saved == map[] && stack.Length == 1024 * 1024
    {
      stack := new Byte[STACK_SIZE](_ => 0);
      nco := 0;
      cap := DEFAULT_COROUTINE;
      running := -1;
      co := seq(DEFAULT_COROUTINE, _ => null);
      saved := map[];
      new;
      assert co == [] + seq(DEFAULT_COROUTINE, _ => null);
      OccupiedMore([], DEFAULT_COROUTINE);
    }

    /** A new coroutine gets a free slot; without one the table doubles. Nobody else's id changes. */
    method New() returns (id: nat)
      requires Valid()
      modifies this`co, this`cap, this`nco
      ensures Valid() && id < cap && fresh(co[id]) && co[id].status == Ready
      ensures cap == (if old(nco) < old(cap) then old(cap) else 2 * old(cap)) && nco == old(nco) + 1
      ensures forall j :: 0 <= j < cap && j != id ==> co[j] == if j < old(cap) then old(co[j]) else null
      ensures if old(nco) < old(cap) then old(FirstFree(id)) else id == old(cap)
      ensures Routines() == old(Routines()) + {co[id]}
    {
      var c := new Routine();
      if nco >= cap {
        id := cap;
        Double();
        Fill(id, c);
      } else {
        id := FreeSlot();
        Fill(id, c);
      }
    }

    /** The table doubles; the new half is free. */
    method Double()
      requires Valid()
      modifies this`co, this`cap
      ensures Valid() && cap == 2 * old(cap) && co == old(co) + seq(old(cap), _ => null)
      ensures Routines() == old(Routines())
    {
      OccupiedMore(co, cap);
      co := co + seq(cap, _ => null);
      cap := cap * 2;
    }

    /** The free slot met first from slot nco on around the table. */
    ghost predicate FirstFree(id: nat)
      reads this
      requires |co| == cap >= 1
    {
      id < cap && co[id] == null
      && exists i: nat :: i < cap && id == SlotFrom(i, nco, cap)
                          && forall k: nat :: k < i ==> co[SlotFrom(k, nco, cap)] != null
    }

    /** With fewer coroutines than slots, the search from slot nco around the table finds a free one. */
    method FreeSlot() returns (id: nat)
      requires Valid() && nco < cap
      ensures FirstFree(id)
    {
      for i := 0 to cap
        invariant forall k :: 0 <= k < i ==> co[SlotFrom(k, nco, cap)] != null
      {
        id := SlotFrom(i, nco, cap);
        if co[id] == null { return; }
      }
      forall j | 0 <= j < cap ensures co[j] != null {
        Around(j, nco, cap);
      }
      AllOccupied(co);
      assert false;
    }

    method Fill(id: nat, c: Routine)
      requires Valid() && id < cap && co[id] == null && c !in Routines()
      requires c.status == Ready && c.size == 0 && c.cap == 0 && c.stack == []
      modifies this`co, this`nco
      ensures Valid() && co == old(co)[id := c] && nco == old(nco) + 1
      ensures Routines() == old(Routines()) + {c}
    {
      OccupiedUpdate(co, id, c);
      co := co[id := c];
      nco := nco + 1;
      assert c == co[id];
      forall r | r in old(Routines()) ensures r in Routines() {
        var i :| 0 <= i < |old(co)| && old(co[i]) == r;
        assert co[i] == r;
      }
    }

    /** Gives control to a coroutine; a suspended one finds its part of the stack as it left it. */
    method Resume(id: nat)
      requires Valid() && running == -1 && id < cap
      modifies this`running, this`saved, stack, co[id]
      ensures Valid()
      ensures co[id] == null ==> running == -1 && saved == old(saved) && stack[..] == old(stack[..])
      ensures co[id] != null ==> running == id && saved == old(saved) - {id}
      ensures id in old(saved) ==>
        |old(saved[id])| <= STACK_SIZE
        && stack[..] == old(stack[..])[..STACK_SIZE - |old(saved[id])|] + old(saved[id])
      ensures id !in old(saved) ==> stack[..] == old(stack[..])
    {
      hide Occupied;
      var c := co[id];
      if c == null { return; }
      if c.status == Suspend {
        CopyIn(c);
      }
      running := id;
      c.status := Running;
      saved := saved - {id};
      assert forall i :: 0 <= i < cap && i != id && co[i] != null ==> co[i] != c;
    }

    method CopyIn(c: Routine)
      requires InOrder(c) && stack.Length == STACK_SIZE
      modifies stack
      ensures stack[..] == old(stack[..])[..STACK_SIZE - c.size] + c.stack[..c.size]
    {
      forall i | 0 <= i < c.size { stack[STACK_SIZE - c.size + i] := c.stack[i]; }
    }

    /** The running coroutine works: it writes the shared stack as it likes. */
    method Work(bytes: seq<Byte>)
      requires Valid() && running != -1 && |bytes| == STACK_SIZE
      modifies stack
      ensures Valid() && stack[..] == bytes
    {
      forall i | 0 <= i < STACK_SIZE { stack[i] := bytes[i]; }
    }

    /** The running coroutine gives control back; the part of the stack in use is saved with it. */
    method Yield(depth: nat)
      requires Valid() && running != -1 && depth <= STACK_SIZE
      modifies this`running, this`saved, co[running]
      ensures Valid() && running == -1 && saved == old(saved)[old(running) := old(stack[STACK_SIZE - depth..])]
      ensures stack[..] == old(stack[..])
    {
      var id := running;
      var c := co[id];
      SaveStack(c, depth);
      c.status := Suspend;
      running := -1;
      saved := saved[id := stack[STACK_SIZE - depth..]];
    }

    method SaveStack(c: Routine, depth: nat)
      requires InOrder(c) && stack.Length == STACK_SIZE && depth <= STACK_SIZE
      modifies c`cap, c`size, c`stack
      ensures InOrder(c) && c.size == depth && c.stack[..depth] == stack[STACK_SIZE - depth..]
    {
      if c.cap < depth {
        c.cap := depth;
        c.stack := seq(depth, _ => 0);
      }
      c.size := depth;
      c.stack := stack[STACK_SIZE - depth..] + c.stack[depth..];
    }

    /** The running coroutine's function returns: its slot is free again. */
    method Finish()
      requires Valid() && running != -1
      modifies this`running, this`co, this`nco
      ensures Valid() && running == -1 && nco == old(nco) - 1 && co == old(co)[old(running) := null]
    {
      OccupiedUpdate(co, running, null);
      co := co[running := null];
      nco := nco - 1;
      running := -1;
    }

    method StatusOf(id: nat) returns (status: Status)
      requires Valid() && id < cap
      ensures status == Running <==> id == running
      ensures status == Suspend <==> id in saved
      ensures status == Dead <==> co[id] == null
    {
      if co[id] == null { return Dead; }
      return co[id].status;
    }
  }

  // ----- Whole runs -----

  /** What the schedule holds at an id: a suspended coroutine is its part of the stack. */
  datatype Slot = Free | Fresh | Active | Asleep(stack: seq<Byte>)

  /** The schedule without its heap. */
  datatype State = State(slots: seq<Slot>, running: int, stack: seq<Byte>)

  ghost predicate Sound(q: State) {
    && |q.stack| == STACK_SIZE && q.slots != []
    && (q.running == -1 || 0 <= q.running < |q.slots|)
    && (forall i :: 0 <= i < |q.slots| ==> (q.slots[i].Active? <==> i == q.running))
    && forall i :: 0 <= i < |q.slots| && q.slots[i].Asleep? ==> |q.slots[i].stack| <= STACK_SIZE
  }

  function Used(slots: seq<Slot>): (n: nat)
    ensures n <= |slots|
  {
    if slots == [] then 0 else Used(slots[..|slots| - 1]) + if slots[|slots| - 1].Free? then 0 else 1
  }

  /** The first free slot from number k of the way around on; there is none when the way ends. */
  function NextFree(slots: seq<Slot>, from: nat, k: nat): nat
    requires slots != []
    decreases |slots| - k
  {
    if k >= |slots| then |slots|
    else if slots[SlotFrom(k, from, |slots|)].Free? then SlotFrom(k, from, |slots|)
    else NextFree(slots, from, k + 1)
  }

  function Doubled(slots: seq<Slot>): seq<Slot> { slots + seq(|slots|, _ => Free) }

  datatype Op = Create | Enter(id: nat) | Write(bytes: seq<Byte>) | Leave(depth: nat) | End

  /** One thing done, or nothing when it is not possible now. */
  ghost function Done(q: State, op: Op): (r: State)
    requires Sound(q)
  {
    match op
    case Create =>
      var id := NextFree(q.slots, Used(q.slots), 0);
      if id < |q.slots| then q.(slots := q.slots[id := Fresh])
      else q.(slots := Doubled(q.slots)[|q.slots| := Fresh])
    case Enter(id) =>
      if q.running != -1 || id >= |q.slots| || q.slots[id].Free? then q
      else if q.slots[id].Asleep? then
        var mine := q.slots[id].stack;
        State(q.slots[id := Active], id, q.stack[..STACK_SIZE - |mine|] + mine)
      else q.(slots := q.slots[id := Active], running := id)
    case Write(bytes) => if q.running != -1 && |bytes| == STACK_SIZE then q.(stack := bytes) else q
    case Leave(depth) =>
      if q.running != -1 && depth <= STACK_SIZE then
        q.(slots := q.slots[q.running := Asleep(q.stack[STACK_SIZE - depth..])], running := -1)
      else q
    case End => if q.running != -1 then q.(slots := q.slots[q.running := Free], running := -1) else q
  }

  lemma DoneSound(q: State, op: Op)
    requires Sound(q)
    ensures Sound(Done(q, op)) && |Done(q, op).slots| >= |q.slots|
  {
    hide NextFree;
    FreeOrNone(q.slots, Used(q.slots), 0);
  }

  ghost function DoneAll(q: State, ops: seq<Op>): (r: State)
    requires Sound(q)
    ensures Sound(r) && |r.slots| >= |q.slots|
  {
    if ops == [] then q
    else
      var before := DoneAll(q, ops[..|ops| - 1]);
      DoneSound(before, ops[|ops| - 1]);
      Done(before, ops[|ops| - 1])
  }

  ghost function SlotOf(c: Routine?, i: nat, running: int, saved: map<nat, seq<Byte>>): Slot {
    if c == null then Free else if i == running then Active else if i in saved then Asleep(saved[i]) else Fresh
  }

  ghost function Slots(co: seq<Routine?>, running: int, saved: map<nat, seq<Byte>>): (r: seq<Slot>)
    ensures |r| == |co|
  {
    seq(|co|, i requires 0 <= i < |co| => SlotOf(co[i], i, running, saved))
  }

  lemma {:induction false} UsedIsOccupied(co: seq<Routine?>, running: int, saved: map<nat, seq<Byte>>)
    ensures Used(Slots(co, running, saved)) == Occupied(co)
  {
    if co != [] {
      UsedIsOccupied(co[..|co| - 1], running, saved);
      assert Slots(co, running, saved)[..|co| - 1] == Slots(co[..|co| - 1], running, saved);
    }
  }

  ghost function Abstract(s: Schedule): (q: State)
    reads s, s.stack
  {
    State(Slots(s.co, s.running, s.saved), s.running, s.stack[..])
  }

  lemma AbstractSound(s: Schedule)
    requires s.Valid()
    ensures Sound(Abstract(s))
  {
    forall i | i in s.saved ensures |s.saved[i]| <= STACK_SIZE {
      assert s.InOrder(s.co[i]);
    }
  }

  lemma {:induction false} NextFreeIs(slots: seq<Slot>, from: nat, k: nat, i: nat)
    requires k <= i < |slots| && slots[SlotFrom(i, from, |slots|)].Free?
    requires forall j: nat :: k <= j < i ==> !slots[SlotFrom(j, from, |slots|)].Free?
    ensures NextFree(slots, from, k) == SlotFrom(i, from, |slots|)
    decreases i - k
  {
    if k < i {
      NextFreeIs(slots, from, k + 1, i);
    }
  }

  /** Upwards from slot number from, and then from the first one on: everything before the slot that is
      found is occupied. */
  lemma FoundOnTheWay(slots: seq<Slot>, from: nat)
    requires from < |slots| && NextFree(slots, from, 0) < |slots|
    ensures var id := NextFree(slots, from, 0);
      && slots[id].Free?
      && if from <= id then forall i :: from <= i < id ==> !slots[i].Free?
         else forall i :: from <= i < |slots| || 0 <= i < id ==> !slots[i].Free?
  {
    var k := WayTo(slots, from, 0);
    var id := NextFree(slots, from, 0);
    forall i | if from <= id then from <= i < id else from <= i < |slots| || 0 <= i < id ensures !slots[i].Free? {
      Around(i, from, |slots|);
      Around(id, from, |slots|);
      SameWay(k, id, from, |slots|);
    }
  }

  lemma {:induction false} WayTo(slots: seq<Slot>, from: nat, k: nat) returns (n: nat)
    requires slots != [] && NextFree(slots, from, k) < |slots|
    ensures k <= n < |slots| && NextFree(slots, from, k) == SlotFrom(n, from, |slots|)
    ensures slots[NextFree(slots, from, k)].Free?
    ensures forall j: nat :: k <= j < n ==> !slots[SlotFrom(j, from, |slots|)].Free?
    decreases |slots| - k
  {
    if slots[SlotFrom(k, from, |slots|)].Free? {
      n := k;
    } else {
      n := WayTo(slots, from, k + 1);
    }
  }

  /** Each slot is passed once on the way around. */
  lemma SameWay(k: nat, id: nat, from: nat, cap: nat)
    requires k < cap && from < cap && id < cap && SlotFrom(k, from, cap) == id
    ensures k == if id >= from then id - from else id + cap - from
  {
    if k + from < cap {
      assert (k + from) % cap == k + from;
    } else {
      assert (k + from) % cap == k + from - cap by { Wrap(k + from - cap, cap); }
    }
  }

  lemma {:induction false} NoneFree(slots: seq<Slot>, from: nat, k: nat)
    requires slots != [] && forall i :: 0 <= i < |slots| ==> !slots[i].Free?
    ensures NextFree(slots, from, k) == |slots|
    decreases |slots| - k
  {
    if k < |slots| {
      NoneFree(slots, from, k + 1);
    }
  }

  /** Where the next coroutine goes. */
  lemma CreatedAt(s: Schedule, id: nat)
    requires s.Valid() && if s.nco < s.cap then s.FirstFree(id) else id == s.cap
    ensures NextFree(Abstract(s).slots, Used(Abstract(s).slots), 0) == id
  {
    hide Occupied, Used, NextFree;
    var slots := Abstract(s).slots;
    UsedIsOccupied(s.co, s.running, s.saved);
    if s.nco < s.cap {
      var i: nat :| i < s.cap && id == SlotFrom(i, s.nco, s.cap)
                    && forall k: nat :: k < i ==> s.co[SlotFrom(k, s.nco, s.cap)] != null;
      NextFreeIs(slots, s.nco, 0, i);
    } else {
      AllOccupied(s.co);
      NoneFree(slots, s.nco, 0);
    }
  }

  lemma EnteredSlots(co: seq<Routine?>, id: nat, saved: map<nat, seq<Byte>>)
    requires id < |co| && co[id] != null
    ensures Slots(co, id, saved - {id}) == Slots(co, -1, saved)[id := Active]
  {}

  lemma LeftSlots(co: seq<Routine?>, id: nat, saved: map<nat, seq<Byte>>, bytes: seq<Byte>)
    requires id < |co| && co[id] != null
    ensures Slots(co, -1, saved[id := bytes]) == Slots(co, id, saved)[id := Asleep(bytes)]
  {}

  lemma EndedSlots(co: seq<Routine?>, id: nat, saved: map<nat, seq<Byte>>)
    requires id < |co|
    ensures Slots(co[id := null], -1, saved) == Slots(co, id, saved)[id := Free]
  {}

  lemma CreatedSlots(co: seq<Routine?>, id: nat, c: Routine, running: int, saved: map<nat, seq<Byte>>)
    requires id < |co| && id != running && id !in saved
    ensures Slots(co[id := c], running, saved) == Slots(co, running, saved)[id := Fresh]
  {}

  lemma DoubledSlots(co: seq<Routine?>, running: int, saved: map<nat, seq<Byte>>)
    ensures Slots(co + seq(|co|, _ => null), running, saved) == Doubled(Slots(co, running, saved))
  {}

  method Perform(s: Schedule, op: Op)
    requires s.Valid()
    modifies s`co, s`cap, s`nco, s`running, s`saved, s.stack, s.Routines()
    ensures s.Valid() && fresh(s.Routines() - old(s.Routines()))
    ensures Sound(old(Abstract(s))) && Abstract(s) == Done(old(Abstract(s)), op)
  {
    hide Occupied, Slots, Used, NextFree;
    AbstractSound(s);
    match op
    case Create => PerformCreate(s);
    case Enter(id) => PerformEnter(s, id);
    case Write(bytes) => if s.running != -1 && |bytes| == STACK_SIZE { s.Work(bytes); }
    case Leave(depth) =>
      if s.running != -1 && depth <= STACK_SIZE {
        LeftSlots(s.co, s.running, s.saved, s.stack[STACK_SIZE - depth..]);
        s.Yield(depth);
      }
    case End =>
      if s.running != -1 {
        EndedSlots(s.co, s.running, s.saved);
        s.Finish();
      }
  }

  method PerformEnter(s: Schedule, id: nat)
    requires s.Valid()
    modifies s`running, s`saved, s.stack, s.Routines()
    ensures s.Valid() && s.Routines() == old(s.Routines())
    ensures Sound(old(Abstract(s))) && Abstract(s) == Done(old(Abstract(s)), Enter(id))
  {
    hide Occupied, Slots, Used, NextFree;
    AbstractSound(s);
    if s.running == -1 && id < s.cap {
      SlotIs(s.co, s.running, s.saved, id);
      if s.co[id] != null { EnteredSlots(s.co, id, s.saved); }
      s.Resume(id);
    }
  }

  lemma SlotIs(co: seq<Routine?>, running: int, saved: map<nat, seq<Byte>>, id: nat)
    requires id < |co|
    ensures Slots(co, running, saved)[id] == SlotOf(co[id], id, running, saved)
  {}

  method PerformCreate(s: Schedule)
    requires s.Valid()
    modifies s`co, s`cap, s`nco
    ensures s.Valid() && fresh(s.Routines() - old(s.Routines()))
    ensures Sound(old(Abstract(s))) && Abstract(s) == Done(old(Abstract(s)), Create)
  {
    hide Occupied, Slots, Used, NextFree;
    AbstractSound(s);
    ghost var co, more := s.co, s.co + seq(|s.co|, _ => null);
    ghost var next := NextFree(Abstract(s).slots, Used(Abstract(s).slots), 0);
    if s.nco < s.cap {
      forall id | s.FirstFree(id) ensures id == next { CreatedAt(s, id); }
    } else {
      CreatedAt(s, s.cap);
    }
    DoubledSlots(co, s.running, s.saved);
    var id := s.New();
    if id < |co| {
      assert s.co == co[id := s.co[id]];
      CreatedSlots(co, id, s.co[id], s.running, s.saved);
    } else {
      assert s.co == more[id := s.co[id]];
      CreatedSlots(more, id, s.co[id], s.running, s.saved);
    }
  }

  /** Any run of the scheduler is a run without its heap, which decides who runs next and with which
      stack. */
  method RunAll(s: Schedule, ops: seq<Op>)
    requires s.Valid()
    modifies s`co, s`cap, s`nco, s`running, s`saved, s.stack, s.Routines()
    ensures s.Valid() && fresh(s.Routines() - old(s.Routines()))
    ensures Sound(old(Abstract(s))) && Abstract(s) == DoneAll(old(Abstract(s)), ops)
  {
    hide Done;
    AbstractSound(s);
    ghost var q := Abstract(s);
    assert ops[..0] == [];
    for i := 0 to |ops|
      invariant s.Valid() && fresh(s.Routines() - old(s.Routines()))
      invariant Abstract(s) == DoneAll(q, ops[..i])
    {
      assert ops[..i + 1][..i] == ops[..i];
      Perform(s, ops[i]);
    }
    assert ops[..|ops|] == ops;
  }

  // ----- Whatever runs in between -----

  ghost predicate NeverEnters(ops: seq<Op>, me: nat) { forall i :: 0 <= i < |ops| ==> ops[i] != Enter(me) }

  /** Nothing that other coroutines do reaches a suspended one, or gives its id away. */
  lemma {:induction false} StaysAsleep(q: State, me: nat, ops: seq<Op>)
    requires Sound(q) && me < |q.slots| && q.slots[me].Asleep? && NeverEnters(ops, me)
    ensures DoneAll(q, ops).slots[me] == q.slots[me]
  {
    if ops != [] {
      StaysAsleep(q, me, ops[..|ops| - 1]);
      OneStays(DoneAll(q, ops[..|ops| - 1]), me, ops[|ops| - 1]);
    }
  }

  lemma OneStays(q: State, me: nat, op: Op)
    requires Sound(q) && me < |q.slots| && q.slots[me].Asleep? && op != Enter(me)
    ensures me < |Done(q, op).slots| && Done(q, op).slots[me] == q.slots[me]
  {
    if op == Create {
      FreeOrNone(q.slots, Used(q.slots), 0);
    }
  }

  lemma {:induction false} FreeOrNone(slots: seq<Slot>, from: nat, k: nat)
    requires slots != []
    ensures NextFree(slots, from, k) < |slots| ==> slots[NextFree(slots, from, k)].Free?
    ensures NextFree(slots, from, k) <= |slots|
    decreases |slots| - k
  {
    if k < |slots| {
      FreeOrNone(slots, from, k + 1);
    }
  }

  /** A coroutine that yields and is entered again, nobody running by then, finds its stack unchanged,
      whatever other coroutines were created, ran, yielded and finished in between. */
  lemma ComesBack(q: State, depth: nat, ops: seq<Op>)
    requires Sound(q) && q.running != -1 && depth <= STACK_SIZE && NeverEnters(ops, q.running)
    ensures Sound(Done(q, Leave(depth)))
    ensures var p := DoneAll(Done(q, Leave(depth)), ops);
      && q.running < |p.slots| && p.slots[q.running] == Asleep(q.stack[STACK_SIZE - depth..])
      && (p.running == -1 ==>
            var r := Done(p, Enter(q.running));
            r.running == q.running && |r.stack| == STACK_SIZE
            && r.stack[STACK_SIZE - depth..] == q.stack[STACK_SIZE - depth..])
  {
    DoneSound(q, Leave(depth));
    StaysAsleep(Done(q, Leave(depth)), q.running, ops);
  }

  /** The same on a schedule: it is entered again exactly when nobody is running by then, and until it
      is, its stack is kept. */
  method YieldAndComeBack(s: Schedule, depth: nat, ops: seq<Op>) returns (resumed: bool)
    requires s.Valid() && s.running != -1 && depth <= STACK_SIZE && NeverEnters(ops, s.running)
    modifies s`co, s`cap, s`nco, s`running, s`saved, s.stack, s.Routines()
    ensures s.Valid() && Sound(old(Abstract(s))) && Sound(Done(old(Abstract(s)), Leave(depth)))
    ensures var p := DoneAll(Done(old(Abstract(s)), Leave(depth)), ops);
      && (resumed <==> p.running == -1)
      && Abstract(s) == if resumed then Done(p, Enter(old(s.running))) else p
    ensures resumed ==>
      s.running == old(s.running) && s.stack[STACK_SIZE - depth..] == old(s.stack[STACK_SIZE - depth..])
    ensures !resumed ==>
      old(s.running) in s.saved && s.saved[old(s.running)] == old(s.stack[STACK_SIZE - depth..])
  {
    hide Done, DoneAll;
    var me := s.running;
    AbstractSound(s);
    ComesBack(Abstract(s), depth, ops);
    Perform(s, Leave(depth));
    RunAll(s, ops);
    resumed := s.running == -1;
    if resumed {
      Perform(s, Enter(me));
    }
  }

  lemma Around(j: nat, n: nat, cap: nat)
    requires j < cap && n < cap
    ensures var k := if j >= n then j - n else j + cap - n; k < cap && SlotFrom(k, n, cap) == j
  {
    if j < n {
      assert (j + cap) % cap == j by { Wrap(j, cap); }
    }
  }

  lemma Wrap(j: nat, cap: nat)
    requires j < cap
    ensures (j + cap) % cap == j
  {}
}
