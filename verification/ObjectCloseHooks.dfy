/**
  * The object-close hook registry: a table of eight slots guarded by one lock.
  *
  * Part one specifies every critical section as a function on table values. Part two
  * lets any number of threads interleave those sections, with hooks that re-enter the
  * registry, and proves what holds over every run. Part three is the registry in the
  * imperative form of the source, proved against part one.
  */
module ObjectCloseHooks {
  import opened Words

  const CAPACITY: nat := 8
  const SLOT_RADIX: nat := 0x100                       // 1 << SLOT_BITS
  const GENERATION_MAX: nat := 0xFF_FFFF_FFFF_FFFF     // U64_MAX >> SLOT_BITS

  /** A hook is a function pointer; 0 is NULL. */
  type Hook = nat

  datatype Entry = Entry(hook: Hook, generation: nat, inFlight: nat, active: bool, processLifetime: bool)

  const EMPTY: Entry := Entry(0, 0, 0, false, false)

  type Slot = i: nat | i < CAPACITY

  type Slots = es: seq<Entry> | |es| == CAPACITY witness [EMPTY, EMPTY, EMPTY, EMPTY, EMPTY, EMPTY, EMPTY, EMPTY]

  datatype Table = Table(entries: Slots, nextGeneration: nat, exhausted: bool)

  const INITIAL: Table := Table(seq(CAPACITY, _ => EMPTY), 1, false)

  /** What a notifier remembers of a hook it has claimed. */
  datatype Call = Call(hook: Hook, generation: nat, slot: Slot)

  datatype Status = Success | InvalidArgument | Busy | Exists | LimitExceeded | StaleHandle | AccessDenied

  // ---------- Part one: the critical sections ----------

  /** First index at or after `from` whose slot holds `hook`, or the table size. */
  function Find(es: Slots, hook: Hook, from: nat := 0): (i: nat)
    requires from <= |es|
    ensures from <= i <= |es|
    ensures i < |es| ==> es[i].hook == hook
    ensures forall k :: from <= k < i ==> es[k].hook != hook
    decreases |es| - from
  {
    if from == |es| || es[from].hook == hook then from else Find(es, hook, from + 1)
  }

  function RegisterLegacy(t: Table, hook: Hook): (Table, Status) {
    if hook == 0 then (t, InvalidArgument) else
    var i := Find(t.entries, hook);
    if i < |t.entries| then
      if t.entries[i].active
      then (t.(entries := t.entries[i := t.entries[i].(processLifetime := true)]), Success)
      else (t, Busy)
    else
      var j := Find(t.entries, 0);
      if j < |t.entries|
      then (t.(entries := t.entries[j := Entry(hook, 0, 0, true, true)]), Success)
      else (t, LimitExceeded)
  }

  /** The token packs the generation above the slot number counted from one. */
  function Token(slot: nat, generation: nat): nat {
    generation * SLOT_RADIX + (slot + 1)
  }

  /** The third component is what `*token_out` holds afterwards. */
  function RegisterOwned(t: Table, hook: Hook): (Table, Status, nat) {
    if hook == 0 then (t, InvalidArgument, 0) else
    var i := Find(t.entries, hook);
    if i < |t.entries| then (t, if t.entries[i].active then Exists else Busy, 0)
    else if t.exhausted then (t, LimitExceeded, 0)
    else
      var j := Find(t.entries, 0);
      if j < |t.entries| then
        var g := t.nextGeneration;
        (Table(t.entries[j := Entry(hook, g, 0, true, false)],
               if g == GENERATION_MAX then g else g + 1,
               g == GENERATION_MAX),
         Success, Token(j, g))
      else (t, LimitExceeded, 0)
  }

  function Unregister(t: Table, token: nat): (Table, Status) {
    var encodedSlot := token % SLOT_RADIX;
    var generation := token / SLOT_RADIX;
    if generation == 0 || encodedSlot == 0 || encodedSlot > CAPACITY then (t, InvalidArgument) else
    var i := encodedSlot - 1;
    var e := t.entries[i];
    if e.hook == 0 || e.generation != generation then (t, StaleHandle)
    else if e.processLifetime then (t, AccessDenied)
    else if e.inFlight != 0 then (t.(entries := t.entries[i := e.(active := false)]), Busy)
    else (t.(entries := t.entries[i := EMPTY]), Success)
  }

  predicate Claimable(e: Entry) { e.hook != 0 && e.active }

  function CallFor(es: Slots, i: nat): Call
    requires i < |es|
  {
    Call(es[i].hook, es[i].generation, i)
  }

  /** The calls a notification claims from slot `from` on, in slot order. */
  function ClaimedCalls(es: Slots, from: nat): seq<Call>
    requires from <= |es|
    decreases |es| - from
  {
    if from == |es| then []
    else (if Claimable(es[from]) then [CallFor(es, from)] else []) + ClaimedCalls(es, from + 1)
  }

  function Bumped(e: Entry): Entry {
    if Claimable(e) then e.(inFlight := e.inFlight + 1) else e
  }

  predicate Saturated(es: Slots) {
    exists i :: 0 <= i < |es| && Claimable(es[i]) && es[i].inFlight == U64_MAX
  }

  function Claim(t: Table): (Table, Status, seq<Call>) {
    if Saturated(t.entries) then (t, Busy, [])
    else (t.(entries := seq(|t.entries|, i requires 0 <= i < |t.entries| => Bumped(t.entries[i]))),
          Success, ClaimedCalls(t.entries, 0))
  }

  function Release(t: Table, call: Call): Table {
    var e := t.entries[call.slot];
    if e.hook == call.hook && e.generation == call.generation && e.inFlight != 0
    then t.(entries := t.entries[call.slot := e.(inFlight := e.inFlight - 1)])
    else t
  }

  /** Claimed calls are exactly the claimable slots, each once. */
  lemma {:induction false} ClaimedOnce(es: Slots, from: nat)
    requires from <= |es|
    ensures forall c :: multiset(ClaimedCalls(es, from))[c] ==
                        if from <= c.slot < |es| && Claimable(es[c.slot]) && c == CallFor(es, c.slot) then 1 else 0
    decreases |es| - from
  {
    if from < |es| {
      ClaimedOnce(es, from + 1);
      var head := if Claimable(es[from]) then [CallFor(es, from)] else [];
      assert ClaimedCalls(es, from) == head + ClaimedCalls(es, from + 1);
      assert multiset(ClaimedCalls(es, from)) == multiset(head) + multiset(ClaimedCalls(es, from + 1));
    }
  }

  // ---------- Part two: any number of threads ----------

  /** Where a notifier stands with the call at its cursor. */
  datatype Phase = Waiting | Running | Returned

  /** One activation of the notifier: calls before `next` have been released. */
  datatype Activation = Activation(calls: seq<Call>, next: nat, phase: Phase)

  /** A thread is a stack of activations, because a running hook may close objects itself. */
  type Thread = seq<Activation>

  datatype System = System(table: Table, threads: seq<Thread>)

  datatype Step =
    | Spawn
    | DoRegisterLegacy(tid: nat, hook: Hook)
    | DoRegisterOwned(tid: nat, hook: Hook)
    | DoUnregister(tid: nat, token: nat)
    | DoNotify(tid: nat)     // the claiming critical section
    | DoInvoke(tid: nat)     // the hook at the cursor is entered, without the lock
    | DoReturn(tid: nat)     // the hook returns
    | DoRelease(tid: nat)    // the releasing critical section
    | DoFinish(tid: nat)     // the notifier returns

  function Top(th: Thread): Activation
    requires th != []
  {
    th[|th| - 1]
  }

  /** Outside the notifier, or inside a hook, a thread may call any entry point. */
  predicate Free(th: Thread) {
    th == [] || Top(th).phase == Running
  }

  predicate At(th: Thread, phase: Phase) {
    th != [] && Top(th).next < |Top(th).calls| && Top(th).phase == phase
  }

  predicate Enabled(s: System, step: Step) {
    match step
    case Spawn => true
    case DoRegisterLegacy(t, _) => t < |s.threads| && Free(s.threads[t])
    case DoRegisterOwned(t, _) => t < |s.threads| && Free(s.threads[t])
    case DoUnregister(t, _) => t < |s.threads| && Free(s.threads[t])
    case DoNotify(t) => t < |s.threads| && Free(s.threads[t])
    case DoInvoke(t) => t < |s.threads| && At(s.threads[t], Waiting)
    case DoReturn(t) => t < |s.threads| && At(s.threads[t], Running)
    case DoRelease(t) => t < |s.threads| && At(s.threads[t], Returned)
    case DoFinish(t) => t < |s.threads| && s.threads[t] != [] && Top(s.threads[t]).next >= |Top(s.threads[t]).calls|
  }

  function WithTop(s: System, t: nat, a: Activation): System
    requires t < |s.threads| && s.threads[t] != []
  {
    var th := s.threads[t];
    s.(threads := s.threads[t := th[..|th| - 1] + [a]])
  }

  /** A step that is not enabled changes nothing. */
  function Apply(s: System, step: Step): System {
    if !Enabled(s, step) then s else
    match step
    case Spawn => s.(threads := s.threads + [[]])
    case DoRegisterLegacy(_, hook) => s.(table := RegisterLegacy(s.table, hook).0)
    case DoRegisterOwned(_, hook) => s.(table := RegisterOwned(s.table, hook).0)
    case DoUnregister(_, token) => s.(table := Unregister(s.table, token).0)
    case DoNotify(t) =>
      var (table, status, calls) := Claim(s.table);
      if status == Success
      then System(table, s.threads[t := s.threads[t] + [Activation(calls, 0, Waiting)]])
      else s
    case DoInvoke(t) => WithTop(s, t, Top(s.threads[t]).(phase := Running))
    case DoReturn(t) => WithTop(s, t, Top(s.threads[t]).(phase := Returned))
    case DoRelease(t) =>
      var a := Top(s.threads[t]);
      WithTop(s, t, Activation(a.calls, a.next + 1, Waiting))
      .(table := Release(s.table, a.calls[a.next]))
    case DoFinish(t) => s.(threads := s.threads[t := s.threads[t][..|s.threads[t]| - 1]])
  }

  /** How many claims of call `c` an activation has not released yet. */
  ghost function Pending(a: Activation, c: Call): nat {
    if a.next <= |a.calls| then multiset(a.calls[a.next..])[c] else 0
  }

  ghost function Held(th: Thread, c: Call): nat {
    if th == [] then 0 else Held(th[..|th| - 1], c) + Pending(Top(th), c)
  }

  ghost function AllHeld(threads: seq<Thread>, c: Call): nat {
    if threads == [] then 0 else Held(threads[0], c) + AllHeld(threads[1..], c)
  }

  /** The outstanding claims of `c`: made by some notifier and not yet released by it. */
  ghost function Outstanding(s: System, c: Call): nat { AllHeld(s.threads, c) }

  /** A generation that some owned registration has been given. */
  predicate Issued(t: Table, g: nat) {
    1 <= g && (g < t.nextGeneration || (t.exhausted && g == t.nextGeneration))
  }

  ghost predicate TableInv(t: Table) {
    && 1 <= t.nextGeneration <= GENERATION_MAX
    && (t.exhausted ==> t.nextGeneration == GENERATION_MAX)
    && (forall i :: 0 <= i < CAPACITY ==> EntryInv(t, t.entries[i]))
    && (forall i, j :: 0 <= i < j < CAPACITY && t.entries[i].hook != 0 ==>
          t.entries[i].hook != t.entries[j].hook)
    && (forall i, j :: 0 <= i < j < CAPACITY && t.entries[i].generation != 0 ==>
          t.entries[i].generation != t.entries[j].generation)
  }

  predicate EntryInv(t: Table, e: Entry) {
    && e.inFlight <= U64_MAX
    && (e.hook == 0 ==> e == EMPTY)
    && (e.hook != 0 && e.generation == 0 ==> e.active && e.processLifetime)
    && (e.processLifetime ==> e.active)
    && (e.generation != 0 ==> Issued(t, e.generation))
  }

  /** Each outstanding claim still names what its slot holds, and the slot counts it. */
  ghost predicate Counted(es: Slots, held: Call -> nat) {
    && (forall c :: held(c) > 0 ==> es[c.slot].hook != 0 && c == CallFor(es, c.slot))
    && (forall i :: 0 <= i < CAPACITY ==> es[i].inFlight == held(CallFor(es, i)))
  }

  ghost predicate Inv(s: System) {
    TableInv(s.table) && Counted(s.table.entries, c => Outstanding(s, c))
  }

  // Bookkeeping of the claims under the changes a step makes to the threads.

  lemma {:induction false} AllHeldUpdate(threads: seq<Thread>, t: nat, th: Thread, c: Call)
    requires t < |threads|
    ensures AllHeld(threads[t := th], c) == AllHeld(threads, c) - Held(threads[t], c) + Held(th, c)
  {
    if t == 0 {
      assert threads[t := th][1..] == threads[1..];
    } else {
      AllHeldUpdate(threads[1..], t - 1, th, c);
      assert threads[t := th][1..] == threads[1..][t - 1 := th];
    }
  }

  lemma {:induction false} AllHeldSpawn(threads: seq<Thread>, c: Call)
    ensures AllHeld(threads + [[]], c) == AllHeld(threads, c)
  {
    if threads != [] {
      AllHeldSpawn(threads[1..], c);
      assert (threads + [[]])[1..] == threads[1..] + [[]];
    } else {
      assert (threads + [[]])[1..] == [];
    }
  }

  lemma {:induction false} HeldIsOutstanding(threads: seq<Thread>, t: nat, c: Call)
    requires t < |threads|
    ensures Held(threads[t], c) <= AllHeld(threads, c)
  {
    if t > 0 {
      HeldIsOutstanding(threads[1..], t - 1, c);
    }
  }

  lemma TopUpdate(s: System, t: nat, a: Activation, c: Call)
    requires t < |s.threads| && s.threads[t] != []
    ensures Outstanding(WithTop(s, t, a), c) == Outstanding(s, c) - Pending(Top(s.threads[t]), c) + Pending(a, c)
  {
    var th := s.threads[t];
    var th' := th[..|th| - 1] + [a];
    assert th'[..|th| - 1] == th[..|th| - 1];
    AllHeldUpdate(s.threads, t, th', c);
  }

  /** The call at the cursor of a notifier. */
  function Cursor(s: System, t: nat): Call
    requires t < |s.threads| && s.threads[t] != [] && Top(s.threads[t]).next < |Top(s.threads[t]).calls|
  {
    Top(s.threads[t]).calls[Top(s.threads[t]).next]
  }

  lemma CursorIsOutstanding(s: System, t: nat)
    requires t < |s.threads| && s.threads[t] != [] && Top(s.threads[t]).next < |Top(s.threads[t]).calls|
    ensures Outstanding(s, Cursor(s, t)) > 0
  {
    var a := Top(s.threads[t]);
    assert a.calls[a.next..][0] == Cursor(s, t);
    HeldIsOutstanding(s.threads, t, Cursor(s, t));
  }

  /** How one step changes the number of outstanding claims of each call. */
  function Delta(s: System, step: Step, c: Call): int
    requires Enabled(s, step)
  {
    match step
    case DoNotify(_) => multiset(Claim(s.table).2)[c]
    case DoRelease(t) => if c == Cursor(s, t) then -1 else 0
    case _ => 0
  }

  lemma OutstandingAfter(s: System, step: Step, c: Call)
    requires Enabled(s, step)
    ensures Outstanding(Apply(s, step), c) == Outstanding(s, c) + Delta(s, step, c)
  {
    match step
    case Spawn => AllHeldSpawn(s.threads, c);
    case DoNotify(t) =>
      var (_, status, calls) := Claim(s.table);
      if status == Success {
        var th := s.threads[t] + [Activation(calls, 0, Waiting)];
        AllHeldUpdate(s.threads, t, th, c);
        assert th[..|s.threads[t]|] == s.threads[t];
        assert calls[0..] == calls;
      }
    case DoInvoke(t) => TopUpdate(s, t, Top(s.threads[t]).(phase := Running), c);
    case DoReturn(t) => TopUpdate(s, t, Top(s.threads[t]).(phase := Returned), c);
    case DoRelease(t) =>
      var a := Top(s.threads[t]);
      TopUpdate(s, t, Activation(a.calls, a.next + 1, Waiting), c);
      assert a.calls[a.next..] == [a.calls[a.next]] + a.calls[a.next + 1..];
    case DoFinish(t) => AllHeldUpdate(s.threads, t, s.threads[t][..|s.threads[t]| - 1], c);
    case _ =>
  }

  // What each critical section does to the table invariant and to the counting.

  /** Writing one slot keeps the table in order if the new entry is in order and clashes with no other. */
  lemma ReplaceInTable(t: Table, t': Table, i: Slot, e: Entry)
    requires TableInv(t) && t'.entries == t.entries[i := e] && EntryInv(t', e)
    requires 1 <= t'.nextGeneration <= GENERATION_MAX && (t'.exhausted ==> t'.nextGeneration == GENERATION_MAX)
    requires t.nextGeneration <= t'.nextGeneration && (t.exhausted ==> t'.exhausted)
    requires forall k :: 0 <= k < CAPACITY && k != i ==> Apart(t.entries[k], e)
    ensures TableInv(t')
  {
    forall k | 0 <= k < CAPACITY ensures EntryInv(t', t'.entries[k]) { assert EntryInv(t, t.entries[k]); }
    forall a, b | 0 <= a < b < CAPACITY ensures Apart(t'.entries[a], t'.entries[b]) {
      assert Apart(t.entries[a], t.entries[b]);
    }
  }

  /** Two slots never hold the same hook, nor the same generation. */
  predicate Apart(a: Entry, b: Entry) {
    (a.hook != 0 ==> a.hook != b.hook) && (a.generation != 0 ==> a.generation != b.generation)
  }

  /** Writing one slot keeps the claims counted if the slot counts them, and nobody's claim loses its slot. */
  lemma ReplaceCounted(es: Slots, held: Call -> nat, i: Slot, e: Entry)
    requires Counted(es, held)
    requires e.inFlight == held(Call(e.hook, e.generation, i))
    requires held(CallFor(es, i)) == 0 || (e.hook == es[i].hook && e.generation == es[i].generation)
    ensures Counted(es[i := e], held)
  {
    var es': Slots := es[i := e];
    forall c | held(c) > 0 ensures es'[c.slot].hook != 0 && c == CallFor(es', c.slot) {
      assert c == CallFor(es, c.slot);
    }
    forall k | 0 <= k < CAPACITY ensures es'[k].inFlight == held(CallFor(es', k)) {
      assert es[k].inFlight == held(CallFor(es, k));
    }
  }

  /** A free slot has no claims on it, under any name. */
  lemma FreeIsUnclaimed(t: Table, held: Call -> nat, j: Slot, c: Call)
    requires TableInv(t) && Counted(t.entries, held) && t.entries[j].hook == 0 && c.slot == j
    ensures held(c) == 0 && held(CallFor(t.entries, j)) == 0
  {
    assert EntryInv(t, t.entries[j]);
  }

  lemma RegisterLegacyKeeps(t: Table, held: Call -> nat, hook: Hook)
    requires TableInv(t) && Counted(t.entries, held)
    ensures TableInv(RegisterLegacy(t, hook).0) && Counted(RegisterLegacy(t, hook).0.entries, held)
  {
    var t' := RegisterLegacy(t, hook).0;
    var i, j := Find(t.entries, hook), Find(t.entries, 0);
    if t' != t && i < CAPACITY {
      var e := t.entries[i];
      assert EntryInv(t, e) && e.inFlight == held(CallFor(t.entries, i));
      ReplaceInTable(t, t', i, e.(processLifetime := true));
      ReplaceCounted(t.entries, held, i, e.(processLifetime := true));
    } else if t' != t {
      FreeIsUnclaimed(t, held, j, Call(hook, 0, j));
      ReplaceInTable(t, t', j, Entry(hook, 0, 0, true, true));
      ReplaceCounted(t.entries, held, j, Entry(hook, 0, 0, true, true));
    }
  }

  lemma RegisterOwnedKeeps(t: Table, held: Call -> nat, hook: Hook)
    requires TableInv(t) && Counted(t.entries, held)
    ensures TableInv(RegisterOwned(t, hook).0) && Counted(RegisterOwned(t, hook).0.entries, held)
  {
    var t' := RegisterOwned(t, hook).0;
    if t' != t {
      var j := Find(t.entries, 0);
      var e := Entry(hook, t.nextGeneration, 0, true, false);
      FreeIsUnclaimed(t, held, j, Call(hook, t.nextGeneration, j));
      forall k | 0 <= k < CAPACITY && k != j ensures Apart(t.entries[k], e) { assert EntryInv(t, t.entries[k]); }
      ReplaceInTable(t, t', j, e);
      ReplaceCounted(t.entries, held, j, e);
    }
  }

  lemma UnregisterKeeps(t: Table, held: Call -> nat, token: nat)
    requires TableInv(t) && Counted(t.entries, held)
    ensures TableInv(Unregister(t, token).0) && Counted(Unregister(t, token).0.entries, held)
  {
    var (t', status) := Unregister(t, token);
    if t' != t {
      var i: Slot := token % SLOT_RADIX - 1;
      var e := t.entries[i];
      var e' := if status == Busy then e.(active := false) else EMPTY;
      assert EntryInv(t, e) && e.inFlight == held(CallFor(t.entries, i));
      if status == Success { EmptyIsUnclaimed(t.entries, held, i); }
      ReplaceInTable(t, t', i, e');
      ReplaceCounted(t.entries, held, i, e');
    }
  }

  lemma EmptyIsUnclaimed(es: Slots, held: Call -> nat, i: Slot)
    requires Counted(es, held) && es[i].hook != 0
    ensures held(Call(0, 0, i)) == 0
  {
  }

  lemma ClaimKeepsTable(t: Table)
    requires TableInv(t)
    ensures TableInv(Claim(t).0)
  {
    var t' := Claim(t).0;
    forall i | 0 <= i < CAPACITY
      ensures EntryInv(t', t'.entries[i])
    {
      assert EntryInv(t, t.entries[i]);
    }
  }

  lemma ClaimKeepsCount(t: Table, held: Call -> nat, held': Call -> nat)
    requires TableInv(t) && Counted(t.entries, held)
    requires forall c :: held'(c) == held(c) + multiset(Claim(t).2)[c]
    ensures Counted(Claim(t).0.entries, held')
  {
    ClaimedOnce(t.entries, 0);
    var es, es' := t.entries, Claim(t).0.entries;
    forall i | 0 <= i < CAPACITY
      ensures CallFor(es', i) == CallFor(es, i)
      ensures es'[i].inFlight == held'(CallFor(es', i))
    {
      assert es[i].inFlight == held(CallFor(es, i));
    }
  }

  lemma ReleaseKeeps(t: Table, held: Call -> nat, call: Call, held': Call -> nat)
    requires TableInv(t) && Counted(t.entries, held) && held(call) > 0
    requires forall c :: held'(c) == if c == call then held(c) - 1 else held(c)
    ensures TableInv(Release(t, call)) && Counted(Release(t, call).entries, held')
  {
  }

  /** The invariant survives every step of every thread. */
  lemma StepKeepsInv(s: System, step: Step)
    requires Inv(s)
    ensures Inv(Apply(s, step))
  {
    if Enabled(s, step) {
      var s' := Apply(s, step);
      var held: Call -> nat := c => Outstanding(s, c);
      var held': Call -> nat := c => Outstanding(s', c);
      forall c ensures held'(c) == held(c) + Delta(s, step, c) { OutstandingAfter(s, step, c); }
      match step
      case DoRegisterLegacy(_, hook) => RegisterLegacyKeeps(s.table, held', hook);
      case DoRegisterOwned(_, hook) => RegisterOwnedKeeps(s.table, held', hook);
      case DoUnregister(_, token) => UnregisterKeeps(s.table, held', token);
      case DoNotify(t) =>
        ClaimKeepsTable(s.table);
        ClaimKeepsCount(s.table, held, held');
      case DoRelease(t) =>
        CursorIsOutstanding(s, t);
        ReleaseKeeps(s.table, held, Cursor(s, t), held');
      case _ =>
    }
  }

  // ---------- Whole runs ----------

  function Run(s: System, steps: seq<Step>): System {
    if steps == [] then s else Apply(Run(s, steps[..|steps| - 1]), steps[|steps| - 1])
  }

  const START: System := System(INITIAL, [])

  /** Every state any interleaving can reach satisfies the invariant. */
  lemma {:induction false} ReachableInv(steps: seq<Step>)
    ensures Inv(Run(START, steps))
  {
    if steps != [] {
      ReachableInv(steps[..|steps| - 1]);
      StepKeepsInv(Run(START, steps[..|steps| - 1]), steps[|steps| - 1]);
    }
  }

  lemma {:induction false} RunKeepsInv(s: System, steps: seq<Step>)
    requires Inv(s)
    ensures Inv(Run(s, steps))
  {
    if steps != [] {
      RunKeepsInv(s, steps[..|steps| - 1]);
      StepKeepsInv(Run(s, steps[..|steps| - 1]), steps[|steps| - 1]);
    }
  }

  /** The releasing section always passes its guard: it takes exactly one off the counter. */
  lemma ReleaseNeverSkips(s: System, t: nat)
    requires Inv(s) && Enabled(s, DoRelease(t))
    ensures var c := Cursor(s, t);
            var e := s.table.entries[c.slot];
            && e.hook == c.hook != 0 && e.generation == c.generation && e.inFlight > 0
            && Apply(s, DoRelease(t)).table.entries[c.slot].inFlight == e.inFlight - 1
  {
    CursorIsOutstanding(s, t);
    var held: Call -> nat := c => Outstanding(s, c);
    assert held(Cursor(s, t)) > 0;
  }

  /**
    * A notification claims all active hooks, once each, or none of them; it claims none
    * exactly when some active slot's counter is full, so no counter wraps.
    */
  lemma NotifyAllOrNothing(t: Table)
    requires TableInv(t)
    ensures var (t', status, calls) := Claim(t);
            if exists i :: 0 <= i < CAPACITY && t.entries[i].active && t.entries[i].inFlight == U64_MAX
            then t' == t && status == Busy && calls == []
            else
              && status == Success
              && (forall i: Slot :: t.entries[i].active ==>
                    && multiset(calls)[CallFor(t.entries, i)] == 1
                    && t'.entries[i] == t.entries[i].(inFlight := t.entries[i].inFlight + 1)
                    && t'.entries[i].inFlight <= U64_MAX)
              && (forall i: Slot :: !t.entries[i].active ==> t'.entries[i] == t.entries[i])
              && (forall c :: c in calls ==> t.entries[c.slot].active)
  {
    ClaimedOnce(t.entries, 0);
    forall i | 0 <= i < CAPACITY
      ensures t.entries[i].active <==> Claimable(t.entries[i])
    {
      assert EntryInv(t, t.entries[i]);
    }
    forall c | c in Claim(t).2
      ensures Claimable(t.entries[c.slot])
    {
      assert multiset(Claim(t).2)[c] > 0;
    }
  }

  // Safety of unloading.

  /** Some activation of some thread has `c` still ahead of it, is inside it, or has yet to release it. */
  ghost predicate MayRun(s: System, c: Call) {
    exists t, d, k | 0 <= t < |s.threads| && 0 <= d < |s.threads[t]| && 0 <= k < |s.threads[t][d].calls| ::
      s.threads[t][d].next <= k && s.threads[t][d].calls[k] == c
  }

  lemma {:induction false} HeldCovers(th: Thread, d: nat, k: nat)
    requires d < |th| && th[d].next <= k < |th[d].calls|
    ensures Held(th, th[d].calls[k]) > 0
  {
    var c := th[d].calls[k];
    if d == |th| - 1 {
      assert th[d].calls[th[d].next..][k - th[d].next] == c;
    } else {
      HeldCovers(th[..|th| - 1], d, k);
    }
  }

  lemma MayRunIsOutstanding(s: System, c: Call)
    requires MayRun(s, c)
    ensures Outstanding(s, c) > 0
  {
    var t, d, k :| 0 <= t < |s.threads| && 0 <= d < |s.threads[t]| && 0 <= k < |s.threads[t][d].calls| &&
                   s.threads[t][d].next <= k && s.threads[t][d].calls[k] == c;
    HeldCovers(s.threads[t], d, k);
    HeldIsOutstanding(s.threads, t, c);
  }

  lemma OnlyRegisteredHooksRun(s: System, c: Call)
    requires Inv(s) && MayRun(s, c)
    ensures c == CallFor(s.table.entries, c.slot) && c.hook != 0 && s.table.entries[c.slot].inFlight > 0
  {
    MayRunIsOutstanding(s, c);
    var held: Call -> nat := c => Outstanding(s, c);
    assert held(c) > 0;
  }

  /** A generation that was issued and that no slot holds any more. */
  predicate Retired(t: Table, g: nat) {
    Issued(t, g) && forall i :: 0 <= i < CAPACITY ==> t.entries[i].generation != g
  }

  predicate Registers(step: Step, hook: Hook) {
    (step.DoRegisterLegacy? || step.DoRegisterOwned?) && step.hook == hook
  }

  predicate Absent(t: Table, hook: Hook) {
    forall i :: 0 <= i < CAPACITY ==> t.entries[i].hook != hook
  }

  lemma StepKeepsIssued(s: System, step: Step, g: nat)
    requires Inv(s) && Issued(s.table, g)
    ensures Issued(Apply(s, step).table, g)
    ensures Retired(s.table, g) ==> Retired(Apply(s, step).table, g)
  {
  }

  lemma {:induction false} RunKeepsIssued(s: System, steps: seq<Step>, g: nat)
    requires Inv(s) && Issued(s.table, g)
    ensures Issued(Run(s, steps).table, g)
    ensures Retired(s.table, g) ==> Retired(Run(s, steps).table, g)
  {
    if steps != [] {
      RunKeepsInv(s, steps[..|steps| - 1]);
      RunKeepsIssued(s, steps[..|steps| - 1], g);
      StepKeepsIssued(Run(s, steps[..|steps| - 1]), steps[|steps| - 1], g);
    }
  }

  lemma {:induction false} RunKeepsAbsent(s: System, steps: seq<Step>, hook: Hook)
    requires Inv(s) && hook != 0 && Absent(s.table, hook)
    requires forall k :: 0 <= k < |steps| ==> !Registers(steps[k], hook)
    ensures Absent(Run(s, steps).table, hook)
  {
    if steps != [] {
      RunKeepsAbsent(s, steps[..|steps| - 1], hook);
    }
  }

  function SlotOf(token: nat): int { token % SLOT_RADIX - 1 }

  function GenerationOf(token: nat): nat { token / SLOT_RADIX }

  /**
    * An unregister succeeds exactly on a drained registration of that slot and generation that the old API never
    * pinned.
    */
  lemma UnregisterSucceeds(s: System, token: nat)
    requires Inv(s)
    ensures Unregister(s.table, token).1 == Success <==>
            && GenerationOf(token) != 0 && 0 <= SlotOf(token) < CAPACITY
            && var e := s.table.entries[SlotOf(token)];
               && e.generation == GenerationOf(token) && !e.processLifetime
               && Outstanding(s, CallFor(s.table.entries, SlotOf(token))) == 0
  {
    if 0 <= SlotOf(token) < CAPACITY {
      var held: Call -> nat := c => Outstanding(s, c);
      assert EntryInv(s.table, s.table.entries[SlotOf(token)]);
      assert s.table.entries[SlotOf(token)].inFlight == held(CallFor(s.table.entries, SlotOf(token)));
    }
  }

  lemma SuccessRetires(t: Table, token: nat)
    requires TableInv(t) && Unregister(t, token).1 == Success
    ensures var hook := t.entries[SlotOf(token)].hook;
            hook != 0 && Retired(Unregister(t, token).0, GenerationOf(token)) && Absent(Unregister(t, token).0, hook)
  {
    assert EntryInv(t, t.entries[SlotOf(token)]);
  }

  lemma RetiredNeverRuns(s: System, token: nat)
    requires Inv(s) && Retired(s.table, GenerationOf(token)) && 0 <= SlotOf(token) < CAPACITY
    ensures forall c :: MayRun(s, c) ==> c.generation != GenerationOf(token)
    ensures Unregister(s.table, token).1 == StaleHandle
  {
    forall c | MayRun(s, c) ensures c.generation != GenerationOf(token) { OnlyRegisteredHooksRun(s, c); }
  }

  lemma AbsentNeverRuns(s: System, hook: Hook)
    requires Inv(s) && Absent(s.table, hook)
    ensures forall c :: MayRun(s, c) ==> c.hook != hook
  {
    forall c | MayRun(s, c) ensures c.hook != hook { OnlyRegisteredHooksRun(s, c); }
  }

  /**
    * The promise of the owned API. Once unregister has reported success, then at every later
    * point of every interleaving: no call of that registration is pending, running or
    * unreleased in any thread; the token is stale, whatever was registered since; and the
    * hook's code is not in use at all unless somebody registered it again.
    */
  lemma UnloadIsSafeAfterSuccess(s: System, tid: nat, token: nat, later: seq<Step>)
    requires Inv(s) && Enabled(s, DoUnregister(tid, token))
    requires Unregister(s.table, token).1 == Success
    ensures var hook := s.table.entries[SlotOf(token)].hook;
            var s' := Run(Apply(s, DoUnregister(tid, token)), later);
            && (forall c :: MayRun(s', c) ==> c.generation != GenerationOf(token))
            && Unregister(s'.table, token).1 == StaleHandle
            && ((forall k :: 0 <= k < |later| ==> !Registers(later[k], hook)) ==>
                  forall c :: MayRun(s', c) ==> c.hook != hook)
  {
    var g, hook := GenerationOf(token), s.table.entries[SlotOf(token)].hook;
    var s1 := Apply(s, DoUnregister(tid, token));
    var s' := Run(s1, later);
    SuccessRetires(s.table, token);
    StepKeepsInv(s, DoUnregister(tid, token));
    RunKeepsInv(s1, later);
    RunKeepsIssued(s1, later, g);
    RetiredNeverRuns(s', token);
    if forall k :: 0 <= k < |later| ==> !Registers(later[k], hook) {
      RunKeepsAbsent(s1, later, hook);
      AbsentNeverRuns(s', hook);
    }
  }

  /** A hook can never unregister itself away: while its call is unreleased, its token does not succeed. */
  lemma NoSuccessFromInside(s: System, c: Call, token: nat)
    requires Inv(s) && MayRun(s, c)
    requires token == Token(c.slot, c.generation)
    ensures Unregister(s.table, token).1 != Success
  {
    OnlyRegisteredHooksRun(s, c);
    assert SlotOf(token) == c.slot;
  }

  // After BUSY: the registration only drains.

  predicate Draining(t: Table, slot: Slot, g: nat) {
    var e := t.entries[slot];
    e.hook != 0 && e.generation == g != 0 && !e.active
  }

  function ReleaseAt(s: System, step: Step, slot: Slot): nat {
    if step.DoRelease? && Enabled(s, step) && Cursor(s, step.tid).slot == slot then 1 else 0
  }

  /** Releases of claims on `slot` performed along a run. */
  function Releases(s: System, steps: seq<Step>, slot: Slot): nat {
    if steps == [] then 0
    else Releases(s, steps[..|steps| - 1], slot)
         + ReleaseAt(Run(s, steps[..|steps| - 1]), steps[|steps| - 1], slot)
  }

  lemma BusyStartsDraining(s: System, token: nat)
    requires Inv(s) && Unregister(s.table, token).1 == Busy
    ensures Draining(Unregister(s.table, token).0, SlotOf(token), GenerationOf(token))
    ensures s.table.entries[SlotOf(token)].inFlight > 0
  {
  }

  lemma DrainStep(s: System, step: Step, slot: Slot, g: nat)
    requires Inv(s) && Draining(s.table, slot, g)
    ensures var t' := Apply(s, step).table;
            || (&& Draining(t', slot, g) && t'.entries[slot].hook == s.table.entries[slot].hook
                && t'.entries[slot].inFlight + ReleaseAt(s, step, slot) == s.table.entries[slot].inFlight)
            || (Retired(t', g) && s.table.entries[slot].inFlight == 0)
  {
    assert EntryInv(s.table, s.table.entries[slot]);
    if Enabled(s, step) {
      match step
      case DoRelease(t) => ReleaseNeverSkips(s, t);
      case _ =>
    }
  }

  /** What a retry is answered: refused while claims are outstanding. */
  lemma RetryAnswer(t: Table, slot: Slot, g: nat)
    requires TableInv(t) && Draining(t, slot, g)
    ensures Unregister(t, Token(slot, g)).1 == if t.entries[slot].inFlight > 0 then Busy else Success
  {
    assert SlotOf(Token(slot, g)) == slot && GenerationOf(Token(slot, g)) == g;
    assert EntryInv(t, t.entries[slot]);
  }

  /**
    * From a BUSY answer on, every unit of the counter is paid for by one release and nothing
    * adds to it; a retry is refused exactly while some release is still owed, and then succeeds.
    */
  lemma {:induction false} BusyDrainsToSuccess(s: System, steps: seq<Step>, slot: Slot, g: nat)
    requires Inv(s) && Draining(s.table, slot, g)
    ensures var s' := Run(s, steps);
            var owed := s.table.entries[slot].inFlight;
            || Retired(s'.table, g)
            || (&& Draining(s'.table, slot, g)
                && s'.table.entries[slot].inFlight + Releases(s, steps, slot) == owed
                && Unregister(s'.table, Token(slot, g)).1 ==
                     if Releases(s, steps, slot) < owed then Busy else Success)
  {
    RunKeepsInv(s, steps);
    if steps != [] {
      var before := Run(s, steps[..|steps| - 1]);
      RunKeepsInv(s, steps[..|steps| - 1]);
      BusyDrainsToSuccess(s, steps[..|steps| - 1], slot, g);
      if Retired(before.table, g) {
        StepKeepsIssued(before, steps[|steps| - 1], g);
      } else {
        DrainStep(before, steps[|steps| - 1], slot, g);
      }
    }
    if Draining(Run(s, steps).table, slot, g) { RetryAnswer(Run(s, steps).table, slot, g); }
  }

  // Tokens.

  /** A successful owned registration names a slot that was free, by a 64-bit token that decodes to it. */
  lemma OwnedTokenNamesItsSlot(t: Table, hook: Hook)
    requires TableInv(t)
    ensures var (t', status, token) := RegisterOwned(t, hook);
            && (status == Success <==>
                  hook != 0 && Absent(t, hook) && !t.exhausted &&
                  exists i :: 0 <= i < CAPACITY && t.entries[i].hook == 0)
            && (status != Success ==> t' == t && token == 0)
            && (status == Success ==>
                  && 0 < token <= U64_MAX && 0 <= SlotOf(token) < CAPACITY
                  && t.entries[SlotOf(token)] == EMPTY
                  && t' == t'.(entries := t.entries[SlotOf(token) := Entry(hook, GenerationOf(token), 0, true, false)])
                  && Issued(t', GenerationOf(token)) && !Issued(t, GenerationOf(token)))
  {
    var j := Find(t.entries, 0);
    var g := t.nextGeneration;
    assert Token(j, g) % SLOT_RADIX == j + 1 && Token(j, g) / SLOT_RADIX == g;
    if j < CAPACITY {
      assert EntryInv(t, t.entries[j]);
    }
  }

  /** No two owned registrations of one run ever receive the same token. */
  lemma TokensNeverRepeat(s: System, tid: nat, hook: Hook, between: seq<Step>, hook': Hook)
    requires Inv(s) && Enabled(s, DoRegisterOwned(tid, hook))
    requires RegisterOwned(s.table, hook).1 == Success
    requires RegisterOwned(Run(Apply(s, DoRegisterOwned(tid, hook)), between).table, hook').1 == Success
    ensures RegisterOwned(Run(Apply(s, DoRegisterOwned(tid, hook)), between).table, hook').2 !=
            RegisterOwned(s.table, hook).2
  {
    var s1 := Apply(s, DoRegisterOwned(tid, hook));
    StepKeepsInv(s, DoRegisterOwned(tid, hook));
    RunKeepsInv(s1, between);
    OwnedTokenNamesItsSlot(s.table, hook);
    RunKeepsIssued(s1, between, GenerationOf(RegisterOwned(s.table, hook).2));
    OwnedTokenNamesItsSlot(Run(s1, between).table, hook');
  }

  /** The slot holds the hook, active, and will not give it back. */
  predicate Pinned(t: Table, i: Slot, hook: Hook) {
    t.entries[i].hook == hook != 0 && t.entries[i].active && t.entries[i].processLifetime
  }

  lemma StepKeepsPinned(s: System, step: Step, i: Slot, hook: Hook)
    requires Pinned(s.table, i, hook)
    ensures Pinned(Apply(s, step).table, i, hook)
  {
  }

  lemma {:induction false} RunKeepsPinned(s: System, steps: seq<Step>, i: Slot, hook: Hook)
    requires Pinned(s.table, i, hook)
    ensures Pinned(Run(s, steps).table, i, hook)
  {
    if steps != [] {
      RunKeepsPinned(s, steps[..|steps| - 1], i, hook);
      StepKeepsPinned(Run(s, steps[..|steps| - 1]), steps[|steps| - 1], i, hook);
    }
  }

  ghost predicate NoTokenSucceeds(t: Table, i: Slot) {
    forall token: nat :: SlotOf(token) == i ==> Unregister(t, token).1 != Success
  }

  lemma PinnedRefuses(t: Table, i: Slot, hook: Hook)
    requires Pinned(t, i, hook)
    ensures NoTokenSucceeds(t, i)
  {
  }

  /** When the legacy call is refused; a refusal changes nothing. */
  lemma LegacyRefused(t: Table, hook: Hook)
    requires TableInv(t)
    ensures var (t', status) := RegisterLegacy(t, hook);
            && (status == InvalidArgument <==> hook == 0)
            && (status == Busy <==> hook != 0 && exists i: Slot :: t.entries[i].hook == hook && !t.entries[i].active)
            && (status == LimitExceeded <==> hook != 0 && Absent(t, hook) && forall i: Slot :: t.entries[i].hook != 0)
            && (status != Success ==> t' == t)
  {
    var i := Find(t.entries, hook);
    if i < CAPACITY { assert EntryInv(t, t.entries[i]); }
  }

  /**
    * The legacy call pins a hook for the life of the process: from its success on, at every point of
    * every interleaving, the hook sits active in its slot and no token of that slot succeeds.
    */
  lemma LegacyPins(s: System, tid: nat, hook: Hook, later: seq<Step>)
    requires Enabled(s, DoRegisterLegacy(tid, hook)) && RegisterLegacy(s.table, hook).1 == Success
    ensures exists i: Slot :: Pinned(RegisterLegacy(s.table, hook).0, i, hook)
    ensures forall i: Slot :: Pinned(RegisterLegacy(s.table, hook).0, i, hook) ==>
              var s' := Run(Apply(s, DoRegisterLegacy(tid, hook)), later);
              Pinned(s'.table, i, hook) && NoTokenSucceeds(s'.table, i)
  {
    var i := Find(s.table.entries, hook);
    assert Pinned(RegisterLegacy(s.table, hook).0, if i < CAPACITY then i else Find(s.table.entries, 0), hook);
    var s1 := Apply(s, DoRegisterLegacy(tid, hook));
    forall i: Slot | Pinned(s1.table, i, hook)
      ensures Pinned(Run(s1, later).table, i, hook) && NoTokenSucceeds(Run(s1, later).table, i)
    {
      RunKeepsPinned(s1, later, i, hook);
      PinnedRefuses(Run(s1, later).table, i, hook);
    }
  }

  // ---------- Part three: the registry as the source runs it ----------

  /** The globals guarded by the lock; each method is one critical section. */
  class Registry {
    const entries: array<Entry>
    var nextGeneration: nat
    var exhausted: bool

    ghost predicate Valid() {
      entries.Length == CAPACITY
    }

    ghost function View(): Table
      requires Valid()
      reads this, entries
    {
      Table(entries[..], nextGeneration, exhausted)
    }

    constructor ()
      ensures Valid() && fresh(entries) && View() == INITIAL
    {
      entries := new Entry[CAPACITY](_ => EMPTY);
      nextGeneration, exhausted := 1, false;
      new;
      assert entries[..] == INITIAL.entries;
    }

    method IndexOf(hook: Hook) returns (i: nat)
      requires Valid()
      ensures i == Find(entries[..], hook)
    {
      i := 0;
      while i < CAPACITY && entries[i].hook != hook
        invariant i <= CAPACITY
        invariant Find(entries[..], hook) == Find(entries[..], hook, i)
      {
        i := i + 1;
      }
    }

    method RegisterHook(hook: Hook) returns (status: Status)
      requires Valid()
      modifies this, entries
      ensures Valid() && (View(), status) == RegisterLegacy(old(View()), hook)
    {
      if hook == 0 { return InvalidArgument; }
      var i := IndexOf(hook);
      if i < CAPACITY {
        if !entries[i].active { return Busy; }
        entries[i] := entries[i].(processLifetime := true);
        return Success;
      }
      i := IndexOf(0);
      if i == CAPACITY { return LimitExceeded; }
      entries[i] := Entry(hook, 0, 0, true, true);
      return Success;
    }

    method RegisterOwnedHook(hook: Hook) returns (status: Status, token: nat)
      requires Valid()
      modifies this, entries
      ensures Valid() && (View(), status, token) == RegisterOwned(old(View()), hook)
    {
      token := 0;
      if hook == 0 { return InvalidArgument, token; }
      var i := IndexOf(hook);
      if i < CAPACITY { return if entries[i].active then Exists else Busy, token; }
      if exhausted { return LimitExceeded, token; }
      i := IndexOf(0);
      if i == CAPACITY { return LimitExceeded, token; }
      var generation := nextGeneration;
      if generation == GENERATION_MAX { exhausted := true; } else { nextGeneration := generation + 1; }
      entries[i] := Entry(hook, generation, 0, true, false);
      return Success, Token(i, generation);
    }

    method UnregisterHook(token: nat) returns (status: Status)
      requires Valid()
      modifies this, entries
      ensures Valid() && (View(), status) == Unregister(old(View()), token)
    {
      var encodedSlot, generation := token % SLOT_RADIX, token / SLOT_RADIX;
      if generation == 0 || encodedSlot == 0 || encodedSlot > CAPACITY { return InvalidArgument; }
      var i := encodedSlot - 1;
      if entries[i].hook == 0 || entries[i].generation != generation { return StaleHandle; }
      if entries[i].processLifetime { return AccessDenied; }
      entries[i] := entries[i].(active := false);
      if entries[i].inFlight != 0 { return Busy; }
      entries[i] := entries[i].(hook := 0, generation := 0, processLifetime := false);
      assert entries[..] == old(entries[..])[i := EMPTY];
      return Success;
    }

    method ClaimHooks() returns (status: Status, calls: seq<Call>)
      requires Valid()
      modifies this, entries
      ensures Valid() && (View(), status, calls) == Claim(old(View()))
    {
      calls := [];
      for i := 0 to CAPACITY
        invariant forall k :: 0 <= k < i ==> !(Claimable(entries[k]) && entries[k].inFlight == U64_MAX)
      {
        if entries[i].hook != 0 && entries[i].active && entries[i].inFlight == U64_MAX {
          return Busy, calls;
        }
      }
      ghost var was: Slots := entries[..];
      assert !Saturated(was);
      for i := 0 to CAPACITY
        invariant forall k :: 0 <= k < CAPACITY ==> entries[k] == if k < i then Bumped(was[k]) else was[k]
        invariant calls + ClaimedCalls(was, i) == ClaimedCalls(was, 0)
        invariant nextGeneration == old(nextGeneration) && exhausted == old(exhausted)
      {
        if entries[i].hook == 0 || !entries[i].active { continue; }
        entries[i] := entries[i].(inFlight := entries[i].inFlight + 1);
        calls := calls + [Call(entries[i].hook, entries[i].generation, i)];
      }
      assert calls + ClaimedCalls(was, CAPACITY) == calls;
      assert entries[..] == Claim(old(View())).0.entries;
      return Success, calls;
    }

    method ReleaseHook(call: Call)
      requires Valid()
      modifies this, entries
      ensures Valid() && View() == Release(old(View()), call)
    {
      var e := entries[call.slot];
      if e.hook == call.hook && e.generation == call.generation && e.inFlight != 0 {
        entries[call.slot] := e.(inFlight := e.inFlight - 1);
      }
    }
  }
}
