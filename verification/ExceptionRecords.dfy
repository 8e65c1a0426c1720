/**
  * The cleanup records of the exception frames: whatever a script and its callbacks do, each record is
  * registered once and disposed of at most once, and the runs on each frame go newest first.
  */
module ExceptionRecords {
  import opened ExceptionFrames

  // ---------- What every reachable state says of its records ----------

  /** Every frame installed so far, and no other, has a list of cleanups. */
  ghost predicate ListsKnown(st: State) {
    forall f: FrameId :: f in st.cleanups <==> f < st.nextFrame
  }

  /** Every list holds records of its own frame, newest first. */
  ghost predicate ListsOrdered(st: State) {
    && (forall id :: 0 <= id < |st.owners| ==>
          && st.owners[id].frame in st.cleanups
          && st.owners[id].at < |st.log|
          && st.log[st.owners[id].at] == Registered(st.owners[id].frame, id))
    && (forall f, i :: f in st.cleanups && 0 <= i < |st.cleanups[f]| ==>
          && st.cleanups[f][i].id < |st.owners|
          && st.owners[st.cleanups[f][i].id].frame == f)
    && (forall f, i, j :: f in st.cleanups && 0 <= i < j < |st.cleanups[f]| ==>
          st.cleanups[f][i].id > st.cleanups[f][j].id)
  }

  ghost predicate Holds(records: seq<Record>, id: nat) {
    exists i :: 0 <= i < |records| && records[i].id == id
  }

  /** The record is still on its frame. */
  ghost predicate Live(st: State, id: nat) {
    id < |st.owners| && st.owners[id].frame in st.cleanups && Holds(st.cleanups[st.owners[id].frame], id)
  }

  function Registrations(st: State, f: FrameId, id: nat): nat { multiset(st.log)[Registered(f, id)] }

  function Disposals(st: State, id: nat): nat { multiset(st.log)[Ran(id)] + multiset(st.log)[Unregistered(id)] }

  function Frees(st: State, id: nat): nat { multiset(st.log)[Freed(id)] }

  /**
    * A record is registered once; it has been run or unregistered, and freed, exactly once if it
    * is not live, else never.
    */
  ghost predicate Accounted(st: State, id: nat) {
    && (forall f: FrameId :: Registrations(st, f, id) == if id < |st.owners| && st.owners[id].frame == f then 1 else 0)
    && Disposals(st, id) == Frees(st, id) == if id < |st.owners| && !Live(st, id) then 1 else 0
  }

  /**
    * Newest first: when a record runs after an older record of its frame was run, it was not
    * yet registered when the older one ran.
    */
  ghost predicate NewestFirst(st: State) {
    forall i, j :: 0 <= i < j < |st.log| && RanOn(st, i) && RanOn(st, j) &&
                   st.owners[st.log[i].id].frame == st.owners[st.log[j].id].frame &&
                   st.log[i].id < st.log[j].id ==>
      i < st.owners[st.log[j].id].at
  }

  predicate RanOn(st: State, i: nat)
    requires i < |st.log|
  {
    st.log[i].Ran? && st.log[i].id < |st.owners|
  }

  /** A live record newer than one that has run was registered after that run. */
  ghost predicate LiveAreNewer(st: State) {
    forall i, f, k {:trigger RanOn(st, i), st.cleanups[f][k]} ::
        0 <= i < |st.log| && RanOn(st, i) && f in st.cleanups && 0 <= k < |st.cleanups[f]| &&
        st.owners[st.log[i].id].frame == f && st.cleanups[f][k].id < |st.owners| &&
        st.log[i].id < st.cleanups[f][k].id ==>
      i < st.owners[st.cleanups[f][k].id].at
  }

  /** What holds of the records: each is accounted for, and the runs on a frame go newest first. */
  ghost predicate Records(st: State) {
    && ListsKnown(st)
    && ListsOrdered(st)
    && (forall id: nat :: Accounted(st, id))
    && NewestFirst(st)
    && LiveAreNewer(st)
  }

  lemma InstallKeeps(st: State)
    requires Records(st)
    ensures Records(Install(st))
  {
    var st' := Install(st);
    InstallLive(st);
    assert forall i :: 0 <= i < |st'.log| && RanOn(st', i) ==> RanOn(st, i);
    forall id: nat ensures Accounted(st', id) { InstallAccounts(st, id); }
  }

  lemma InstallAccounts(st: State, id: nat)
    requires ListsKnown(st) && ListsOrdered(st) && Accounted(st, id)
    ensures Accounted(Install(st), id)
  {
    var st' := Install(st);
    assert Live(st', id) <==> Live(st, id);
    forall f: FrameId ensures Registrations(st', f, id) == Registrations(st, f, id) {}
  }

  lemma InstallLive(st: State)
    requires ListsKnown(st) && LiveAreNewer(st)
    ensures LiveAreNewer(Install(st))
  {
    var st' := Install(st);
    forall a, g, k | 0 <= a < |st'.log| && RanOn(st', a) && g in st'.cleanups && 0 <= k < |st'.cleanups[g]| &&
                     st'.owners[st'.log[a].id].frame == g && st'.cleanups[g][k].id < |st'.owners| &&
                     st'.log[a].id < st'.cleanups[g][k].id
      ensures a < st'.owners[st'.cleanups[g][k].id].at
    {
      assert RanOn(st, a) && st'.cleanups[g][k] == st.cleanups[g][k];
    }
  }

  lemma PushLists(st: State, f: FrameId, callback: nat, target: nat)
    requires ListsOrdered(st) && f in st.cleanups
    ensures ListsOrdered(Push(st, f, callback, target))
  {
    var st' := Push(st, f, callback, target);
    assert st'.cleanups[f][0].id == |st.owners|;
    assert forall k :: 0 < k < |st'.cleanups[f]| ==> st'.cleanups[f][k] == st.cleanups[f][k - 1];
    forall g, a, b | g in st'.cleanups && 0 <= a < b < |st'.cleanups[g]|
      ensures st'.cleanups[g][a].id > st'.cleanups[g][b].id
    {
      if g == f && a > 0 { assert st.cleanups[f][a - 1].id > st.cleanups[f][b - 1].id; }
    }
  }

  lemma PushAccounts(st: State, f: FrameId, callback: nat, target: nat, id: nat)
    requires ListsOrdered(st) && f in st.cleanups && Accounted(st, id)
    ensures Accounted(Push(st, f, callback, target), id)
  {
    var st' := Push(st, f, callback, target);
    var n := |st.owners|;
    assert multiset(st'.log) == multiset(st.log) + multiset{Registered(f, n)};
    forall g: FrameId
      ensures Registrations(st', g, id) == Registrations(st, g, id) + if g == f && id == n then 1 else 0 {}
    HoldsPrepend(st.cleanups[f], st'.cleanups[f][0], id);
  }

  lemma PushRan(st: State, f: FrameId, callback: nat, target: nat, i: nat)
    requires f in st.cleanups && forall id: nat :: Accounted(st, id)
    requires i <= |st.log| && RanOn(Push(st, f, callback, target), i)
    ensures i < |st.log| && RanOn(st, i)
  {
    assert Accounted(st, st.log[i].id);
    assert st.log[i] in multiset(st.log);
  }

  lemma PushOrder(st: State, f: FrameId, callback: nat, target: nat)
    requires f in st.cleanups && (forall id: nat :: Accounted(st, id))
    requires NewestFirst(st)
    ensures NewestFirst(Push(st, f, callback, target))
  {
    var st' := Push(st, f, callback, target);
    forall a, b | 0 <= a < b < |st'.log| && RanOn(st', a) && RanOn(st', b) &&
                  st'.owners[st'.log[a].id].frame == st'.owners[st'.log[b].id].frame &&
                  st'.log[a].id < st'.log[b].id
      ensures a < st'.owners[st'.log[b].id].at
    {
      PushRan(st, f, callback, target, a);
      PushRan(st, f, callback, target, b);
    }
  }

  lemma PushLive(st: State, f: FrameId, callback: nat, target: nat)
    requires ListsOrdered(st) && f in st.cleanups && (forall id: nat :: Accounted(st, id))
    requires LiveAreNewer(st)
    ensures LiveAreNewer(Push(st, f, callback, target))
  {
    var st' := Push(st, f, callback, target);
    forall a, g, k | 0 <= a < |st'.log| && RanOn(st', a) && g in st'.cleanups && 0 <= k < |st'.cleanups[g]| &&
                     st'.owners[st'.log[a].id].frame == g && st'.cleanups[g][k].id < |st'.owners| &&
                     st'.log[a].id < st'.cleanups[g][k].id
      ensures a < st'.owners[st'.cleanups[g][k].id].at
    {
      PushRan(st, f, callback, target, a);
      if !(g == f && k == 0) {
        var k' := if g == f then k - 1 else k;
        assert st'.cleanups[g][k] == st.cleanups[g][k'];
      }
    }
  }

  lemma PushKeeps(st: State, f: FrameId, callback: nat, target: nat)
    requires Records(st) && f in st.cleanups
    ensures Records(Push(st, f, callback, target))
  {
    PushLists(st, f, callback, target);
    PushOrder(st, f, callback, target);
    PushLive(st, f, callback, target);
    forall id: nat ensures Accounted(Push(st, f, callback, target), id) { PushAccounts(st, f, callback, target, id); }
  }

  lemma HoldsPrepend(records: seq<Record>, record: Record, id: nat)
    ensures Holds([record] + records, id) <==> id == record.id || Holds(records, id)
  {
    var longer := [record] + records;
    if id == record.id { assert longer[0].id == id; }
    if Holds(records, id) {
      var i :| 0 <= i < |records| && records[i].id == id;
      assert longer[i + 1].id == id;
    }
  }

  /** Taking the record at `i` out of a list with distinct ids removes that id and no other. */
  lemma HoldsRemove(records: seq<Record>, i: nat, id: nat)
    requires i < |records|
    requires forall a, b :: 0 <= a < b < |records| ==> records[a].id > records[b].id
    ensures Holds(records[..i] + records[i + 1..], id) <==> id != records[i].id && Holds(records, id)
  {
    var rest := records[..i] + records[i + 1..];
    if id != records[i].id && Holds(records, id) {
      var k :| 0 <= k < |records| && records[k].id == id;
      assert rest[if k < i then k else k - 1].id == id;
    }
  }

  /** Taking the record at `i` off its frame, with the two log entries that go with it. */
  ghost predicate Takes(st: State, st': State, f: FrameId, i: nat, tail: seq<Event>) {
    && f in st.cleanups && i < |st.cleanups[f]|
    && var id := st.cleanups[f][i].id;
       && (tail == [Unregistered(id), Freed(id)] || (i == 0 && tail == [Freed(id), Ran(id)]))
       && st' == st.(cleanups := st.cleanups[f := st.cleanups[f][..i] + st.cleanups[f][i + 1..]],
                     log := st.log + tail)
  }

  /** The record now at `k` was there before, at `k` or one further back. */
  lemma TakeAt(st: State, st': State, f: FrameId, i: nat, tail: seq<Event>, g: FrameId, k: nat)
    requires Takes(st, st', f, i, tail) && g in st'.cleanups && k < |st'.cleanups[g]|
    ensures g in st.cleanups
    ensures var k' := if g == f && i <= k then k + 1 else k;
            k' < |st.cleanups[g]| && st'.cleanups[g][k] == st.cleanups[g][k']
  {
  }

  lemma TakeLists(st: State, st': State, f: FrameId, i: nat, tail: seq<Event>)
    requires ListsOrdered(st) && Takes(st, st', f, i, tail)
    ensures ListsOrdered(st')
  {
    forall id | 0 <= id < |st'.owners|
      ensures st'.owners[id].at < |st'.log| && st'.log[st'.owners[id].at] == Registered(st'.owners[id].frame, id)
    {
      assert st.log[st.owners[id].at] == Registered(st.owners[id].frame, id);
    }
    forall g, k | g in st'.cleanups && 0 <= k < |st'.cleanups[g]|
      ensures st'.cleanups[g][k].id < |st'.owners| && st'.owners[st'.cleanups[g][k].id].frame == g
    {
      TakeAt(st, st', f, i, tail, g, k);
    }
    forall g, a, b | g in st'.cleanups && 0 <= a < b < |st'.cleanups[g]|
      ensures st'.cleanups[g][a].id > st'.cleanups[g][b].id
    {
      TakeAt(st, st', f, i, tail, g, a);
      TakeAt(st, st', f, i, tail, g, b);
    }
  }

  lemma TakeAccounts(st: State, st': State, f: FrameId, i: nat, tail: seq<Event>, id: nat)
    requires ListsOrdered(st) && Takes(st, st', f, i, tail) && Accounted(st, id)
    ensures Accounted(st', id)
  {
    TakeCounts(st, st', f, i, tail, id);
    HoldsRemove(st.cleanups[f], i, id);
    if id == st.cleanups[f][i].id {
      assert Holds(st.cleanups[f], id);
    }
  }

  /** The two log entries are one disposal and one free of the record taken. */
  lemma TakeCounts(st: State, st': State, f: FrameId, i: nat, tail: seq<Event>, id: nat)
    requires Takes(st, st', f, i, tail)
    ensures forall g: FrameId :: Registrations(st', g, id) == Registrations(st, g, id)
    ensures Disposals(st', id) == Disposals(st, id) + if id == st.cleanups[f][i].id then 1 else 0
    ensures Frees(st', id) == Frees(st, id) + if id == st.cleanups[f][i].id then 1 else 0
  {
    assert multiset(st'.log) == multiset(st.log) + multiset(tail);
  }

  /** If the record taken is run, it is the newest one, so the order of runs is kept. */
  lemma TakeOrder(st: State, st': State, f: FrameId, i: nat, tail: seq<Event>)
    requires ListsOrdered(st) && Takes(st, st', f, i, tail)
    requires NewestFirst(st) && LiveAreNewer(st)
    ensures NewestFirst(st')
  {
    forall a, b | 0 <= a < b < |st'.log| && RanOn(st', a) && RanOn(st', b) &&
                  st'.owners[st'.log[a].id].frame == st'.owners[st'.log[b].id].frame &&
                  st'.log[a].id < st'.log[b].id
      ensures a < st'.owners[st'.log[b].id].at
    {
      assert a < |st.log| && RanOn(st, a);
      if b < |st.log| {
        assert RanOn(st, b);
      } else {
        assert st'.log[b].id == st.cleanups[f][0].id;
      }
    }
  }

  lemma TakeLive(st: State, st': State, f: FrameId, i: nat, tail: seq<Event>)
    requires ListsOrdered(st) && Takes(st, st', f, i, tail)
    requires LiveAreNewer(st)
    ensures LiveAreNewer(st')
  {
    forall a, g, k | 0 <= a < |st'.log| && RanOn(st', a) && g in st'.cleanups && 0 <= k < |st'.cleanups[g]| &&
                     st'.owners[st'.log[a].id].frame == g && st'.cleanups[g][k].id < |st'.owners| &&
                     st'.log[a].id < st'.cleanups[g][k].id
      ensures a < st'.owners[st'.cleanups[g][k].id].at
    {
      TakeAt(st, st', f, i, tail, g, k);
      if a < |st.log| {
        assert RanOn(st, a);
      }
    }
  }

  lemma TakeKeeps(st: State, st': State, f: FrameId, i: nat, tail: seq<Event>)
    requires Records(st) && Takes(st, st', f, i, tail)
    ensures Records(st')
  {
    TakeLists(st, st', f, i, tail);
    TakeOrder(st, st', f, i, tail);
    TakeLive(st, st', f, i, tail);
    forall id: nat ensures Accounted(st', id) { TakeAccounts(st, st', f, i, tail, id); }
  }

  lemma PopKeeps(st: State, f: FrameId)
    requires Records(st) && f in st.cleanups && st.cleanups[f] != []
    ensures Records(Pop(st, f))
  {
    var id := st.cleanups[f][0].id;
    assert st.cleanups[f][..0] + st.cleanups[f][1..] == st.cleanups[f][1..];
    TakeKeeps(st, Pop(st, f), f, 0, [Freed(id), Ran(id)]);
  }

  lemma RemoveKeeps(st: State, f: FrameId, i: nat)
    requires Records(st) && f in st.cleanups && i < |st.cleanups[f]|
    ensures Records(Remove(st, f, i))
  {
    var id := st.cleanups[f][i].id;
    TakeKeeps(st, Remove(st, f, i), f, i, [Unregistered(id), Freed(id)]);
  }

  /** The chain, the values caught and the frames gone are nothing to the records. */
  lemma SameRecords(st: State, st': State)
    requires Records(st) && st'.nextFrame == st.nextFrame
    requires st'.cleanups == st.cleanups && st'.owners == st.owners && st'.log == st.log
    ensures Records(st')
  {
    forall id: nat ensures Accounted(st', id) {
      assert Accounted(st, id);
      forall g: FrameId ensures Registrations(st', g, id) == Registrations(st, g, id) {}
    }
  }

  // ---------- Every operation keeps the account of the records ----------

  lemma UnwindRecords(code: Code, scope: Scope, f: FrameId, guarded: bool, st: State, fuel: nat)
    requires Records(st)
    ensures Records(UnwindCleanups(code, scope, f, guarded, st, fuel).st)
    decreases fuel, 0
  {
    if f in st.cleanups && st.cleanups[f] != [] && fuel > 0 {
      var record := st.cleanups[f][0];
      var st1 := Pop(st, f);
      PopKeeps(st, f);
      if guarded {
        InvokeRecords(code, scope, record, st1, fuel - 1);
      } else {
        ScriptRecords(code, scope, code.callback(record), st1, fuel - 1);
      }
      var r := if guarded then InvokeCleanup(code, scope, record, st1, fuel - 1)
               else RunScript(code, scope, code.callback(record), st1, fuel - 1);
      if r.out.Done? { UnwindRecords(code, scope, f, guarded, r.st, fuel - 1); }
    }
  }

  lemma InvokeRecords(code: Code, scope: Scope, record: Record, st: State, fuel: nat)
    requires Records(st)
    ensures Records(InvokeCleanup(code, scope, record, st, fuel).st)
    decreases fuel, 3
  {
    InstallKeeps(st);
    ScriptRecords(code, scope, code.callback(record), Install(st), fuel);
    var r := RunScript(code, scope, code.callback(record), Install(st), fuel);
    if r.out.Done? { LeaveRecords(code, scope, st.nextFrame, r.st, fuel); }
  }

  lemma LeaveRecords(code: Code, scope: Scope, f: FrameId, st: State, fuel: nat)
    requires Records(st)
    ensures Records(LeaveOn(code, scope, f, st, fuel).st)
    decreases fuel, 1
  {
    if OnTop(st, f) {
      UnwindRecords(code, scope, f, false, st, fuel);
      var r := UnwindCleanups(code, scope, f, false, st, fuel);
      if r.out.Done? && OnTop(r.st, f) { SameRecords(r.st, TakeOff(r.st)); }
    }
  }

  lemma ThrowRecords(code: Code, scope: Scope, exn: Exn, st: State, fuel: nat)
    requires Records(st)
    ensures Records(ThrowOwned(code, scope, exn, st, fuel).st)
    decreases fuel, 1
  {
    if st.chain != [] {
      var st1 := st.(chain := st.chain[1..]);
      SameRecords(st, st1);
      UnwindRecords(code, scope, st.chain[0], true, st1, fuel);
      var r := UnwindCleanups(code, scope, st.chain[0], true, st1, fuel);
      SameRecords(r.st, Land(r.st, st.chain[0], exn));
    }
  }

  lemma RegisterRecords(code: Code, st: State, f: FrameId, callback: nat, target: nat)
    requires Records(st)
    ensures Records(RegisterOn(code, st, f, callback, target).st)
  {
    if f in st.cleanups { PushKeeps(st, f, callback, target); }
  }

  lemma UnregisterRecords(st: State, f: FrameId, callback: nat, target: nat)
    requires Records(st)
    ensures Records(UnregisterOn(st, f, callback, target).st)
  {
    if f in st.cleanups {
      var i := Position(st.cleanups[f], callback, target);
      if i < |st.cleanups[f]| { RemoveKeeps(st, f, i); }
    }
  }

  lemma {:induction false} UnregisterAlongRecords(st: State, frames: seq<FrameId>, callback: nat, target: nat)
    requires Records(st)
    ensures Records(UnregisterAlong(st, frames, callback, target))
  {
    if frames != [] {
      var f := frames[0];
      if f in st.cleanups && Position(st.cleanups[f], callback, target) < |st.cleanups[f]| {
        RemoveKeeps(st, f, Position(st.cleanups[f], callback, target));
      } else {
        UnregisterAlongRecords(st, frames[1..], callback, target);
      }
    }
  }

  lemma OpRecords(code: Code, scope: Scope, op: Op, st: State, fuel: nat)
    requires Records(st)
    ensures Records(RunOp(code, scope, op, st, fuel).st)
    decreases fuel, 2, op
  {
    match op
    case Try(body, handler) =>
      BodyRecords(code, scope, body, st, fuel);
      ScriptRecords(code, Handling(scope, st.nextFrame), handler,
                    RunBody(code, scope, body, st, fuel).st, fuel);
    case Register(k, callback, target) =>
      if k < |scope.open| { RegisterRecords(code, st, scope.open[k], callback, target); }
    case Unregister(k, callback, target) =>
      if k < |scope.open| { UnregisterRecords(st, scope.open[k], callback, target); }
    case RegisterCurrent(callback, target) =>
      if st.chain != [] { RegisterRecords(code, st, st.chain[0], callback, target); }
    case UnregisterCurrent(callback, target) => UnregisterAlongRecords(st, st.chain, callback, target);
    case Unwind(k) =>
      if k < |scope.open| { UnwindRecords(code, scope, scope.open[k], false, st, fuel); }
    case Leave(k) =>
      if k < |scope.open| { LeaveRecords(code, scope, scope.open[k], st, fuel); }
    case Throw(exn) => ThrowRecords(code, scope, exn, st, fuel);
    case Rethrow => ThrowRecords(code, scope, st.current, st, fuel);
    case RethrowFrame(k) =>
      if k < |scope.handled| && scope.handled[k] in st.caught {
        ThrowRecords(code, scope, st.caught[scope.handled[k]], st, fuel);
      }
  }

  lemma BodyRecords(code: Code, scope: Scope, body: Script, st: State, fuel: nat)
    requires Records(st)
    ensures Records(RunBody(code, scope, body, st, fuel).st)
    decreases fuel, 2, body, 1
  {
    var inner := scope.(open := [st.nextFrame] + scope.open);
    InstallKeeps(st);
    ScriptRecords(code, inner, body, Install(st), fuel);
    LeaveRecords(code, inner, st.nextFrame, RunScript(code, inner, body, Install(st), fuel).st, fuel);
  }

  /** Whatever a script does, every record stays accounted for, and the runs on each frame go newest first. */
  lemma ScriptRecords(code: Code, scope: Scope, script: Script, st: State, fuel: nat)
    requires Records(st)
    ensures Records(RunScript(code, scope, script, st, fuel).st)
    decreases fuel, 2, script, 0
  {
    if script != [] {
      OpRecords(code, scope, script[0], st, fuel);
      var r := RunOp(code, scope, script[0], st, fuel);
      if r.out.Done? { ScriptRecords(code, scope, script[1..], r.st, fuel); }
    }
  }
}
