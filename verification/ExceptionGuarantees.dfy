/**
  * What a try block and a thread can rely on: every operation keeps the chain of frames in order, so
  * with the account of the records no cleanup is lost, but for those registered on a frame that is gone.
  */
module ExceptionGuarantees {
  import opened ExceptionFrames
  import opened ExceptionRecords

  // ---------- Every operation keeps the chain ----------

  /** The chain goes from the newest frame to the oldest and holds none that is gone. */
  ghost predicate FramesKnown(st: State) {
    && ListsKnown(st)
    && (forall i :: 0 <= i < |st.chain| ==> st.chain[i] < st.nextFrame && !Gone(st, st.chain[i]))
    && (forall i, j :: 0 <= i < j < |st.chain| ==> st.chain[i] > st.chain[j])
    && (forall f :: f in st.left || f in st.landed ==> f < st.nextFrame)
  }

  /** Every record still on the frame was registered when the frame was already gone. */
  ghost predicate AllLate(st: State, f: FrameId)
    requires f in st.cleanups
  {
    forall k :: 0 <= k < |st.cleanups[f]| ==>
      st.cleanups[f][k].id < |st.owners| && st.owners[st.cleanups[f][k].id].late
  }

  /**
    * A frame a script can name is on the chain, gone, or being unwound by a throw; a frame that is
    * gone keeps no record but late ones.
    */
  ghost predicate Settled(st: State, open: seq<FrameId>, unwinding: set<FrameId>) {
    && (forall i :: 0 <= i < |open| ==>
          open[i] < st.nextFrame && (open[i] in st.chain || Gone(st, open[i]) || open[i] in unwinding))
    && (forall f :: f in st.cleanups && st.cleanups[f] != [] ==> f in st.chain || f in unwinding || AllLate(st, f))
    && (forall f :: f in unwinding ==> f < st.nextFrame && f !in st.chain)
  }

  ghost predicate Ready(st: State, scope: Scope, unwinding: set<FrameId>) {
    FramesKnown(st) && Settled(st, scope.open, unwinding)
  }

  /** `now` is the chain `was` without frames from its top, all of them named and left. */
  ghost predicate Shrunk(was: seq<FrameId>, now: seq<FrameId>, open: seq<FrameId>, left: set<FrameId>) {
    now == was || (was != [] && was[0] in open && was[0] in left && Shrunk(was[1..], now, open, left))
  }

  lemma {:induction false} ShrunkTwice(a: seq<FrameId>, b: seq<FrameId>, c: seq<FrameId>, open: seq<FrameId>,
                    left: set<FrameId>, left': set<FrameId>)
    requires Shrunk(a, b, open, left) && Shrunk(b, c, open, left') && left <= left'
    ensures Shrunk(a, c, open, left')
  {
    if b != a { ShrunkTwice(a[1..], b, c, open, left, left'); }
  }

  /** A frame nobody can name stays on top. */
  lemma ShrunkUnder(f: FrameId, chain: seq<FrameId>, now: seq<FrameId>, open: seq<FrameId>, left: set<FrameId>)
    requires Shrunk([f] + chain, now, open, left) && f !in open
    ensures now == [f] + chain
  {
    assert ([f] + chain)[0] == f;
  }

  /** A frame that is not on the chain is no part of what was left. */
  lemma {:induction false} ShrunkOutside(was: seq<FrameId>, now: seq<FrameId>, f: FrameId, inner: seq<FrameId>,
                                         open: seq<FrameId>, left: set<FrameId>)
    requires Shrunk(was, now, inner, left) && f !in was && (inner == open || inner == [f] + open)
    ensures Shrunk(was, now, open, left) && f !in now
  {
    if now != was { ShrunkOutside(was[1..], now, f, inner, open, left); }
  }

  /** Of a chain that had `f` on top, `f` is still there and so is everything else, or `f` was left. */
  lemma ShrunkFrom(f: FrameId, chain: seq<FrameId>, now: seq<FrameId>, inner: seq<FrameId>, open: seq<FrameId>,
                   left: set<FrameId>)
    requires Shrunk([f] + chain, now, inner, left) && f !in chain && (inner == open || inner == [f] + open)
    ensures now == [f] + chain || (f in left && f !in now && Shrunk(chain, now, open, left))
  {
    if now != [f] + chain {
      assert ([f] + chain)[0] == f && ([f] + chain)[1..] == chain;
      ShrunkOutside(chain, now, f, inner, open, left);
    }
  }

  /** What only grows. */
  ghost predicate Grown(st: State, st': State) {
    st.nextFrame <= st'.nextFrame && st.left <= st'.left && st.owners <= st'.owners
  }

  /** The throw has landed on `f`: it is gone, has no cleanups left and carries the thrown value. */
  ghost predicate Landed(st: State, f: FrameId) {
    && f in st.landed && f < st.nextFrame && f !in st.chain && f in st.cleanups && st.cleanups[f] == []
    && f in st.caught && st.caught[f] == st.current
  }

  /**
    * An operation that ends leaves the chain as it was, but for frames left by name. One that
    * throws lands on the innermost frame still on the chain.
    */
  ghost predicate Kept(st: State, r: Result, scope: Scope, unwinding: set<FrameId>) {
    && FramesKnown(r.st) && Grown(st, r.st)
    && match r.out
       case Done => Shrunk(st.chain, r.st.chain, scope.open, r.st.left) && Settled(r.st, scope.open, unwinding)
       case Thrown(f) =>
         && Shrunk(st.chain, [f] + r.st.chain, scope.open, r.st.left)
         && Landed(r.st, f) && Settled(r.st, scope.open, unwinding)
       case _ => true
  }

  lemma KeptThen(st: State, mid: State, r: Result, scope: Scope, unwinding: set<FrameId>)
    requires Kept(st, Result(mid, Done), scope, unwinding) && Kept(mid, r, scope, unwinding)
    ensures Kept(st, r, scope, unwinding)
  {
    match r.out
    case Done => ShrunkTwice(st.chain, mid.chain, r.st.chain, scope.open, mid.left, r.st.left);
    case Thrown(f) => ShrunkTwice(st.chain, mid.chain, [f] + r.st.chain, scope.open, mid.left, r.st.left);
    case _ =>
  }

  lemma KeptFrom(st: State, st': State, r: Result, scope: Scope, unwinding: set<FrameId>)
    requires Kept(st', r, scope, unwinding)
    requires st'.chain == st.chain && st'.nextFrame == st.nextFrame && st'.left == st.left && st'.owners == st.owners
    ensures Kept(st, r, scope, unwinding)
  {
  }

  lemma PopReady(st: State, scope: Scope, f: FrameId, unwinding: set<FrameId>)
    requires Ready(st, scope, unwinding) && f in st.cleanups && st.cleanups[f] != []
    ensures Ready(Pop(st, f), scope, unwinding)
  {
    var st' := Pop(st, f);
    assert AllLate(st, f) ==> AllLate(st', f);
    assert forall g :: g in st'.cleanups && g != f && AllLate(st, g) ==> AllLate(st', g);
  }

  lemma UnwindKeeps(code: Code, scope: Scope, f: FrameId, guarded: bool, st: State, fuel: nat, unwinding: set<FrameId>)
    requires Ready(st, scope, unwinding) && f in st.cleanups
    ensures var r := UnwindCleanups(code, scope, f, guarded, st, fuel);
            && Kept(st, r, scope, unwinding)
            && (r.out.Done? ==> r.st.cleanups[f] == [])
            && (guarded ==> !r.out.Thrown? && (r.out.Done? ==> r.st.chain == st.chain))
    decreases fuel, 0
  {
    if st.cleanups[f] != [] && fuel > 0 {
      var record := st.cleanups[f][0];
      var st1 := Pop(st, f);
      PopReady(st, scope, f, unwinding);
      if guarded {
        InvokeKeeps(code, scope, record, st1, fuel - 1, unwinding);
      } else {
        ScriptKeeps(code, scope, code.callback(record), st1, fuel - 1, unwinding);
      }
      var r := if guarded then InvokeCleanup(code, scope, record, st1, fuel - 1)
               else RunScript(code, scope, code.callback(record), st1, fuel - 1);
      KeptFrom(st, st1, r, scope, unwinding);
      if r.out.Done? {
        UnwindKeeps(code, scope, f, guarded, r.st, fuel - 1, unwinding);
        KeptThen(st, r.st, UnwindCleanups(code, scope, f, guarded, r.st, fuel - 1), scope, unwinding);
      }
    }
  }

  lemma InstallReady(st: State, scope: Scope, unwinding: set<FrameId>)
    requires Ready(st, scope, unwinding)
    ensures Ready(Install(st), scope, unwinding)
    ensures Ready(Install(st), scope.(open := [st.nextFrame] + scope.open), unwinding)
  {
    InstallSettled(st, scope.open, unwinding);
    SettledOutside(Install(st), st.nextFrame, scope.open, unwinding);
  }

  lemma InstallFrames(st: State)
    requires FramesKnown(st)
    ensures FramesKnown(Install(st))
  {
    var st' := Install(st);
    assert forall i :: 0 < i < |st'.chain| ==> st'.chain[i] == st.chain[i - 1];
  }

  lemma InstallSettled(st: State, open: seq<FrameId>, unwinding: set<FrameId>)
    requires FramesKnown(st) && Settled(st, open, unwinding)
    ensures FramesKnown(Install(st)) && Settled(Install(st), [st.nextFrame] + open, unwinding)
  {
    var st' := Install(st);
    InstallFrames(st);
    assert st.nextFrame in st'.chain by { assert st'.chain[0] == st.nextFrame; }
    forall g ensures g in st'.chain <==> g == st.nextFrame || g in st.chain {}
    forall g | g in st'.cleanups && st'.cleanups[g] != []
      ensures g in st'.chain || g in unwinding || AllLate(st', g)
    {
      assert g in st.cleanups && st'.cleanups[g] == st.cleanups[g];
    }
  }

  /** What runs under a guard cannot take the guard off the chain, and a throw lands on it. */
  lemma GuardStays(st: State, r: Result, scope: Scope, unwinding: set<FrameId>)
    requires Settled(st, scope.open, unwinding) && Kept(Install(st), r, scope, unwinding)
    ensures r.out.Done? ==> r.st.chain == [st.nextFrame] + st.chain
    ensures r.out.Thrown? ==> r.out.frame == st.nextFrame
  {
    match r.out
    case Done => ShrunkUnder(st.nextFrame, st.chain, r.st.chain, scope.open, r.st.left);
    case Thrown(f) => GuardLeft(st, Install(st), r, scope, unwinding);
    case _ =>
  }

  lemma GuardLeft(st: State, mid: State, l: Result, scope: Scope, unwinding: set<FrameId>)
    requires Settled(st, scope.open, unwinding) && mid.chain == [st.nextFrame] + st.chain
    requires Kept(mid, l, scope, unwinding) && l.out.Thrown?
    ensures l.out.frame == st.nextFrame
  {
    var now := [l.out.frame] + l.st.chain;
    ShrunkUnder(st.nextFrame, st.chain, now, scope.open, l.st.left);
    assert now[0] == st.nextFrame;
  }

  lemma InvokeKeeps(code: Code, scope: Scope, record: Record, st: State, fuel: nat, unwinding: set<FrameId>)
    requires Ready(st, scope, unwinding)
    ensures var r := InvokeCleanup(code, scope, record, st, fuel);
            Kept(st, r, scope, unwinding) && !r.out.Thrown? && (r.out.Done? ==> r.st.chain == st.chain)
    decreases fuel, 3
  {
    var guard := st.nextFrame;
    var st1 := Install(st);
    InstallReady(st, scope, unwinding);
    ScriptKeeps(code, scope, code.callback(record), st1, fuel, unwinding);
    var r := RunScript(code, scope, code.callback(record), st1, fuel);
    GuardStays(st, r, scope, unwinding);
    if r.out.Done? {
      LeaveKeeps(code, scope, guard, r.st, fuel, unwinding);
      var l := LeaveOn(code, scope, guard, r.st, fuel);
      if l.out.Thrown? { GuardLeft(st, r.st, l, scope, unwinding); }
    }
  }

  /** Taking the frame on top off the chain, once it has no records left. */
  lemma TakeOffReady(st: State, open: seq<FrameId>, unwinding: set<FrameId>)
    requires FramesKnown(st) && Settled(st, open, unwinding) && st.chain != [] && st.chain[0] in st.cleanups
    requires st.cleanups[st.chain[0]] == []
    ensures FramesKnown(TakeOff(st)) && Settled(TakeOff(st), open, unwinding)
  {
    var st' := TakeOff(st);
    assert st.chain == [st.chain[0]] + st'.chain;
    assert FramesKnown(st');
    assert forall g :: g in st.cleanups && AllLate(st, g) ==> AllLate(st', g);
  }

  /** Leaving the frame on top takes it off the chain, or a throw lands somewhere. */
  lemma LeaveKeeps(code: Code, scope: Scope, f: FrameId, st: State, fuel: nat, unwinding: set<FrameId>)
    requires Ready(st, scope, unwinding) && OnTop(st, f)
    ensures var r := LeaveOn(code, scope, f, st, fuel);
            && FramesKnown(r.st) && Grown(st, r.st)
            && (r.out.Done? ==>
                  && r.st.cleanups[f] == [] && f in r.st.left && f !in r.st.chain
                  && Shrunk(st.chain[1..], r.st.chain, scope.open, r.st.left)
                  && (f !in scope.open ==> r.st.chain == st.chain[1..])
                  && Settled(r.st, scope.open, unwinding))
            && (r.out.Thrown? ==> Kept(st, r, scope, unwinding))
    decreases fuel, 1, 0
  {
    UnwindKeeps(code, scope, f, false, st, fuel, unwinding);
    var r := UnwindCleanups(code, scope, f, false, st, fuel);
    if r.out.Done? {
      var rest := st.chain[1..];
      assert st.chain == [f] + rest;
      if f !in scope.open { ShrunkUnder(f, rest, r.st.chain, scope.open, r.st.left); }
      ShrunkFrom(f, rest, r.st.chain, scope.open, scope.open, r.st.left);
      if OnTop(r.st, f) { TakeOffReady(r.st, scope.open, unwinding); }
    }
  }

  /** Dropping frames from the top of the chain touches nothing else. */
  lemma ChainKeeps(st: State)
    requires FramesKnown(st) && st.chain != []
    ensures FramesKnown(st.(chain := st.chain[1..]))
  {
    var st' := st.(chain := st.chain[1..]);
    assert st.chain == [st.chain[0]] + st'.chain;
  }

  /** A throw takes the innermost frame off the chain before it unwinds it. */
  lemma ThrowReady(st: State, open: seq<FrameId>, unwinding: set<FrameId>)
    requires FramesKnown(st) && Settled(st, open, unwinding) && st.chain != []
    ensures FramesKnown(st.(chain := st.chain[1..]))
    ensures Settled(st.(chain := st.chain[1..]), open, unwinding + {st.chain[0]})
  {
    var st1 := st.(chain := st.chain[1..]);
    ChainKeeps(st);
    assert st.chain == [st.chain[0]] + st1.chain;
    assert forall g :: g in st.cleanups && AllLate(st, g) ==> AllLate(st1, g);
  }

  /** A frame that has been unwound is gone once the throw lands on it. */
  lemma LandedSettled(st: State, f: FrameId, exn: Exn, open: seq<FrameId>, unwinding: set<FrameId>)
    requires FramesKnown(st) && Settled(st, open, unwinding + {f})
    requires f in st.cleanups && st.cleanups[f] == []
    ensures FramesKnown(Land(st, f, exn)) && Settled(Land(st, f, exn), open, unwinding)
    ensures Landed(Land(st, f, exn), f)
  {
    var st' := Land(st, f, exn);
    assert f in unwinding + {f};
    assert forall g :: g in st.cleanups && AllLate(st, g) ==> AllLate(st', g);
    assert forall g :: g in unwinding ==> g in unwinding + {f};
  }

  lemma ThrowKeeps(code: Code, scope: Scope, exn: Exn, st: State, fuel: nat, unwinding: set<FrameId>)
    requires Ready(st, scope, unwinding)
    ensures var r := ThrowOwned(code, scope, exn, st, fuel);
            && Kept(st, r, scope, unwinding) && !r.out.Done?
            && (r.out.Thrown? ==> r.st.current == exn && [r.out.frame] + r.st.chain == st.chain)
    decreases fuel, 1
  {
    if st.chain != [] {
      var f := st.chain[0];
      var st1 := st.(chain := st.chain[1..]);
      ThrowReady(st, scope.open, unwinding);
      assert st.chain == [f] + st1.chain;
      UnwindKeeps(code, scope, f, true, st1, fuel, unwinding + {f});
      var r := UnwindCleanups(code, scope, f, true, st1, fuel);
      if r.out.Done? { LandedSettled(r.st, f, exn, scope.open, unwinding); }
    }
  }

  lemma {:induction false} UnregisterAlongKeeps(st: State, frames: seq<FrameId>, callback: nat, target: nat)
    requires FramesKnown(st)
    ensures var st' := UnregisterAlong(st, frames, callback, target);
            && FramesKnown(st') && st'.chain == st.chain && st'.nextFrame == st.nextFrame
            && st'.left == st.left && st'.landed == st.landed
            && st'.owners == st.owners && st'.cleanups.Keys == st.cleanups.Keys
            && forall f :: f in st.cleanups ==> Thinner(st'.cleanups[f], st.cleanups[f])
  {
    if frames != [] {
      var f := frames[0];
      if f in st.cleanups && Position(st.cleanups[f], callback, target) < |st.cleanups[f]| {
      } else {
        UnregisterAlongKeeps(st, frames[1..], callback, target);
      }
    }
  }

  /** No record that was not there before. */
  ghost predicate Thinner(records: seq<Record>, was: seq<Record>) {
    forall k :: 0 <= k < |records| ==> records[k] in was
  }

  /** Taking records off settles nothing less. */
  lemma ThinnerSettled(st: State, st': State, open: seq<FrameId>, unwinding: set<FrameId>)
    requires Settled(st, open, unwinding)
    requires st'.chain == st.chain && st'.nextFrame == st.nextFrame && st'.owners == st.owners
    requires st'.left == st.left && st'.landed == st.landed
    requires st'.cleanups.Keys == st.cleanups.Keys
    requires forall f :: f in st.cleanups ==> Thinner(st'.cleanups[f], st.cleanups[f])
    ensures Settled(st', open, unwinding)
  {
    forall f | f in st'.cleanups && st'.cleanups[f] != []
      ensures f in st'.chain || f in unwinding || AllLate(st', f)
    {
      assert st'.cleanups[f][0] in st.cleanups[f];
    }
  }

  /** Registering on a frame that may be named, or on the innermost one. */
  lemma PushReady(st: State, f: FrameId, callback: nat, target: nat, open: seq<FrameId>, unwinding: set<FrameId>)
    requires FramesKnown(st) && Settled(st, open, unwinding) && f in st.cleanups && (f in open || f in st.chain)
    ensures FramesKnown(Push(st, f, callback, target)) && Settled(Push(st, f, callback, target), open, unwinding)
  {
    var st' := Push(st, f, callback, target);
    assert forall g :: g in st.cleanups && g != f && AllLate(st, g) ==> AllLate(st', g);
    if f !in st.chain && f !in unwinding {
      forall k | 0 <= k < |st'.cleanups[f]|
        ensures st'.cleanups[f][k].id < |st'.owners| && st'.owners[st'.cleanups[f][k].id].late
      {
        if k > 0 { assert st'.cleanups[f][k] == st.cleanups[f][k - 1]; }
      }
    }
  }

  /** The operations that only touch records. */
  predicate RecordOp(op: Op) {
    op.Register? || op.Unregister? || op.RegisterCurrent? || op.UnregisterCurrent?
  }

  lemma RegisterKeeps(code: Code, scope: Scope, st: State, f: FrameId, callback: nat, target: nat,
                      unwinding: set<FrameId>)
    requires Ready(st, scope, unwinding) && (f in scope.open || f in st.chain)
    ensures Kept(st, RegisterOn(code, st, f, callback, target), scope, unwinding)
  {
    if f in st.cleanups { PushReady(st, f, callback, target, scope.open, unwinding); }
  }

  lemma UnregisterKeeps(scope: Scope, st: State, f: FrameId, callback: nat, target: nat, unwinding: set<FrameId>)
    requires Ready(st, scope, unwinding)
    ensures Kept(st, UnregisterOn(st, f, callback, target), scope, unwinding)
  {
    if f in st.cleanups {
      var i := Position(st.cleanups[f], callback, target);
      if i < |st.cleanups[f]| {
        ThinnerSettled(st, Remove(st, f, i), scope.open, unwinding);
      }
    }
  }

  lemma UnregisterCurrentKeeps(scope: Scope, st: State, callback: nat, target: nat, unwinding: set<FrameId>)
    requires Ready(st, scope, unwinding)
    ensures Kept(st, Result(UnregisterAlong(st, st.chain, callback, target), Done), scope, unwinding)
  {
    UnregisterAlongKeeps(st, st.chain, callback, target);
    ThinnerSettled(st, UnregisterAlong(st, st.chain, callback, target), scope.open, unwinding);
  }

  lemma RecordOpKeeps(code: Code, scope: Scope, op: Op, st: State, fuel: nat, unwinding: set<FrameId>)
    requires Ready(st, scope, unwinding) && RecordOp(op)
    ensures Kept(st, RunOp(code, scope, op, st, fuel), scope, unwinding)
  {
    match op
    case Register(k, callback, target) =>
      if k < |scope.open| { RegisterKeeps(code, scope, st, scope.open[k], callback, target, unwinding); }
    case Unregister(k, callback, target) =>
      if k < |scope.open| { UnregisterKeeps(scope, st, scope.open[k], callback, target, unwinding); }
    case RegisterCurrent(callback, target) =>
      if st.chain != [] { RegisterKeeps(code, scope, st, st.chain[0], callback, target, unwinding); }
    case UnregisterCurrent(callback, target) => UnregisterCurrentKeeps(scope, st, callback, target, unwinding);
  }

  lemma LeaveOpKeeps(code: Code, scope: Scope, k: nat, st: State, fuel: nat, unwinding: set<FrameId>)
    requires Ready(st, scope, unwinding)
    ensures Kept(st, RunOp(code, scope, Leave(k), st, fuel), scope, unwinding)
    decreases fuel, 2, Leave(k), 0
  {
    if k < |scope.open| && OnTop(st, scope.open[k]) {
      var f := scope.open[k];
      LeaveKeeps(code, scope, f, st, fuel, unwinding);
      var r := LeaveOn(code, scope, f, st, fuel);
      if r.out.Done? {
        assert Shrunk(st.chain, st.chain[1..], scope.open, r.st.left);
        ShrunkTwice(st.chain, st.chain[1..], r.st.chain, scope.open, r.st.left, r.st.left);
      }
    }
  }

  lemma OpKeeps(code: Code, scope: Scope, op: Op, st: State, fuel: nat, unwinding: set<FrameId>)
    requires Ready(st, scope, unwinding)
    ensures Kept(st, RunOp(code, scope, op, st, fuel), scope, unwinding)
    decreases fuel, 2, op
  {
    if RecordOp(op) {
      RecordOpKeeps(code, scope, op, st, fuel, unwinding);
      return;
    }
    match op
    case Try(body, handler) => TryKeeps(code, scope, body, handler, st, fuel, unwinding);
    case Unwind(k) =>
      if k < |scope.open| { UnwindKeeps(code, scope, scope.open[k], false, st, fuel, unwinding); }
    case Leave(k) => LeaveOpKeeps(code, scope, k, st, fuel, unwinding);
    case Throw(exn) => ThrowKeeps(code, scope, exn, st, fuel, unwinding);
    case Rethrow => ThrowKeeps(code, scope, st.current, st, fuel, unwinding);
    case RethrowFrame(k) =>
      if k < |scope.handled| && scope.handled[k] in st.caught {
        ThrowKeeps(code, scope, st.caught[scope.handled[k]], st, fuel, unwinding);
      }
    case _ =>
  }

  lemma TryKeeps(code: Code, scope: Scope, body: Script, handler: Script, st: State, fuel: nat, unwinding: set<FrameId>)
    requires Ready(st, scope, unwinding)
    ensures Kept(st, RunOp(code, scope, Try(body, handler), st, fuel), scope, unwinding)
    ensures st.nextFrame < RunOp(code, scope, Try(body, handler), st, fuel).st.nextFrame
    decreases fuel, 2, Try(body, handler), 0
  {
    BodyKeeps(code, scope, body, st, fuel, unwinding);
    var r := RunBody(code, scope, body, st, fuel);
    if r.out == Thrown(st.nextFrame) {
      var inside := Handling(scope, st.nextFrame);
      SettledInside(r.st, st.nextFrame, scope.open, unwinding);
      ScriptKeeps(code, inside, handler, r.st, fuel, unwinding);
      var h := RunScript(code, inside, handler, r.st, fuel);
      KeptOutside(r.st, h, scope, inside, st.nextFrame, unwinding);
      KeptThen(st, r.st, h, scope, unwinding);
    }
  }

  /** A frame that is gone may be named. */
  lemma SettledInside(st: State, f: FrameId, open: seq<FrameId>, unwinding: set<FrameId>)
    requires Settled(st, open, unwinding) && Gone(st, f) && f < st.nextFrame
    ensures Settled(st, [f] + open, unwinding)
  {
  }

  /** What a handler keeps, seen from outside its block. */
  lemma KeptOutside(st: State, r: Result, scope: Scope, inner: Scope, f: FrameId, unwinding: set<FrameId>)
    requires Kept(st, r, inner, unwinding) && inner.open == [f] + scope.open && f !in st.chain
    ensures Kept(st, r, scope, unwinding)
  {
    match r.out
    case Done =>
      ShrunkOutside(st.chain, r.st.chain, f, inner.open, scope.open, r.st.left);
      SettledOutside(r.st, f, scope.open, unwinding);
    case Thrown(g) =>
      ShrunkOutside(st.chain, [g] + r.st.chain, f, inner.open, scope.open, r.st.left);
      SettledOutside(r.st, f, scope.open, unwinding);
    case _ =>
  }

  /** The frame is off the chain and holds nothing but late records. */
  ghost predicate Finished(st: State, f: FrameId) {
    f in st.cleanups && f !in st.chain && AllLate(st, f)
  }

  /**
    * How a try block ends: its frame left, its frame landed on with the chain below it as it was, or
    * its frame left early and a throw on its way to an outer frame.
    */
  ghost predicate Ended(st: State, r: Result, scope: Scope, unwinding: set<FrameId>) {
    var f := st.nextFrame;
    && FramesKnown(r.st) && Grown(st, r.st) && f < r.st.nextFrame
    && (r.out.Done? || r.out.Thrown? ==> Finished(r.st, f))
    && if r.out == Thrown(f) then r.st.chain == st.chain && Landed(r.st, f) && Settled(r.st, scope.open, unwinding)
       else Kept(st, r, scope, unwinding)
  }

  /** Seen from outside, the frame of a try block that is off the chain is one of those that were left. */
  lemma SettledOutside(st: State, f: FrameId, open: seq<FrameId>, unwinding: set<FrameId>)
    requires Settled(st, [f] + open, unwinding)
    ensures Settled(st, open, unwinding)
  {
    assert forall i :: 0 <= i < |open| ==> ([f] + open)[i + 1] == open[i];
  }

  lemma ThrownEnds(st: State, r: Result, scope: Scope, unwinding: set<FrameId>)
    requires FramesKnown(st) && Settled(st, scope.open, unwinding) && r.out.Thrown?
    requires Kept(Install(st), r, scope.(open := [st.nextFrame] + scope.open), unwinding)
    ensures Ended(st, r, scope, unwinding)
  {
    var f, h := st.nextFrame, r.out.frame;
    var now := [h] + r.st.chain;
    ShrunkFrom(f, st.chain, now, [f] + scope.open, scope.open, r.st.left);
    assert now[0] == h && now[1..] == r.st.chain;
    if h != f { assert ([f] + st.chain)[0] == f; }
    SettledOutside(r.st, f, scope.open, unwinding);
  }

  /** The body has ended with its frame on top: leaving it ends the block. */
  lemma LeaveEnds(code: Code, scope: Scope, st: State, mid: State, fuel: nat, unwinding: set<FrameId>)
    requires FramesKnown(st) && Settled(st, scope.open, unwinding)
    requires Kept(Install(st), Result(mid, Done), scope.(open := [st.nextFrame] + scope.open), unwinding)
    requires mid.chain == [st.nextFrame] + st.chain
    ensures var inner := scope.(open := [st.nextFrame] + scope.open);
            Ended(st, LeaveOn(code, inner, st.nextFrame, mid, fuel), scope, unwinding)
    decreases fuel, 1, 1
  {
    var f := st.nextFrame;
    var inner := scope.(open := [f] + scope.open);
    LeaveKeeps(code, inner, f, mid, fuel, unwinding);
    var l := LeaveOn(code, inner, f, mid, fuel);
    if l.out.Done? {
      assert mid.chain[1..] == st.chain;
      LeftEnds(st, l.st, scope, unwinding);
    } else if l.out.Thrown? {
      KeptThen(Install(st), mid, l, inner, unwinding);
      ThrownEnds(st, l, scope, unwinding);
    }
  }

  lemma LeftEnds(st: State, end: State, scope: Scope, unwinding: set<FrameId>)
    requires FramesKnown(st) && FramesKnown(end) && Grown(st, end)
    requires st.nextFrame in end.cleanups && end.cleanups[st.nextFrame] == [] && st.nextFrame !in end.chain
    requires Shrunk(st.chain, end.chain, [st.nextFrame] + scope.open, end.left)
    requires Settled(end, [st.nextFrame] + scope.open, unwinding)
    ensures Ended(st, Result(end, Done), scope, unwinding)
  {
    SettledOutside(end, st.nextFrame, scope.open, unwinding);
    ShrunkOutside(st.chain, end.chain, st.nextFrame, [st.nextFrame] + scope.open, scope.open, end.left);
  }

  /** The body has ended: its frame is on top, or it has been left already. */
  lemma DoneEnds(code: Code, scope: Scope, st: State, mid: State, fuel: nat, unwinding: set<FrameId>)
    requires FramesKnown(st) && Settled(st, scope.open, unwinding)
    requires Kept(Install(st), Result(mid, Done), scope.(open := [st.nextFrame] + scope.open), unwinding)
    ensures var inner := scope.(open := [st.nextFrame] + scope.open);
            Ended(st, LeaveOn(code, inner, st.nextFrame, mid, fuel), scope, unwinding)
    decreases fuel, 1, 2
  {
    var f := st.nextFrame;
    ShrunkFrom(f, st.chain, mid.chain, [f] + scope.open, scope.open, mid.left);
    if mid.chain == [f] + st.chain {
      LeaveEnds(code, scope, st, mid, fuel, unwinding);
    } else {
      EarlyEnds(st, mid, scope, unwinding);
    }
  }

  lemma EarlyEnds(st: State, end: State, scope: Scope, unwinding: set<FrameId>)
    requires FramesKnown(end) && Grown(Install(st), end)
    requires st.nextFrame in end.left && st.nextFrame !in end.chain && st.nextFrame !in unwinding
    requires Shrunk(st.chain, end.chain, scope.open, end.left)
    requires Settled(end, [st.nextFrame] + scope.open, unwinding)
    ensures Ended(st, Result(end, Done), scope, unwinding)
  {
    SettledOutside(end, st.nextFrame, scope.open, unwinding);
  }

  lemma BodyKeeps(code: Code, scope: Scope, body: Script, st: State, fuel: nat, unwinding: set<FrameId>)
    requires Ready(st, scope, unwinding)
    ensures Ended(st, RunBody(code, scope, body, st, fuel), scope, unwinding)
    decreases fuel, 2, body, 1
  {
    var f := st.nextFrame;
    var inner := scope.(open := [f] + scope.open);
    InstallReady(st, scope, unwinding);
    ScriptKeeps(code, inner, body, Install(st), fuel, unwinding);
    var r := RunScript(code, inner, body, Install(st), fuel);
    if r.out.Thrown? {
      ThrownEnds(st, r, scope, unwinding);
    } else if r.out.Done? {
      DoneEnds(code, scope, st, r.st, fuel, unwinding);
    }
  }

  lemma ScriptKeeps(code: Code, scope: Scope, script: Script, st: State, fuel: nat, unwinding: set<FrameId>)
    requires Ready(st, scope, unwinding)
    ensures Kept(st, RunScript(code, scope, script, st, fuel), scope, unwinding)
    decreases fuel, 2, script, 0
  {
    if script != [] {
      OpKeeps(code, scope, script[0], st, fuel, unwinding);
      var r := RunOp(code, scope, script[0], st, fuel);
      if r.out.Done? {
        ScriptKeeps(code, scope, script[1..], r.st, fuel, unwinding);
        KeptThen(st, r.st, RunScript(code, scope, script[1..], r.st, fuel), scope, unwinding);
      }
    }
  }

  // ---------- Main results ----------

  /** Registered once, then run or unregistered exactly once, and freed exactly once. */
  predicate DisposedOnce(st: State, id: nat)
    requires id < |st.owners|
  {
    Registrations(st, st.owners[id].frame, id) == 1 && Disposals(st, id) == 1 && Frees(st, id) == 1
  }

  /** A record is disposed of exactly once, or it is still on its frame and neither run nor freed. */
  lemma DisposedOrLive(st: State, id: nat)
    requires Records(st) && id < |st.owners|
    ensures DisposedOnce(st, id) <==> !Live(st, id)
    ensures Live(st, id) ==> Disposals(st, id) == 0 && Frees(st, id) == 0
  {
    assert Accounted(st, id);
  }

  /** Every record of a finished frame that is not late has been disposed of. */
  lemma FinishedDisposes(st: State, f: FrameId)
    requires Records(st) && Finished(st, f)
    ensures forall id :: 0 <= id < |st.owners| && st.owners[id].frame == f && !st.owners[id].late ==>
              DisposedOnce(st, id)
  {
    forall id | 0 <= id < |st.owners| && st.owners[id].frame == f && !st.owners[id].late
      ensures DisposedOnce(st, id)
    {
      DisposedOrLive(st, id);
    }
  }

  /**
    * However a try block ends short of the process exiting (its body runs to the end or leaves the
    * frame early, it throws, or a cleanup throws while the frame is being left), every cleanup
    * registered on its frame, but for those registered when the frame was already gone, has been
    * run or unregistered exactly once and freed exactly once, newest first; and the chain is the
    * one below the frame, but for frames left by name.
    */
  lemma FrameEndsClean(code: Code, scope: Scope, body: Script, st: State, fuel: nat, unwinding: set<FrameId>)
    requires Records(st) && Ready(st, scope, unwinding)
    ensures var f := st.nextFrame;
            var r := RunBody(code, scope, body, st, fuel);
            r.out.Done? || r.out.Thrown? ==>
              && NewestFirst(r.st) && f !in r.st.chain
              && (r.out == Thrown(f) ==> r.st.chain == st.chain)
              && (r.out.Done? ==> Shrunk(st.chain, r.st.chain, scope.open, r.st.left))
              && (r.out.Thrown? && r.out.frame != f ==>
                    Shrunk(st.chain, [r.out.frame] + r.st.chain, scope.open, r.st.left))
              && forall id :: 0 <= id < |r.st.owners| && r.st.owners[id].frame == f && !r.st.owners[id].late ==>
                   DisposedOnce(r.st, id)
  {
    BodyRecords(code, scope, body, st, fuel);
    BodyKeeps(code, scope, body, st, fuel, unwinding);
    var r := RunBody(code, scope, body, st, fuel);
    if r.out.Done? || r.out.Thrown? { FinishedDisposes(r.st, st.nextFrame); }
  }

  /** The same once the handler has run as well: it can lose only what it registers on the frame itself. */
  lemma BlockEndsClean(code: Code, scope: Scope, body: Script, handler: Script, st: State, fuel: nat,
                       unwinding: set<FrameId>)
    requires Records(st) && Ready(st, scope, unwinding)
    ensures var f := st.nextFrame;
            var r := RunOp(code, scope, Try(body, handler), st, fuel);
            r.out.Done? || r.out.Thrown? ==>
              && NewestFirst(r.st) && f !in r.st.chain
              && forall id :: 0 <= id < |r.st.owners| && r.st.owners[id].frame == f && !r.st.owners[id].late ==>
                   DisposedOnce(r.st, id)
  {
    OpRecords(code, scope, Try(body, handler), st, fuel);
    BodyKeeps(code, scope, body, st, fuel, unwinding);
    TryKeeps(code, scope, body, handler, st, fuel, unwinding);
    var r := RunOp(code, scope, Try(body, handler), st, fuel);
    if r.out.Done? || r.out.Thrown? {
      KeptFinishes(st, r, scope, st.nextFrame, unwinding);
      FinishedDisposes(r.st, st.nextFrame);
    }
  }

  /** A frame that was not on the chain before is not on it afterwards. */
  lemma KeptFinishes(st: State, r: Result, scope: Scope, f: FrameId, unwinding: set<FrameId>)
    requires Kept(st, r, scope, unwinding) && (r.out.Done? || r.out.Thrown?)
    requires f !in st.chain && f !in unwinding && f < r.st.nextFrame
    ensures Finished(r.st, f)
  {
    var now := if r.out.Done? then r.st.chain else [r.out.frame] + r.st.chain;
    ShrunkOutside(st.chain, now, f, scope.open, scope.open, r.st.left);
    assert r.out.Thrown? ==> now[1..] == r.st.chain;
  }

  lemma StartRecords()
    ensures Records(START)
  {
    forall id: nat ensures Accounted(START, id) {
      assert multiset(START.log) == multiset{};
    }
  }

  /** With no frame left on the chain, every record that is not late has been disposed of. */
  lemma AllDisposed(st: State)
    requires Records(st) && Settled(st, [], {}) && st.chain == []
    ensures forall id :: 0 <= id < |st.owners| && !st.owners[id].late ==> DisposedOnce(st, id)
  {
    forall id | 0 <= id < |st.owners| && !st.owners[id].late ensures DisposedOnce(st, id) {
      DisposedOrLive(st, id);
      if Live(st, id) { assert AllLate(st, st.owners[id].frame); }
    }
  }

  /**
    * A whole thread: it never ends by jumping to a frame that is gone, and when it ends
    * normally no frame is installed and no cleanup was lost, run twice or freed twice, but for
    * those registered on a frame that was already gone.
    */
  lemma ThreadDisposesAll(code: Code, main: Script, fuel: nat)
    ensures var r := RunScript(code, Scope([], []), main, START, fuel);
            && !r.out.Thrown?
            && NewestFirst(r.st)
            && (r.out.Done? ==>
                  && r.st.chain == []
                  && forall id :: 0 <= id < |r.st.owners| && !r.st.owners[id].late ==> DisposedOnce(r.st, id))
  {
    StartRecords();
    ScriptRecords(code, Scope([], []), main, START, fuel);
    ScriptKeeps(code, Scope([], []), main, START, fuel, {});
    var r := RunScript(code, Scope([], []), main, START, fuel);
    assert Kept(START, r, Scope([], []), {});
    if r.out.Done? { AllDisposed(r.st); }
  }

  /** Unwinding a frame by name disposes of everything registered on it, late or not. */
  lemma UnwindDisposes(code: Code, scope: Scope, k: nat, st: State, fuel: nat, unwinding: set<FrameId>)
    requires Records(st) && Ready(st, scope, unwinding) && k < |scope.open|
    ensures var r := RunOp(code, scope, Unwind(k), st, fuel);
            r.out.Done? ==>
              forall id :: 0 <= id < |r.st.owners| && r.st.owners[id].frame == scope.open[k] ==> DisposedOnce(r.st, id)
  {
    UnwindRecords(code, scope, scope.open[k], false, st, fuel);
    UnwindKeeps(code, scope, scope.open[k], false, st, fuel, unwinding);
    var r := RunOp(code, scope, Unwind(k), st, fuel);
    forall id | 0 <= id < |r.st.owners| && r.st.owners[id].frame == scope.open[k] && r.out.Done?
      ensures DisposedOnce(r.st, id)
    {
      DisposedOrLive(r.st, id);
    }
  }

  /**
    * The exact condition for a cleanup registered right before its frame is left by name or by the end
    * of its block: whatever the state and whatever the cleanups do, leaving disposes of it if and only
    * if the frame is still on top of the chain. In a handler its own frame never is.
    */
  lemma LastRegistration(code: Code, scope: Scope, k: nat, st: State, callback: nat, target: nat, fuel: nat,
                         unwinding: set<FrameId>)
    requires Records(st) && Ready(st, scope, unwinding) && k < |scope.open|
    ensures var f := scope.open[k];
            var r := LeaveOn(code, scope, f, Push(st, f, callback, target), fuel);
            && (Gone(st, f) ==> !OnTop(st, f))
            && (r.out.Done? || r.out.Thrown? ==>
                  |st.owners| < |r.st.owners| && (DisposedOnce(r.st, |st.owners|) <==> OnTop(st, f)))
  {
    var f := scope.open[k];
    var id := |st.owners|;
    var st1 := Push(st, f, callback, target);
    PushKeeps(st, f, callback, target);
    PushReady(st, f, callback, target, scope.open, unwinding);
    LeaveRecords(code, scope, f, st1, fuel);
    if OnTop(st, f) {
      LeaveKeeps(code, scope, f, st1, fuel, unwinding);
      var r := LeaveOn(code, scope, f, st1, fuel);
      if r.out.Done? || r.out.Thrown? {
        assert r.st.owners[id] == st1.owners[id] == Owner(f, |st.log|, false);
        DisposedOrLive(r.st, id);
        if r.out.Thrown? { FrameOnTopFinishes(st1, r, scope, f, unwinding); }
      }
    } else {
      assert st1.cleanups[f][0].id == id;
      DisposedOrLive(st1, id);
    }
  }

  /** A throw out of leaving the frame on top has landed on that frame, or further out. */
  lemma FrameOnTopFinishes(st: State, r: Result, scope: Scope, f: FrameId, unwinding: set<FrameId>)
    requires FramesKnown(st) && OnTop(st, f) && f !in unwinding && f in scope.open
    requires r.out.Thrown? && Kept(st, r, scope, unwinding)
    ensures f in r.st.cleanups && AllLate(r.st, f)
  {
    var now := [r.out.frame] + r.st.chain;
    if now == st.chain {
      assert now[0] == f;
    } else {
      assert st.chain[0] in r.st.left;
    }
  }

  /** A cleanup registered on a frame its block has already left is lost. */
  lemma LateRegistrationIsLost(code: Code, fuel: nat)
    requires !code.allocationFails(0)
    ensures var r := RunScript(code, Scope([], []), [Try([Leave(0), Register(0, 1, 1)], [])], START, fuel);
            && r.out.Done? && r.st.chain == []
            && |r.st.owners| == 1 && Live(r.st, 0) && Disposals(r.st, 0) == 0
  {
    var inner := Scope([0], []);
    var st1 := Install(START);
    var st2 := TakeOff(st1);
    var st3 := Push(st2, 0, 1, 1);
    assert st1.chain == [0] && st2.chain == [];
    LeaveEmpty(code, inner, st1, fuel);
    assert RunOp(code, inner, Register(0, 1, 1), st2, fuel) == Result(st3, Done);
    TwoSteps(code, inner, Leave(0), Register(0, 1, 1), st1, fuel);
    assert RunBody(code, Scope([], []), [Leave(0), Register(0, 1, 1)], START, fuel) == Result(st3, Done);
    assert st3.cleanups[0][0].id == 0;
    assert st3.log == [Registered(0, 0)];
  }

  /** And so is one that a handler registers on its own frame. */
  lemma HandlerRegistrationIsLost(code: Code, fuel: nat)
    requires !code.allocationFails(0)
    ensures var main := [Try([Throw(Exn(1, 1))], [Register(0, 1, 1)])];
            var r := RunScript(code, Scope([], []), main, START, fuel);
            && r.out.Done? && r.st.chain == []
            && |r.st.owners| == 1 && Live(r.st, 0) && Disposals(r.st, 0) == 0
  {
    var exn := Exn(1, 1);
    var inner, inside := Scope([0], []), Scope([0], [0]);
    var st1 := Install(START);
    var unwound := st1.(chain := []);
    var st2 := Land(unwound, 0, exn);
    var st3 := Push(st2, 0, 1, 1);
    assert st1.chain == [0] && st1.chain[1..] == [];
    assert UnwindCleanups(code, inner, 0, true, unwound, fuel) == Result(unwound, Done);
    assert RunOp(code, inner, Throw(exn), st1, fuel) == Result(st2, Thrown(0));
    assert RunBody(code, Scope([], []), [Throw(exn)], START, fuel) == Result(st2, Thrown(0));
    assert RunOp(code, inside, Register(0, 1, 1), st2, fuel) == Result(st3, Done);
    assert [Register(0, 1, 1)][1..] == [] && Handling(Scope([], []), 0) == inside;
    assert RunScript(code, inside, [Register(0, 1, 1)], st2, fuel) == Result(st3, Done);
    assert st3.cleanups[0][0].id == 0;
    assert st3.log == [Registered(0, 0)];
  }

  lemma LeaveEmpty(code: Code, scope: Scope, st: State, fuel: nat)
    requires scope.open != [] && OnTop(st, scope.open[0])
    requires scope.open[0] in st.cleanups && st.cleanups[scope.open[0]] == []
    ensures RunOp(code, scope, Leave(0), st, fuel) == Result(TakeOff(st), Done)
  {
    assert UnwindCleanups(code, scope, scope.open[0], false, st, fuel) == Result(st, Done);
    assert LeaveOn(code, scope, scope.open[0], st, fuel) == Result(TakeOff(st), Done);
  }

  lemma TwoSteps(code: Code, scope: Scope, first: Op, second: Op, st: State, fuel: nat)
    requires RunOp(code, scope, first, st, fuel).out.Done?
    ensures RunScript(code, scope, [first, second], st, fuel) ==
            RunOp(code, scope, second, RunOp(code, scope, first, st, fuel).st, fuel)
  {
    assert [first, second][1..] == [second] && [second][1..] == [];
    var r := RunOp(code, scope, second, RunOp(code, scope, first, st, fuel).st, fuel);
    assert r.out.Done? ==> RunScript(code, scope, [], r.st, fuel) == r;
  }

  /** Why leave looks at the top a second time: its own cleanup may have left the frame, once and for all. */
  lemma LeftByItsOwnCleanup(code: Code, scope: Scope, st: State, fuel: nat)
    requires FramesKnown(st) && scope.open != [] && OnTop(st, scope.open[0]) && fuel > 0
    requires |st.cleanups[scope.open[0]]| == 1 && code.callback(st.cleanups[scope.open[0]][0]) == [Leave(0)]
    ensures var f := scope.open[0];
            && !OnTop(UnwindCleanups(code, scope, f, false, st, fuel).st, f)
            && LeaveOn(code, scope, f, st, fuel) == UnwindCleanups(code, scope, f, false, st, fuel)
            && LeaveOn(code, scope, f, st, fuel).out.Done?
            && LeaveOn(code, scope, f, st, fuel).st.chain == st.chain[1..]
  {
    var f := scope.open[0];
    var st1 := Pop(st, f);
    var st2 := TakeOff(st1);
    LeaveEmpty(code, scope, st1, fuel - 1);
    assert [Leave(0)][1..] == [];
    assert RunScript(code, scope, [Leave(0)], st1, fuel - 1) == Result(st2, Done);
    assert !OnTop(st2, f);
  }
}
