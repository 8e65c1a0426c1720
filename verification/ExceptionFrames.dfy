/**
  * The exception frames of the C++ runtime: a per-thread chain of frames, each with a stack
  * of cleanup records, and the re-entrant operations that leave a frame or throw through it.
  *
  * `longjmp` is an outcome of the interpreter: `Thrown(f)` means control continues at the
  * `setjmp` of frame `f`. A cleanup callback is a script over the same operations, chosen per
  * record, so a callback may do anything the runtime allows: register, unregister, open
  * frames of its own, unwind, leave, and throw.
  */
module ExceptionFrames {

  type FrameId = nat

  /** A cleanup record; `id` is its place in the order of allocation. 0 is NULL for the other two. */
  datatype Record = Record(id: nat, callback: nat, target: nat)

  datatype Exn = Exn(value: nat, kind: nat)

  datatype Event =
    | Registered(frame: FrameId, id: nat)
    | Unregistered(id: nat)
    | Ran(id: nat)
    | Freed(id: nat)

  /** Where and when a record was registered; `late` if its frame was already gone. */
  datatype Owner = Owner(frame: FrameId, at: nat, late: bool)

  datatype State = State(
    chain: seq<FrameId>,                  // innermost frame first
    cleanups: map<FrameId, seq<Record>>,  // newest record first
    caught: map<FrameId, Exn>,            // the value and type fields of a frame
    current: Exn,
    nextFrame: FrameId,
    left: set<FrameId>,                   // bookkeeping: the frames that leave has taken off the chain,
    landed: set<FrameId>,                 // the frames a throw has landed on,
    owners: seq<Owner>,                   // who owns each record, by record id,
    log: seq<Event>)                      // and what has happened to the records

  const START: State := State([], map[], map[], Exn(0, 0), 0, {}, {}, [], [])

  datatype Op =
    | Try(body: seq<Op>, handler: seq<Op>)               // setjmp, install, body, leave; handler on a longjmp
    | Register(frame: nat, callback: nat, target: nat)   // on the frame of the frame-th block around
    | Unregister(frame: nat, callback: nat, target: nat)
    | RegisterCurrent(callback: nat, target: nat)
    | UnregisterCurrent(callback: nat, target: nat)
    | Unwind(frame: nat)
    | Leave(frame: nat)                                  // also early, or again from a callback
    | Throw(exn: Exn)
    | Rethrow
    | RethrowFrame(frame: nat)                           // the frame-th enclosing handled frame

  type Script = seq<Op>

  /** What each callback does, and which allocations of records fail. */
  datatype Code = Code(callback: Record -> Script, allocationFails: nat -> bool)

  /** The frames a script can name, those of the try blocks around it; in a handler, its own among them. */
  datatype Scope = Scope(open: seq<FrameId>, handled: seq<FrameId>)

  function Handling(scope: Scope, f: FrameId): Scope {
    Scope([f] + scope.open, [f] + scope.handled)
  }

  datatype Outcome = Done | Thrown(frame: FrameId) | Exit(code: nat) | OutOfFuel

  datatype Result = Result(st: State, out: Outcome)

  // ---------- The elementary changes ----------

  function Install(st: State): State {
    st.(chain := [st.nextFrame] + st.chain,
        cleanups := st.cleanups[st.nextFrame := []],
        nextFrame := st.nextFrame + 1)
  }

  /** Off the chain for good: left, or landed on. */
  predicate Gone(st: State, f: FrameId) { f in st.left || f in st.landed }

  function Push(st: State, f: FrameId, callback: nat, target: nat): State
    requires f in st.cleanups
  {
    st.(cleanups := st.cleanups[f := [Record(|st.owners|, callback, target)] + st.cleanups[f]],
        owners := st.owners + [Owner(f, |st.log|, Gone(st, f))],
        log := st.log + [Registered(f, |st.owners|)])
  }

  /** The newest record leaves its frame and is freed; its callback is about to run. */
  function Pop(st: State, f: FrameId): State
    requires f in st.cleanups && st.cleanups[f] != []
  {
    st.(cleanups := st.cleanups[f := st.cleanups[f][1..]],
        log := st.log + [Freed(st.cleanups[f][0].id), Ran(st.cleanups[f][0].id)])
  }

  function Remove(st: State, f: FrameId, i: nat): State
    requires f in st.cleanups && i < |st.cleanups[f]|
  {
    st.(cleanups := st.cleanups[f := st.cleanups[f][..i] + st.cleanups[f][i + 1..]],
        log := st.log + [Unregistered(st.cleanups[f][i].id), Freed(st.cleanups[f][i].id)])
  }

  function RegisterOn(code: Code, st: State, f: FrameId, callback: nat, target: nat): Result {
    if f !in st.cleanups || callback == 0 || target == 0 || code.allocationFails(|st.owners|)
    then Result(st, Exit(134))
    else Result(Push(st, f, callback, target), Done)
  }

  /** Index of the newest record with this callback and target, or the length. */
  function Position(records: seq<Record>, callback: nat, target: nat): (i: nat)
    ensures i <= |records|
    ensures i < |records| ==> records[i].callback == callback && records[i].target == target
    ensures forall k :: 0 <= k < i ==> !(records[k].callback == callback && records[k].target == target)
  {
    if records == [] || (records[0].callback == callback && records[0].target == target) then 0
    else 1 + Position(records[1..], callback, target)
  }

  function UnregisterOn(st: State, f: FrameId, callback: nat, target: nat): Result {
    if f !in st.cleanups || callback == 0 || target == 0 then Result(st, Exit(134)) else
    var i := Position(st.cleanups[f], callback, target);
    if i < |st.cleanups[f]| then Result(Remove(st, f, i), Done) else Result(st, Exit(134))
  }

  /** The record may be on any frame of the chain: the innermost one that has a match loses it. */
  function UnregisterAlong(st: State, frames: seq<FrameId>, callback: nat, target: nat): State {
    if frames == [] then st
    else if frames[0] in st.cleanups && Position(st.cleanups[frames[0]], callback, target) < |st.cleanups[frames[0]]|
    then Remove(st, frames[0], Position(st.cleanups[frames[0]], callback, target))
    else UnregisterAlong(st, frames[1..], callback, target)
  }

  // ---------- The re-entrant operations ----------

  /** `fuel` bounds the nesting of callbacks; a run that ends does not depend on it (see FuelIsEnough). */
  function UnwindCleanups(code: Code, scope: Scope, f: FrameId, guarded: bool, st: State, fuel: nat): Result
    decreases fuel, 0
  {
    if f !in st.cleanups then Result(st, Exit(134))
    else if st.cleanups[f] == [] then Result(st, Done)
    else if fuel == 0 then Result(st, OutOfFuel)
    else
      var record := st.cleanups[f][0];
      var r := if guarded then InvokeCleanup(code, scope, record, Pop(st, f), fuel - 1)
               else RunScript(code, scope, code.callback(record), Pop(st, f), fuel - 1);
      if r.out.Done? then UnwindCleanups(code, scope, f, guarded, r.st, fuel - 1) else r
  }

  /** Runs one callback under a guard frame that turns an escaping exception into exit. */
  function InvokeCleanup(code: Code, scope: Scope, record: Record, st: State, fuel: nat): Result
    decreases fuel, 3
  {
    var guard := st.nextFrame;
    var r := RunScript(code, scope, code.callback(record), Install(st), fuel);
    var r := if r.out.Done? then LeaveOn(code, scope, guard, r.st, fuel) else r;
    if r.out == Thrown(guard) then Result(r.st, Exit(134)) else r
  }

  predicate OnTop(st: State, f: FrameId) {
    st.chain != [] && st.chain[0] == f
  }

  /** The frame on top is taken off the chain by leave. */
  function TakeOff(st: State): State
    requires st.chain != []
  {
    st.(chain := st.chain[1..], left := st.left + {st.chain[0]})
  }

  /** A callback may leave the frame that is being left; the second test of the top is for that. */
  function LeaveOn(code: Code, scope: Scope, f: FrameId, st: State, fuel: nat): Result
    decreases fuel, 1
  {
    if !OnTop(st, f) then Result(st, Done) else
    var r := UnwindCleanups(code, scope, f, false, st, fuel);
    if r.out.Done? && OnTop(r.st, f) then Result(TakeOff(r.st), Done) else r
  }

  /** What a throw leaves in the frame, once it is unwound, and in the thread. */
  function Land(st: State, f: FrameId, exn: Exn): State {
    st.(caught := st.caught[f := exn], current := exn, landed := st.landed + {f})
  }

  function ThrowOwned(code: Code, scope: Scope, exn: Exn, st: State, fuel: nat): Result
    decreases fuel, 1
  {
    if st.chain == [] then Result(st, Exit(1)) else
    var f := st.chain[0];
    var r := UnwindCleanups(code, scope, f, true, st.(chain := st.chain[1..]), fuel);
    if r.out.Done? then Result(Land(r.st, f, exn), Thrown(f)) else r
  }

  function RunOp(code: Code, scope: Scope, op: Op, st: State, fuel: nat): Result
    decreases fuel, 2, op
  {
    match op
    case Try(body, handler) =>
      var f := st.nextFrame;
      var r := RunBody(code, scope, body, st, fuel);
      if r.out == Thrown(f)
      then RunScript(code, Handling(scope, f), handler, r.st, fuel)
      else r
    case Register(k, callback, target) =>
      if k < |scope.open| then RegisterOn(code, st, scope.open[k], callback, target) else Result(st, Exit(134))
    case Unregister(k, callback, target) =>
      if k < |scope.open| then UnregisterOn(st, scope.open[k], callback, target) else Result(st, Exit(134))
    case RegisterCurrent(callback, target) =>
      if callback == 0 || target == 0 then Result(st, Exit(134))
      else if st.chain == [] then Result(st, Done)
      else RegisterOn(code, st, st.chain[0], callback, target)
    case UnregisterCurrent(callback, target) =>
      if callback == 0 || target == 0 then Result(st, Exit(134))
      else Result(UnregisterAlong(st, st.chain, callback, target), Done)
    case Unwind(k) =>
      if k < |scope.open| then UnwindCleanups(code, scope, scope.open[k], false, st, fuel) else Result(st, Exit(134))
    case Leave(k) =>
      if k < |scope.open| then LeaveOn(code, scope, scope.open[k], st, fuel) else Result(st, Done)
    case Throw(exn) => ThrowOwned(code, scope, exn, st, fuel)
    case Rethrow => ThrowOwned(code, scope, st.current, st, fuel)
    case RethrowFrame(k) =>
      if k < |scope.handled| && scope.handled[k] in st.caught && st.caught[scope.handled[k]].kind != 0
      then ThrowOwned(code, scope, st.caught[scope.handled[k]], st, fuel)
      else Result(st, Exit(134))
  }

  /** The body of a try block, up to the point where its frame has been left or thrown through. */
  function RunBody(code: Code, scope: Scope, body: Script, st: State, fuel: nat): Result
    decreases fuel, 2, body, 1
  {
    var f := st.nextFrame;
    var r := RunScript(code, scope.(open := [f] + scope.open), body, Install(st), fuel);
    if r.out.Done? then LeaveOn(code, scope.(open := [f] + scope.open), f, r.st, fuel) else r
  }

  function RunScript(code: Code, scope: Scope, script: Script, st: State, fuel: nat): Result
    decreases fuel, 2, script, 0
  {
    if script == [] then Result(st, Done) else
    var r := RunOp(code, scope, script[0], st, fuel);
    if r.out.Done? then RunScript(code, scope, script[1..], r.st, fuel) else r
  }

  // ---------- The call depth ----------

  // A run that ends is the same with any larger fuel, so the bound excludes only runs without end.

  lemma FuelUnwind(code: Code, scope: Scope, f: FrameId, guarded: bool, st: State, fuel: nat, more: nat)
    requires fuel <= more && !UnwindCleanups(code, scope, f, guarded, st, fuel).out.OutOfFuel?
    ensures UnwindCleanups(code, scope, f, guarded, st, more) == UnwindCleanups(code, scope, f, guarded, st, fuel)
    decreases fuel, 0
  {
    if f in st.cleanups && st.cleanups[f] != [] {
      var record := st.cleanups[f][0];
      var st1 := Pop(st, f);
      if guarded {
        FuelInvoke(code, scope, record, st1, fuel - 1, more - 1);
      } else {
        FuelIsEnough(code, scope, code.callback(record), st1, fuel - 1, more - 1);
      }
      var r := if guarded then InvokeCleanup(code, scope, record, st1, fuel - 1)
               else RunScript(code, scope, code.callback(record), st1, fuel - 1);
      if r.out.Done? {
        FuelUnwind(code, scope, f, guarded, r.st, fuel - 1, more - 1);
      }
    }
  }

  lemma FuelInvoke(code: Code, scope: Scope, record: Record, st: State, fuel: nat, more: nat)
    requires fuel <= more && !InvokeCleanup(code, scope, record, st, fuel).out.OutOfFuel?
    ensures InvokeCleanup(code, scope, record, st, more) == InvokeCleanup(code, scope, record, st, fuel)
    decreases fuel, 3
  {
    FuelIsEnough(code, scope, code.callback(record), Install(st), fuel, more);
    var r := RunScript(code, scope, code.callback(record), Install(st), fuel);
    if r.out.Done? && OnTop(r.st, st.nextFrame) {
      FuelUnwind(code, scope, st.nextFrame, false, r.st, fuel, more);
    }
  }

  lemma FuelThrow(code: Code, scope: Scope, exn: Exn, st: State, fuel: nat, more: nat)
    requires fuel <= more && !ThrowOwned(code, scope, exn, st, fuel).out.OutOfFuel?
    ensures ThrowOwned(code, scope, exn, st, more) == ThrowOwned(code, scope, exn, st, fuel)
    decreases fuel, 1
  {
    if st.chain != [] {
      FuelUnwind(code, scope, st.chain[0], true, st.(chain := st.chain[1..]), fuel, more);
    }
  }

  lemma FuelOp(code: Code, scope: Scope, op: Op, st: State, fuel: nat, more: nat)
    requires fuel <= more && !RunOp(code, scope, op, st, fuel).out.OutOfFuel?
    ensures RunOp(code, scope, op, st, more) == RunOp(code, scope, op, st, fuel)
    decreases fuel, 2, op
  {
    match op
    case Try(body, handler) =>
      FuelBody(code, scope, body, st, fuel, more);
      var r := RunBody(code, scope, body, st, fuel);
      if r.out == Thrown(st.nextFrame) {
        FuelIsEnough(code, Handling(scope, st.nextFrame), handler, r.st, fuel, more);
      }
    case Unwind(k) =>
      if k < |scope.open| { FuelUnwind(code, scope, scope.open[k], false, st, fuel, more); }
    case Leave(k) =>
      if k < |scope.open| && OnTop(st, scope.open[k]) { FuelUnwind(code, scope, scope.open[k], false, st, fuel, more); }
    case Throw(exn) => FuelThrow(code, scope, exn, st, fuel, more);
    case Rethrow => FuelThrow(code, scope, st.current, st, fuel, more);
    case RethrowFrame(k) =>
      if k < |scope.handled| && scope.handled[k] in st.caught && st.caught[scope.handled[k]].kind != 0 {
        FuelThrow(code, scope, st.caught[scope.handled[k]], st, fuel, more);
      }
    case _ =>
  }

  lemma FuelBody(code: Code, scope: Scope, body: Script, st: State, fuel: nat, more: nat)
    requires fuel <= more && !RunBody(code, scope, body, st, fuel).out.OutOfFuel?
    ensures RunBody(code, scope, body, st, more) == RunBody(code, scope, body, st, fuel)
    decreases fuel, 2, body, 1
  {
    var f := st.nextFrame;
    var inner := scope.(open := [f] + scope.open);
    FuelIsEnough(code, inner, body, Install(st), fuel, more);
    var r := RunScript(code, inner, body, Install(st), fuel);
    if r.out.Done? && OnTop(r.st, f) {
      FuelUnwind(code, inner, f, false, r.st, fuel, more);
    }
  }

  lemma FuelIsEnough(code: Code, scope: Scope, script: Script, st: State, fuel: nat, more: nat)
    requires fuel <= more && !RunScript(code, scope, script, st, fuel).out.OutOfFuel?
    ensures RunScript(code, scope, script, st, more) == RunScript(code, scope, script, st, fuel)
    decreases fuel, 2, script, 0
  {
    if script != [] {
      FuelOp(code, scope, script[0], st, fuel, more);
      var r := RunOp(code, scope, script[0], st, fuel);
      if r.out.Done? {
        FuelIsEnough(code, scope, script[1..], r.st, fuel, more);
      }
    }
  }

  // ---------- The runtime as the source runs it ----------

  /** The thread-local state; every operation updates it in place. */
  class Runtime {
    const code: Code
    var chain: seq<FrameId>
    var cleanups: map<FrameId, seq<Record>>
    var caught: map<FrameId, Exn>
    var current: Exn
    var nextFrame: FrameId
    var allocations: nat
    ghost var left: set<FrameId>
    ghost var landed: set<FrameId>
    ghost var owners: seq<Owner>
    ghost var log: seq<Event>

    ghost predicate Valid()
      reads this
    {
      |owners| == allocations
    }

    ghost function View(): State
      reads this
    {
      State(chain, cleanups, caught, current, nextFrame, left, landed, owners, log)
    }

    constructor (code: Code)
      ensures Valid() && View() == START && this.code == code
    {
      this.code := code;
      chain, cleanups, caught, current, nextFrame := [], map[], map[], Exn(0, 0), 0;
      allocations, left, landed, owners, log := 0, {}, {}, [], [];
    }

    method InstallFrame() returns (f: FrameId)
      requires Valid()
      modifies this
      ensures Valid() && View() == Install(old(View())) && f == old(nextFrame)
    {
      f := nextFrame;
      cleanups := cleanups[f := []];
      chain := [f] + chain;
      nextFrame := nextFrame + 1;
    }

    method RegisterCleanup(f: FrameId, callback: nat, target: nat) returns (out: Outcome)
      requires Valid()
      modifies this
      ensures Valid() && Result(View(), out) == RegisterOn(code, old(View()), f, callback, target)
    {
      if f !in cleanups || callback == 0 || target == 0 { return Exit(134); }
      if code.allocationFails(allocations) { return Exit(134); }
      cleanups := cleanups[f := [Record(allocations, callback, target)] + cleanups[f]];
      owners, log := owners + [Owner(f, |log|, f in left || f in landed)], log + [Registered(f, allocations)];
      allocations := allocations + 1;
      return Done;
    }

    /** Walks one frame's list and takes out the newest match. */
    method TakeOut(f: FrameId, callback: nat, target: nat) returns (found: bool)
      requires Valid() && f in cleanups
      modifies this
      ensures var i := Position(old(cleanups)[f], callback, target);
              && Valid() && found == (i < |old(cleanups)[f]|)
              && View() == if found then Remove(old(View()), f, i) else old(View())
    {
      var records := cleanups[f];
      var i := 0;
      while i < |records| && !(records[i].callback == callback && records[i].target == target)
        invariant i <= |records|
        invariant Position(records, callback, target) == i + Position(records[i..], callback, target)
      {
        i := i + 1;
      }
      if i == |records| { return false; }
      cleanups := cleanups[f := records[..i] + records[i + 1..]];
      log := log + [Unregistered(records[i].id), Freed(records[i].id)];
      return true;
    }

    method UnregisterCleanup(f: FrameId, callback: nat, target: nat) returns (out: Outcome)
      requires Valid()
      modifies this
      ensures Valid() && Result(View(), out) == UnregisterOn(old(View()), f, callback, target)
    {
      if f !in cleanups || callback == 0 || target == 0 { return Exit(134); }
      var found := TakeOut(f, callback, target);
      return if found then Done else Exit(134);
    }

    method UnregisterCurrentCleanup(callback: nat, target: nat)
      requires Valid()
      modifies this
      ensures Valid() && View() == UnregisterAlong(old(View()), old(chain), callback, target)
    {
      var frame := 0;
      while frame < |chain|
        invariant frame <= |chain| && Valid() && View() == old(View())
        invariant UnregisterAlong(View(), chain, callback, target) ==
                  UnregisterAlong(View(), chain[frame..], callback, target)
      {
        if chain[frame] in cleanups {
          var found := TakeOut(chain[frame], callback, target);
          if found { return; }
        }
        frame := frame + 1;
      }
    }

    method UnwindFrame(scope: Scope, f: FrameId, guarded: bool, fuel: nat) returns (out: Outcome)
      requires Valid()
      modifies this
      ensures Valid() && Result(View(), out) == UnwindCleanups(code, scope, f, guarded, old(View()), fuel)
      decreases fuel, 0
    {
      var depth: nat := fuel;
      if f !in cleanups { return Exit(134); }
      while f in cleanups && cleanups[f] != []
        invariant depth <= fuel && Valid()
        invariant UnwindCleanups(code, scope, f, guarded, View(), depth) ==
                  UnwindCleanups(code, scope, f, guarded, old(View()), fuel)
        decreases depth
      {
        if depth == 0 { return OutOfFuel; }
        var record := cleanups[f][0];
        cleanups := cleanups[f := cleanups[f][1..]];
        log := log + [Freed(record.id), Ran(record.id)];
        depth := depth - 1;
        if guarded {
          out := InvokeGuarded(scope, record, depth);
        } else {
          out := PerformAll(scope, code.callback(record), depth);
        }
        if !out.Done? { return out; }
      }
      return if f in cleanups then Done else Exit(134);
    }

    method InvokeGuarded(scope: Scope, record: Record, fuel: nat) returns (out: Outcome)
      requires Valid()
      modifies this
      ensures Valid() && Result(View(), out) == InvokeCleanup(code, scope, record, old(View()), fuel)
      decreases fuel, 3
    {
      var guard := InstallFrame();
      out := PerformAll(scope, code.callback(record), fuel);
      if out.Done? { out := LeaveFrame(scope, guard, fuel); }
      if out == Thrown(guard) { out := Exit(134); }
    }

    method LeaveFrame(scope: Scope, f: FrameId, fuel: nat) returns (out: Outcome)
      requires Valid()
      modifies this
      ensures Valid() && Result(View(), out) == LeaveOn(code, scope, f, old(View()), fuel)
      decreases fuel, 1
    {
      if chain == [] || chain[0] != f { return Done; }
      out := UnwindFrame(scope, f, false, fuel);
      if out.Done? && chain != [] && chain[0] == f {
        left := left + {f};
        chain := chain[1..];
      }
    }

    method ThrowFrom(scope: Scope, exn: Exn, fuel: nat) returns (out: Outcome)
      requires Valid()
      modifies this
      ensures Valid() && Result(View(), out) == ThrowOwned(code, scope, exn, old(View()), fuel)
      decreases fuel, 1
    {
      if chain == [] { return Exit(1); }
      var f := chain[0];
      chain := chain[1..];
      out := UnwindFrame(scope, f, true, fuel);
      if out.Done? {
        caught, current := caught[f := exn], exn;
        landed := landed + {f};
        out := Thrown(f);
      }
    }

    method Perform(scope: Scope, op: Op, fuel: nat) returns (out: Outcome)
      requires Valid()
      modifies this
      ensures Valid() && Result(View(), out) == RunOp(code, scope, op, old(View()), fuel)
      decreases fuel, 2, op
    {
      out := Exit(134);
      match op
      case Try(body, handler) =>
        var f := nextFrame;
        out := PerformBody(scope, body, fuel);
        if out == Thrown(f) { out := PerformAll(Handling(scope, f), handler, fuel); }
      case Register(k, callback, target) =>
        if k < |scope.open| { out := RegisterCleanup(scope.open[k], callback, target); }
      case Unregister(k, callback, target) =>
        if k < |scope.open| { out := UnregisterCleanup(scope.open[k], callback, target); }
      case RegisterCurrent(callback, target) =>
        if callback != 0 && target != 0 {
          if chain == [] { return Done; }
          out := RegisterCleanup(chain[0], callback, target);
        }
      case UnregisterCurrent(callback, target) =>
        if callback != 0 && target != 0 {
          UnregisterCurrentCleanup(callback, target);
          out := Done;
        }
      case Unwind(k) =>
        if k < |scope.open| { out := UnwindFrame(scope, scope.open[k], false, fuel); }
      case Leave(k) =>
        if k < |scope.open| { out := LeaveFrame(scope, scope.open[k], fuel); } else { out := Done; }
      case Throw(exn) => out := ThrowFrom(scope, exn, fuel);
      case Rethrow => out := ThrowFrom(scope, current, fuel);
      case RethrowFrame(k) =>
        if k < |scope.handled| && scope.handled[k] in caught && caught[scope.handled[k]].kind != 0 {
          out := ThrowFrom(scope, caught[scope.handled[k]], fuel);
        }
    }

    method PerformBody(scope: Scope, body: Script, fuel: nat) returns (out: Outcome)
      requires Valid()
      modifies this
      ensures Valid() && Result(View(), out) == RunBody(code, scope, body, old(View()), fuel)
      decreases fuel, 2, body, 1
    {
      var f := InstallFrame();
      var inner := scope.(open := [f] + scope.open);
      out := PerformAll(inner, body, fuel);
      if out.Done? { out := LeaveFrame(inner, f, fuel); }
    }

    method PerformAll(scope: Scope, script: Script, fuel: nat) returns (out: Outcome)
      requires Valid()
      modifies this
      ensures Valid() && Result(View(), out) == RunScript(code, scope, script, old(View()), fuel)
      decreases fuel, 2, script, 0
    {
      if script == [] { return Done; }
      out := Perform(scope, script[0], fuel);
      if out.Done? { out := PerformAll(scope, script[1..], fuel); }
    }
  }
}
