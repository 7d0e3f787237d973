/** uvio/coroutine/task.hpp as a machine of coroutine frames and of the Task objects that own them. One thread
    runs; who resumes whom is a stack. A context uses only Tasks of its own, and its Tasks are gone when it
    returns, as C++ scopes have it. */
module TaskFrames {
  import opened Common

  /** Created: suspended initially. Awaiting: suspended in co_await of another Task. Blocked: suspended in a
      foreign awaiter, which will resume it. Final: suspended finally. */
  datatype Phase = Created | Running | Awaiting(callee: nat) | Blocked | Final

  /** `caller` is the promise's caller_. `destroyed` counts destructions. The rest is history: whether a move
      assignment overwrote the last handle, which Task holds the handle, where it is on the stack. */
  datatype Frame = Frame(phase: Phase, caller: Option<nat>, destroyed: nat,
                         dropped: bool, holder: Option<nat>, depth: nat)

  /** A Task object: its handle_, the context whose scope it lives in (None is main), and whether it lives. */
  datatype Task = Task(handle: Option<nat>, owner: Option<nat>, alive: bool)

  /** `parked` are the handles that foreign awaiters have recorded and not yet resumed. */
  datatype State = State(frames: seq<Frame>, tasks: seq<Task>, stack: seq<nat>, parked: set<nat>)

  datatype Step =
    | Create                       // a coroutine is called: initial suspend, Task returned
    | MoveConstruct(t: nat)
    | MoveAssign(t: nat, u: nat)   // t = std::move(u)
    | Destruct(t: nat)
    | Await(t: nat)                // co_await t
    | TakeResume(t: nat)           // t.take().resume()
    | Return                       // the running coroutine reaches its final suspend point
    | Block                        // ... suspends in a foreign awaiter
    | Wake(f: nat)                 // a foreign awaiter resumes the frame it has recorded

  /** The running context: the top of the stack, or main. */
  function Current(s: State): Option<nat> {
    if s.stack == [] then None else Some(s.stack[|s.stack| - 1])
  }

  predicate Mine(s: State, t: nat) {
    t < |s.tasks| && s.tasks[t].alive && s.tasks[t].owner == Current(s)
  }

  predicate Has(s: State, t: nat) {
    Mine(s, t) && s.tasks[t].handle.Some? && s.tasks[t].handle.value < |s.frames|
  }

  /** What the scopes, the compiler and the asserts of the source let a program do: take() terminates and
      co_await asserts on an empty Task. Nothing is asked about the frame behind a handle. */
  predicate Enabled(s: State, step: Step) {
    match step
    case Create => true
    case MoveConstruct(t) => Mine(s, t)
    case MoveAssign(t, u) => Mine(s, t) && Mine(s, u)
    case Destruct(t) => Mine(s, t)
    case Await(t) => Current(s).Some? && Has(s, t)
    case TakeResume(t) => Has(s, t)
    case Return => Current(s).Some? && forall t :: 0 <= t < |s.tasks| ==> !Mine(s, t)
    case Block => Current(s).Some?
    case Wake(f) => f in s.parked
  }

  // The effects, piece by piece. A handle that is out of range would be a stray pointer; there is none.

  function WithFrame(s: State, f: nat, fr: Frame): State {
    if f < |s.frames| then s.(frames := s.frames[f := fr]) else s
  }

  function FrameOf(s: State, f: nat): Frame {
    if f < |s.frames| then s.frames[f] else Frame(Final, None, 0, false, None, 0)
  }

  function Hold(s: State, h: Option<nat>, holder: Option<nat>): State {
    if h.None? then s else WithFrame(s, h.value, FrameOf(s, h.value).(holder := holder))
  }

  function SetHandle(s: State, t: nat, h: Option<nat>): State
    requires t < |s.tasks|
  {
    s.(tasks := s.tasks[t := s.tasks[t].(handle := h)])
  }

  function DestroyFrame(s: State, f: nat): State {
    WithFrame(s, f, FrameOf(s, f).(destroyed := FrameOf(s, f).destroyed + 1))
  }

  function Push(s: State, f: nat): State {
    WithFrame(s, f, FrameOf(s, f).(phase := Running, depth := |s.stack|)).(stack := s.stack + [f])
  }

  function Pop(s: State, phase: Phase): State
    requires s.stack != []
  {
    var f := s.stack[|s.stack| - 1];
    WithFrame(s, f, FrameOf(s, f).(phase := phase)).(stack := s.stack[..|s.stack| - 1])
  }

  /** The handle in t is overwritten; nothing is destroyed. */
  function Drop(s: State, t: nat): State
    requires t < |s.tasks|
  {
    var h := s.tasks[t].handle;
    var s1 := SetHandle(s, t, None);
    if h.None? then s1 else WithFrame(s1, h.value, FrameOf(s, h.value).(dropped := true, holder := None))
  }

  /** The handle moves from one Task into another. */
  function Transfer(s: State, from: nat, to: nat): State
    requires from < |s.tasks| && to < |s.tasks|
  {
    var h := s.tasks[from].handle;
    Hold(SetHandle(SetHandle(s, from, None), to, h), h, Some(to))
  }

  function Next(s: State, step: Step): State
    requires Enabled(s, step)
  {
    match step
    case Create =>
      var f, t := |s.frames|, |s.tasks|;
      s.(frames := s.frames + [Frame(Created, None, 0, false, Some(t), 0)],
         tasks := s.tasks + [Task(Some(f), Current(s), true)])
    case MoveConstruct(t) =>
      var h := s.tasks[t].handle;
      var s1 := SetHandle(s, t, None);
      Hold(s1.(tasks := s1.tasks + [Task(h, Current(s), true)]), h, Some(|s.tasks|))
    case MoveAssign(t, u) =>
      if t == u then s else Transfer(Drop(s, t), u, t)
    case Destruct(t) =>
      var h := s.tasks[t].handle;
      var s1 := s.(tasks := s.tasks[t := s.tasks[t].(handle := None, alive := false)]);
      if h.None? then s1 else DestroyFrame(Hold(s1, h, None), h.value)
    case Await(t) =>
      var f, h := Current(s).value, s.tasks[t].handle.value;
      if s.frames[h].phase == Final then s  // await_ready
      else Push(Pop(WithFrame(s, h, s.frames[h].(caller := Some(f))), Awaiting(h)), h)
    case TakeResume(t) =>
      var h := s.tasks[t].handle;
      Push(Hold(SetHandle(s, t, None), h, None), h.value)
    case Return =>
      var f := Current(s).value;
      var s1 := Pop(s, Final);
      if FrameOf(s, f).caller.Some? then Push(s1, FrameOf(s, f).caller.value) else DestroyFrame(s1, f)
    case Block => Pop(s, Blocked).(parked := s.parked + {Current(s).value})
    case Wake(f) => Push(s, f).(parked := s.parked - {f})
  }

  const EMPTY: State := State([], [], [], {})

  /** The frame whose handle a step resumes, if it resumes one. */
  function Resumed(s: State, step: Step): Option<nat>
    requires Enabled(s, step)
  {
    match step
    case Await(t) =>
      if s.frames[s.tasks[t].handle.value].phase == Final then None else s.tasks[t].handle
    case TakeResume(t) => s.tasks[t].handle
    case Return => FrameOf(s, Current(s).value).caller
    case Wake(f) => Some(f)
    case _ => None
  }

  /** The frame that a step destroys, if it destroys one. */
  function Destroyed(s: State, step: Step): Option<nat>
    requires Enabled(s, step)
  {
    match step
    case Destruct(t) => s.tasks[t].handle
    case Return => if FrameOf(s, Current(s).value).caller.None? then Current(s) else None
    case _ => None
  }

  /** What C++ demands of a handle: only a frame that exists and is suspended, not at its end, is resumed, and
      only one that exists and is suspended, or returns just now, is destroyed. */
  predicate Defined(s: State, step: Step)
    requires Enabled(s, step)
  {
    && (Resumed(s, step).Some? ==>
          var f := Resumed(s, step).value;
          f < |s.frames| && s.frames[f].destroyed == 0 && !s.frames[f].phase.Running? && !s.frames[f].phase.Final?)
    && (Destroyed(s, step).Some? ==>
          var f := Destroyed(s, step).value;
          f < |s.frames| && s.frames[f].destroyed == 0 && (s.frames[f].phase.Running? ==> step.Return?))
  }

  /** The behaviour of a program up to its first undefined step, if it takes one. */
  ghost predicate Runs(s: State, steps: seq<Step>, t: State)
    decreases |steps|
  {
    if steps == [] then s == t
    else Enabled(s, steps[0]) && Defined(s, steps[0]) && Runs(Next(s, steps[0]), steps[1..], t)
  }

  ghost predicate Reachable(s: State) {
    exists steps :: Runs(EMPTY, steps, s)
  }

  // The invariant.

  predicate InExecution(p: Phase) {
    p.Running? || p.Awaiting? || p.Blocked?
  }

  function Count(b: bool): nat {
    if b then 1 else 0
  }

  /** A frame that is not executing has exactly one of three fates: held by a Task, dropped, or destroyed, once.
      An executing frame is either detached, or held by a Task of the caller that awaits it. */
  ghost predicate FrameOk(s: State, f: nat)
    requires f < |s.frames|
  {
    var fr := s.frames[f];
    && (fr.holder.Some? ==>
          fr.holder.value < |s.tasks| && s.tasks[fr.holder.value].alive && s.tasks[fr.holder.value].handle == Some(f))
    && (!InExecution(fr.phase) ==> Count(fr.holder.Some?) + Count(fr.dropped) + fr.destroyed == 1)
    && (fr.phase == Created ==> fr.caller == None)
    && (fr.phase == Blocked ==> f in s.parked)
    && (InExecution(fr.phase) ==> !fr.dropped && fr.destroyed == 0)
    && (InExecution(fr.phase) && fr.caller.None? ==> fr.holder.None?)
    && (InExecution(fr.phase) && fr.caller.Some? ==>
          && fr.caller.value < |s.frames| && s.frames[fr.caller.value].phase == Awaiting(f)
          && fr.holder.Some? && s.tasks[fr.holder.value].owner == fr.caller)
    && (fr.phase == Running ==> fr.depth < |s.stack| && s.stack[fr.depth] == f)
    && (fr.phase.Awaiting? ==>
          fr.phase.callee < |s.frames| && InExecution(s.frames[fr.phase.callee].phase)
          && s.frames[fr.phase.callee].caller == Some(f))
  }

  ghost predicate TaskOk(s: State, t: nat)
    requires t < |s.tasks|
  {
    var task := s.tasks[t];
    && (task.handle.Some? ==>
          task.alive && task.handle.value < |s.frames| && s.frames[task.handle.value].holder == Some(t))
    && (task.alive && task.owner.Some? ==>
          task.owner.value < |s.frames| && InExecution(s.frames[task.owner.value].phase))
  }

  ghost predicate StackOk(s: State, i: nat)
    requires i < |s.stack|
  {
    var f := s.stack[i];
    f < |s.frames| && s.frames[f].phase == Running && s.frames[f].depth == i
  }

  ghost predicate Inv(s: State) {
    && (forall f :: 0 <= f < |s.frames| ==> FrameOk(s, f))
    && (forall t :: 0 <= t < |s.tasks| ==> TaskOk(s, t))
    && (forall i :: 0 <= i < |s.stack| ==> StackOk(s, i))
    && (forall f :: f in s.parked ==> ParkedOk(s, f))
  }

  ghost predicate ParkedOk(s: State, f: nat) {
    f < |s.frames| && s.frames[f].phase == Blocked
  }

  lemma InvCreate(s: State)
    requires Inv(s)
    ensures Inv(Next(s, Create))
  {
    var n := Next(s, Create);
    forall f | 0 <= f < |n.frames| ensures FrameOk(n, f) {
      assert f < |s.frames| ==> FrameOk(s, f);
    }
    forall t | 0 <= t < |n.tasks| ensures TaskOk(n, t) {
      assert t < |s.tasks| ==> TaskOk(s, t);
      CurrentRuns(s);
    }
    forall i | 0 <= i < |n.stack| ensures StackOk(n, i) {
      assert StackOk(s, i);
    }
  }

  lemma CurrentRuns(s: State)
    requires Inv(s)
    ensures Current(s).Some? ==> Current(s).value < |s.frames|
    ensures Current(s).Some? ==> s.frames[Current(s).value].phase == Running
    ensures Current(s).Some? ==> s.frames[Current(s).value].depth == |s.stack| - 1
  {
    if s.stack != [] {
      assert StackOk(s, |s.stack| - 1);
    }
  }

  /** What a context's own Tasks hold is not executing: it can be destroyed or resumed. */
  lemma HeldIsIdle(s: State, t: nat)
    requires Inv(s) && Mine(s, t) && s.tasks[t].handle.Some?
    ensures var f := s.tasks[t].handle.value;
      && f < |s.frames| && s.frames[f].holder == Some(t)
      && !InExecution(s.frames[f].phase) && s.frames[f].destroyed == 0 && !s.frames[f].dropped
  {
    CurrentRuns(s);
    assert TaskOk(s, t);
    assert FrameOk(s, s.tasks[t].handle.value);
  }

  predicate HoldsExecuting(s: State, t: nat)
    requires t < |s.tasks|
  {
    var h := s.tasks[t].handle;
    h.Some? && h.value < |s.frames| && InExecution(s.frames[h.value].phase)
  }

  /** Any change of one idle frame's bookkeeping and of Tasks that leaves the executing frames alone. */
  lemma InvQuiet(s: State, n: State)
    requires Inv(s) && |n.frames| == |s.frames| && |n.tasks| >= |s.tasks| && n.stack == s.stack && n.parked == s.parked
    requires forall f :: 0 <= f < |s.frames| && InExecution(s.frames[f].phase) ==> n.frames[f] == s.frames[f]
    requires forall f :: 0 <= f < |s.frames| ==>
      n.frames[f].phase == s.frames[f].phase && n.frames[f].caller == s.frames[f].caller
    requires forall t :: 0 <= t < |s.tasks| && HoldsExecuting(s, t) ==> n.tasks[t] == s.tasks[t]
    requires forall f :: 0 <= f < |n.frames| && !InExecution(n.frames[f].phase) ==> FrameOk(n, f)
    requires forall t :: 0 <= t < |n.tasks| ==> TaskOk(n, t)
    ensures Inv(n)
  {
    forall f | 0 <= f < |n.frames| ensures FrameOk(n, f) {
      assert FrameOk(s, f);
    }
    forall i | 0 <= i < |n.stack| ensures StackOk(n, i) {
      assert StackOk(s, i);
    }
  }

  lemma MoveConstructEffect(s: State, t: nat)
    requires Inv(s) && Enabled(s, MoveConstruct(t))
    ensures var h := s.tasks[t].handle;
      var n := Next(s, MoveConstruct(t));
      && n.tasks == s.tasks[t := s.tasks[t].(handle := None)] + [Task(h, Current(s), true)]
      && (h.Some? ==> h.value < |s.frames|)
      && n.frames == (if h.None? then s.frames else s.frames[h.value := s.frames[h.value].(holder := Some(|s.tasks|))])
      && n.stack == s.stack && n.parked == s.parked
  {
    if s.tasks[t].handle.Some? {
      HeldIsIdle(s, t);
    }
  }

  lemma InvMoveConstruct(s: State, t: nat)
    requires Inv(s) && Enabled(s, MoveConstruct(t))
    ensures Inv(Next(s, MoveConstruct(t)))
  {
    var n := Next(s, MoveConstruct(t));
    CurrentRuns(s);
    MoveConstructEffect(s, t);
    hide Next;
    if s.tasks[t].handle.Some? {
      HeldIsIdle(s, t);
    }
    forall f | 0 <= f < |n.frames| && !InExecution(n.frames[f].phase) ensures FrameOk(n, f) {
      assert FrameOk(s, f);
    }
    forall u | 0 <= u < |n.tasks| ensures TaskOk(n, u) {
      assert TaskOk(s, t) && (u < |s.tasks| ==> TaskOk(s, u));
    }
    InvQuiet(s, n);
  }

  lemma InvDrop(s: State, t: nat)
    requires Inv(s) && Mine(s, t)
    ensures Inv(Drop(s, t))
  {
    var n := Drop(s, t);
    if s.tasks[t].handle.Some? {
      HeldIsIdle(s, t);
    }
    forall f | 0 <= f < |n.frames| && !InExecution(n.frames[f].phase) ensures FrameOk(n, f) {
      assert FrameOk(s, f);
    }
    forall v | 0 <= v < |n.tasks| ensures TaskOk(n, v) {
      assert TaskOk(s, t) && TaskOk(s, v);
    }
    InvQuiet(s, n);
  }

  lemma InvTransfer(s: State, from: nat, to: nat)
    requires Inv(s) && Mine(s, from) && Mine(s, to) && from != to && s.tasks[to].handle.None?
    ensures Inv(Transfer(s, from, to))
  {
    var n := Transfer(s, from, to);
    if s.tasks[from].handle.Some? {
      HeldIsIdle(s, from);
    }
    forall f | 0 <= f < |n.frames| && !InExecution(n.frames[f].phase) ensures FrameOk(n, f) {
      assert FrameOk(s, f);
    }
    forall v | 0 <= v < |n.tasks| ensures TaskOk(n, v) {
      assert TaskOk(s, from) && TaskOk(s, v);
    }
    InvQuiet(s, n);
  }

  lemma InvMoveAssign(s: State, t: nat, u: nat)
    requires Inv(s) && Enabled(s, MoveAssign(t, u))
    ensures Inv(Next(s, MoveAssign(t, u)))
  {
    hide Inv;
    if t != u {
      InvDrop(s, t);
      InvTransfer(Drop(s, t), u, t);
    }
  }

  lemma InvDestruct(s: State, t: nat)
    requires Inv(s) && Enabled(s, Destruct(t))
    ensures Inv(Next(s, Destruct(t)))
  {
    var n := Next(s, Destruct(t));
    if s.tasks[t].handle.Some? {
      HeldIsIdle(s, t);
    }
    forall f | 0 <= f < |n.frames| && !InExecution(n.frames[f].phase) ensures FrameOk(n, f) {
      assert FrameOk(s, f);
    }
    forall v | 0 <= v < |n.tasks| ensures TaskOk(n, v) {
      assert TaskOk(s, t) && TaskOk(s, v);
    }
    InvQuiet(s, n);
  }

  lemma AwaitEffect(s: State, t: nat)
    requires Inv(s) && Enabled(s, Await(t)) && s.frames[s.tasks[t].handle.value].phase != Final
    ensures var c, h := Current(s).value, s.tasks[t].handle.value;
      var n := Next(s, Await(t));
      var top := |s.stack| - 1;
      && c < |s.frames| && c != h
      && n.frames == s.frames[c := s.frames[c].(phase := Awaiting(h))]
                       [h := s.frames[h].(phase := Running, caller := Some(c), depth := top)]
      && n.tasks == s.tasks && n.stack == s.stack[top := h] && n.parked == s.parked
      && s.frames[h].phase == Created && s.frames[h].holder == Some(t)
  {
    CurrentRuns(s);
    HeldIsIdle(s, t);
  }

  lemma InvAwait(s: State, t: nat)
    requires Inv(s) && Enabled(s, Await(t))
    ensures Inv(Next(s, Await(t)))
  {
    var n := Next(s, Await(t));
    CurrentRuns(s);
    if s.frames[s.tasks[t].handle.value].phase == Final {
      return;
    }
    AwaitEffect(s, t);
    hide Next;
    forall f | 0 <= f < |n.frames| ensures FrameOk(n, f) {
      assert FrameOk(s, f);
    }
    forall v | 0 <= v < |n.tasks| ensures TaskOk(n, v) {
      assert TaskOk(s, v);
    }
    forall i | 0 <= i < |n.stack| ensures StackOk(n, i) {
      assert StackOk(s, i);
    }
  }

  lemma InvTakeResume(s: State, t: nat)
    requires Inv(s) && Enabled(s, TakeResume(t)) && Defined(s, TakeResume(t))
    ensures Inv(Next(s, TakeResume(t)))
  {
    var n := Next(s, TakeResume(t));
    CurrentRuns(s);
    HeldIsIdle(s, t);
    forall f | 0 <= f < |n.frames| ensures FrameOk(n, f) {
      assert FrameOk(s, f);
    }
    forall v | 0 <= v < |n.tasks| ensures TaskOk(n, v) {
      assert TaskOk(s, t) && TaskOk(s, v);
    }
    forall i | 0 <= i < |n.stack| ensures StackOk(n, i) {
      assert i < |s.stack| ==> StackOk(s, i);
    }
  }

  lemma ReturnEffect(s: State)
    requires Inv(s) && Enabled(s, Return)
    ensures var c := Current(s).value;
      var n := Next(s, Return);
      var top := |s.stack| - 1;
      && c < |s.frames| && n.tasks == s.tasks && n.parked == s.parked
      && match s.frames[c].caller
         case None =>
           n.stack == s.stack[..top]
           && n.frames == s.frames[c := s.frames[c].(phase := Final, destroyed := s.frames[c].destroyed + 1)]
         case Some(a) =>
           && a < |s.frames| && s.frames[a].phase == Awaiting(c) && n.stack == s.stack[top := a]
           && n.frames == s.frames[c := s.frames[c].(phase := Final)][a := s.frames[a].(phase := Running, depth := top)]
  {
    CurrentRuns(s);
    assert FrameOk(s, Current(s).value);
  }

  lemma InvReturn(s: State)
    requires Inv(s) && Enabled(s, Return)
    ensures Inv(Next(s, Return))
  {
    var n := Next(s, Return);
    CurrentRuns(s);
    ReturnEffect(s);
    hide Next;
    assert FrameOk(s, Current(s).value);
    forall f | 0 <= f < |n.frames| ensures FrameOk(n, f) {
      assert FrameOk(s, f);
    }
    forall v | 0 <= v < |n.tasks| ensures TaskOk(n, v) {
      assert TaskOk(s, v) && !Mine(s, v);
    }
    forall i | 0 <= i < |n.stack| ensures StackOk(n, i) {
      assert StackOk(s, i);
    }
  }

  lemma InvBlock(s: State)
    requires Inv(s) && Enabled(s, Block)
    ensures Inv(Next(s, Block))
  {
    var n := Next(s, Block);
    CurrentRuns(s);
    forall f | 0 <= f < |n.frames| ensures FrameOk(n, f) {
      assert FrameOk(s, f);
    }
    forall v | 0 <= v < |n.tasks| ensures TaskOk(n, v) {
      assert TaskOk(s, v);
    }
    forall i | 0 <= i < |n.stack| ensures StackOk(n, i) {
      assert StackOk(s, i);
    }
  }

  lemma InvWake(s: State, w: nat)
    requires Inv(s) && Enabled(s, Wake(w))
    ensures Inv(Next(s, Wake(w)))
  {
    var n := Next(s, Wake(w));
    forall f | 0 <= f < |n.frames| ensures FrameOk(n, f) {
      assert FrameOk(s, f);
    }
    forall v | 0 <= v < |n.tasks| ensures TaskOk(n, v) {
      assert TaskOk(s, v);
    }
    forall i | 0 <= i < |n.stack| ensures StackOk(n, i) {
      assert i < |s.stack| ==> StackOk(s, i);
    }
  }

  lemma InvStep(s: State, step: Step)
    requires Inv(s) && Enabled(s, step) && Defined(s, step)
    ensures Inv(Next(s, step))
  {
    hide Inv, Next, Defined;
    match step
    case Create => InvCreate(s);
    case MoveConstruct(t) => InvMoveConstruct(s, t);
    case MoveAssign(t, u) => InvMoveAssign(s, t, u);
    case Destruct(t) => InvDestruct(s, t);
    case Await(t) => InvAwait(s, t);
    case TakeResume(t) => InvTakeResume(s, t);
    case Return => InvReturn(s);
    case Block => InvBlock(s);
    case Wake(f) => InvWake(s, f);
  }

  lemma {:induction false} InvRuns(s: State, steps: seq<Step>, n: State)
    requires Inv(s) && Runs(s, steps, n)
    ensures Inv(n)
    decreases |steps|
  {
    hide Inv;
    if steps != [] {
      InvStep(s, steps[0]);
      InvRuns(Next(s, steps[0]), steps[1..], n);
    }
  }

  lemma InvReachable(s: State)
    requires Reachable(s)
    ensures Inv(s)
  {
    assert Inv(EMPTY);
    hide Inv;
    var steps :| Runs(EMPTY, steps, s);
    InvRuns(EMPTY, steps, s);
  }

  // What the machine promises.

  /** Resuming what a Task holds although it has already been awaited to its end. */
  predicate ResumesFinished(s: State, step: Step)
    requires Enabled(s, step)
  {
    step.TakeResume? && s.frames[s.tasks[step.t].handle.value].phase == Final
  }

  /** The handles are always good, with one exception: take() on a Task that was awaited to its end. All other
      resumes and all destructions are of frames that exist, are suspended and, when resumed, not at their end. */
  lemma SafeIff(s: State, step: Step)
    requires Reachable(s) && Enabled(s, step)
    ensures Defined(s, step) <==> !ResumesFinished(s, step)
  {
    InvReachable(s);
    CurrentRuns(s);
    match step
    case Destruct(t) =>
      if s.tasks[t].handle.Some? {
        HeldIsIdle(s, t);
      }
    case Await(t) => HeldIsIdle(s, t);
    case TakeResume(t) => HeldIsIdle(s, t);
    case Return =>
      assert FrameOk(s, Current(s).value);
      if FrameOf(s, Current(s).value).caller.Some? {
        assert FrameOk(s, FrameOf(s, Current(s).value).caller.value);
      }
    case Wake(f) => assert ParkedOk(s, f) && FrameOk(s, f);
    case _ =>
  }

  lemma {:induction false} RunsOneMore(s: State, steps: seq<Step>, t: State, step: Step)
    requires Runs(s, steps, t) && Enabled(t, step) && Defined(t, step)
    ensures Runs(s, steps + [step], Next(t, step))
    decreases |steps|
  {
    hide Next, Enabled, Defined;
    if steps == [] {
      assert ([step])[1..] == [];
      assert Runs(Next(s, step), [], Next(s, step));
    } else {
      RunsOneMore(Next(s, steps[0]), steps[1..], t, step);
      assert (steps + [step])[1..] == steps[1..] + [step];
    }
  }

  lemma After(s: State, step: Step) returns (t: State)
    requires Reachable(s) && Enabled(s, step) && Defined(s, step)
    ensures t == Next(s, step) && Reachable(t)
  {
    hide Next, Enabled, Defined, Runs;
    t := Next(s, step);
    var steps :| Runs(EMPTY, steps, s);
    RunsOneMore(EMPTY, steps, s, step);
  }

  /** That does happen: a coroutine awaits another one and then takes and resumes it once more. */
  lemma FinishedCanBeTaken() returns (s: State, step: Step)
    ensures Reachable(s) && Enabled(s, step) && !Defined(s, step)
  {
    assert Runs(EMPTY, [], EMPTY);
    hide Reachable;
    s := After(EMPTY, Create);
    s := After(s, TakeResume(0));
    s := After(s, Create);
    s := AwaitedToItsEnd(s);
    step := TakeResume(1);
  }

  lemma AwaitedToItsEnd(s: State) returns (t: State)
    requires Reachable(s) && |s.frames| == |s.tasks| == 2 && s.stack == [0]
    requires s.frames[0].phase == Running && s.frames[1].phase == Created && s.tasks[0].owner == None
    requires s.tasks[1] == Task(Some(1), Some(0), true)
    ensures Reachable(t) && Has(t, 1) && t.tasks[1].handle == Some(1) && t.frames[1].phase == Final
  {
    InvReachable(s);
    SafeIff(s, Await(1));
    AwaitEffect(s, 1);
    hide Inv, Reachable, Next, Defined;
    t := After(s, Await(1));
    t := ReturnToAwaiter(t);
  }

  lemma ReturnToAwaiter(s: State) returns (t: State)
    requires Reachable(s) && |s.frames| == |s.tasks| == 2 && s.stack == [1]
    requires s.frames[1].phase == Running && s.frames[1].caller == Some(0)
    requires s.tasks[0].owner == None && s.tasks[1] == Task(Some(1), Some(0), true)
    ensures Reachable(t) && Has(t, 1) && t.tasks[1].handle == Some(1) && t.frames[1].phase == Final
  {
    InvReachable(s);
    SafeIff(s, Return);
    ReturnEffect(s);
    hide Inv, Reachable, Next, Defined;
    t := After(s, Return);
  }

  /** What becomes of a frame: the resumed one runs, a context that gives up control waits as it said, and a
      callee learns its caller. Nothing else changes but the destruction that `Destroyed` names. */
  function PhaseAfter(s: State, step: Step, f: nat): Phase
    requires Enabled(s, step) && f < |s.frames|
  {
    if Resumed(s, step) == Some(f) then Running
    else if Current(s) != Some(f) then s.frames[f].phase
    else match step
      case Await(t) => if Resumed(s, step).Some? then Awaiting(Resumed(s, step).value) else s.frames[f].phase
      case Return => Final
      case Block => Blocked
      case _ => s.frames[f].phase
  }

  predicate FrameFollows(s: State, step: Step, f: nat)
    requires Enabled(s, step) && f < |s.frames|
  {
    var n := Next(s, step);
    && f < |n.frames| && n.frames[f].phase == PhaseAfter(s, step, f)
    && n.frames[f].destroyed == s.frames[f].destroyed + Count(Destroyed(s, step) == Some(f))
    && n.frames[f].caller == if step.Await? && Resumed(s, step) == Some(f) then Current(s) else s.frames[f].caller
  }

  lemma FrameLaw(s: State, step: Step, f: nat)
    requires Inv(s) && Enabled(s, step) && Defined(s, step) && f < |s.frames|
    ensures FrameFollows(s, step, f)
  {
    CurrentRuns(s);
    match step
    case Await(t) => AwaitFrame(s, t, f);
    case Return => ReturnFrame(s, f);
    case Destruct(t) =>
      if s.tasks[t].handle.Some? {
        HeldIsIdle(s, t);
      }
    case TakeResume(t) => HeldIsIdle(s, t);
    case MoveConstruct(t) =>
      MoveConstructEffect(s, t);
      hide Next;
    case MoveAssign(t, u) =>
      MovesKeepFrames(s, t, u, f);
      hide Next;
    case _ =>
  }

  lemma AwaitFrame(s: State, t: nat, f: nat)
    requires Inv(s) && Enabled(s, Await(t)) && f < |s.frames|
    ensures FrameFollows(s, Await(t), f)
  {
    CurrentRuns(s);
    HeldIsIdle(s, t);
    if s.frames[s.tasks[t].handle.value].phase != Final {
      AwaitEffect(s, t);
      hide Next;
    }
  }

  lemma ReturnFrame(s: State, f: nat)
    requires Inv(s) && Enabled(s, Return) && f < |s.frames|
    ensures FrameFollows(s, Return, f)
  {
    CurrentRuns(s);
    ReturnEffect(s);
    hide Next;
  }

  lemma MovesKeepFrames(s: State, t: nat, u: nat, f: nat)
    requires Enabled(s, MoveAssign(t, u)) && f < |s.frames|
    ensures var n := Next(s, MoveAssign(t, u));
      && f < |n.frames| && n.frames[f].phase == s.frames[f].phase
      && n.frames[f].destroyed == s.frames[f].destroyed && n.frames[f].caller == s.frames[f].caller
  {
  }

  /** Where control goes: a resume by take() or by a foreign awaiter comes back to where it was made; a co_await or a
      completion hands control over. */
  lemma ControlLaw(s: State, step: Step)
    requires Inv(s) && Enabled(s, step) && Defined(s, step)
    ensures var n, r := Next(s, step), Resumed(s, step);
      if step.TakeResume? || step.Wake? then n.stack == s.stack + [r.value]
      else if r.Some? then s.stack != [] && n.stack == s.stack[..|s.stack| - 1] + [r.value]
      else if step.Return? || step.Block? then s.stack != [] && n.stack == s.stack[..|s.stack| - 1]
      else n.stack == s.stack
  {
    CurrentRuns(s);
    match step
    case Await(t) =>
      if s.frames[s.tasks[t].handle.value].phase != Final {
        AwaitEffect(s, t);
        hide Next;
      }
    case Return =>
      ReturnEffect(s);
      hide Next;
    case _ =>
  }

  /** What a Task holds after a step. */
  function HandleAfter(s: State, step: Step, t: nat): Option<nat>
    requires Enabled(s, step) && t < |s.tasks|
  {
    match step
    case MoveConstruct(u) => if t == u then None else s.tasks[t].handle
    case MoveAssign(to, from) =>
      if to == from then s.tasks[t].handle
      else if t == to then s.tasks[from].handle
      else if t == from then None
      else s.tasks[t].handle
    case Destruct(u) => if t == u then None else s.tasks[t].handle
    case TakeResume(u) => if t == u then None else s.tasks[t].handle
    case _ => s.tasks[t].handle
  }

  /** Handles move from Task to Task and are neither copied nor, but for an overwritten one, lost. A new Task lives in
      the running context and holds the new frame, or what it was moved from. */
  lemma HandleLaw(s: State, step: Step, t: nat)
    requires Enabled(s, step) && t < |Next(s, step).tasks|
    ensures var n := Next(s, step).tasks[t];
      if t < |s.tasks| then
        && n.handle == HandleAfter(s, step, t)
        && n.owner == s.tasks[t].owner && n.alive == (s.tasks[t].alive && step != Destruct(t))
      else
        && t == |s.tasks| && (step.Create? || step.MoveConstruct?)
        && n == Task(if step.Create? then Some(|s.frames|) else s.tasks[step.t].handle, Current(s), true)
  {
    if step.MoveAssign? {
      AssignedHandles(s, step.t, step.u, t);
      hide Next;
    }
  }

  lemma AssignedHandles(s: State, to: nat, from: nat, t: nat)
    requires Enabled(s, MoveAssign(to, from))
    ensures var n := Next(s, MoveAssign(to, from)).tasks;
      && |n| == |s.tasks|
      && (t < |n| ==> n[t] == s.tasks[t].(handle := HandleAfter(s, MoveAssign(to, from), t)))
  {
  }

  /** A coroutine that is called waits at its start. */
  lemma CreateLaw(s: State)
    ensures var n := Next(s, Create);
      |n.frames| == |s.frames| + 1 && n.frames[|s.frames|].phase == Created && n.frames[|s.frames|].caller == None
      && n.parked == s.parked
  {
  }

  /** No frame is destroyed twice. */
  lemma DestroyedAtMostOnce(s: State, f: nat)
    requires Reachable(s) && f < |s.frames|
    ensures s.frames[f].destroyed <= 1
  {
    InvReachable(s);
    assert FrameOk(s, f);
  }

  /** Completion gives control back to the context that awaited the frame, or, for a detached frame, destroys
      it and goes back to whoever resumed it. */
  lemma ReturnsToCaller(s: State)
    requires Reachable(s) && Enabled(s, Return)
    ensures var f := Current(s).value;
      var c := FrameOf(s, f).caller;
      var n := Next(s, Return);
      && f < |s.frames|
      && (c.Some? ==>
            c.value < |s.frames| && s.frames[c.value].phase == Awaiting(f)
            && Current(n) == c && n.frames[f].destroyed == 0)
      && (c.None? ==> n.stack == s.stack[..|s.stack| - 1] && n.frames[f].destroyed == 1)
  {
    InvReachable(s);
    CurrentRuns(s);
    assert FrameOk(s, Current(s).value);
  }

  // Leaks.

  /** Everything has run to its end and every Task is gone. */
  ghost predicate Complete(s: State) {
    && (forall t :: 0 <= t < |s.tasks| ==> !s.tasks[t].alive)
    && (forall f :: 0 <= f < |s.frames| ==> !InExecution(s.frames[f].phase))
  }

  /** The step is `t = std::move(u)` for another Task u while t still holds frame f. */
  predicate Overwrites(s: State, step: Step, f: nat)
    requires Enabled(s, step)
  {
    step.MoveAssign? && step.t != step.u && s.tasks[step.t].handle == Some(f)
  }

  /** Some step of the run does so. */
  ghost predicate Overwritten(s: State, steps: seq<Step>, f: nat)
    decreases |steps|
  {
    && steps != [] && Enabled(s, steps[0])
    && (Overwrites(s, steps[0], f) || Overwritten(Next(s, steps[0]), steps[1..], f))
  }

  predicate Dropped(s: State, f: nat) {
    f < |s.frames| && s.frames[f].dropped
  }

  lemma DroppedStep(s: State, step: Step, f: nat)
    requires Inv(s) && Enabled(s, step)
    ensures Dropped(Next(s, step), f) <==> Dropped(s, f) || Overwrites(s, step, f)
  {
    CurrentRuns(s);
    if step.MoveAssign? {
      DroppedMove(s, step.t, step.u, f);
      hide Next;
    }
  }

  lemma DroppedMove(s: State, t: nat, u: nat, f: nat)
    requires Inv(s) && Enabled(s, MoveAssign(t, u))
    ensures Dropped(Next(s, MoveAssign(t, u)), f) <==> Dropped(s, f) || Overwrites(s, MoveAssign(t, u), f)
  {
    if s.tasks[t].handle.Some? {
      HeldIsIdle(s, t);
    }
  }

  lemma {:induction false} DroppedRuns(s: State, steps: seq<Step>, n: State, f: nat)
    requires Inv(s) && Runs(s, steps, n)
    ensures Dropped(n, f) <==> Dropped(s, f) || Overwritten(s, steps, f)
    decreases |steps|
  {
    hide Inv, Enabled, Defined, Dropped, Overwrites;
    if steps != [] {
      DroppedStep(s, steps[0], f);
      InvStep(s, steps[0]);
      var m := Next(s, steps[0]);
      hide Next;
      DroppedRuns(m, steps[1..], n, f);
    }
  }

  /** At the end of a complete run every frame has been destroyed exactly once, except exactly those that a
      move assignment of the run overwrote: these are never destroyed. */
  lemma DestroyedOnceIff(steps: seq<Step>, s: State, f: nat)
    requires Runs(EMPTY, steps, s) && Complete(s) && f < |s.frames|
    ensures s.frames[f].destroyed == if Overwritten(EMPTY, steps, f) then 0 else 1
  {
    InvRuns(EMPTY, steps, s);
    DroppedRuns(EMPTY, steps, s, f);
    assert FrameOk(s, f);
  }

  /** A move assignment onto a Task that holds nothing, or onto itself. */
  predicate Harmless(s: State, step: Step)
    requires Enabled(s, step)
  {
    step.MoveAssign? ==> step.t == step.u || s.tasks[step.t].handle.None?
  }

  ghost predicate AllHarmless(s: State, steps: seq<Step>)
    decreases |steps|
  {
    steps == [] || (Enabled(s, steps[0]) && Harmless(s, steps[0]) && AllHarmless(Next(s, steps[0]), steps[1..]))
  }

  lemma {:induction false} HarmlessIff(s: State, steps: seq<Step>, n: State)
    requires Runs(s, steps, n)
    ensures AllHarmless(s, steps) <==> forall f: nat :: !Overwritten(s, steps, f)
    decreases |steps|
  {
    hide Enabled, Next, Defined, Harmless, Overwrites;
    if steps != [] {
      var m := Next(s, steps[0]);
      HarmlessIff(m, steps[1..], n);
      HarmlessStep(s, steps[0]);
      if !Harmless(s, steps[0]) {
        var f: nat :| Overwrites(s, steps[0], f);
        assert Overwritten(s, steps, f);
      } else if !AllHarmless(m, steps[1..]) {
        var f: nat :| Overwritten(m, steps[1..], f);
        assert Overwritten(s, steps, f);
      } else {
        forall f: nat
          ensures !Overwritten(s, steps, f)
        {
          assert !Overwrites(s, steps[0], f) && !Overwritten(m, steps[1..], f);
        }
      }
    }
  }

  lemma HarmlessStep(s: State, step: Step)
    requires Enabled(s, step)
    ensures Harmless(s, step) <==> forall f: nat :: !Overwrites(s, step, f)
  {
    if !Harmless(s, step) {
      assert Overwrites(s, step, s.tasks[step.t].handle.value);
    }
  }

  /** A complete run destroys every frame exactly once if and only if each of its move assignments was onto a
      Task that held nothing or onto itself. */
  lemma NoLeakIff(steps: seq<Step>, s: State)
    requires Runs(EMPTY, steps, s) && Complete(s)
    ensures AllHarmless(EMPTY, steps) <==> forall f: nat :: f < |s.frames| ==> s.frames[f].destroyed == 1
  {
    hide Runs, AllHarmless, Complete, Overwritten;
    HarmlessIff(EMPTY, steps, s);
    if AllHarmless(EMPTY, steps) {
      forall f: nat | f < |s.frames|
        ensures s.frames[f].destroyed == 1
      {
        DestroyedOnceIff(steps, s, f);
      }
    } else {
      var f: nat :| Overwritten(EMPTY, steps, f);
      DroppedRuns(EMPTY, steps, s, f);
      DestroyedOnceIff(steps, s, f);
    }
  }

  /** Two coroutines are created, the second Task is moved onto the first, and both go out of scope. */
  lemma LeakIsPossible() returns (s: State)
    ensures Reachable(s) && Complete(s) && |s.frames| == 2 && s.frames[0].destroyed == 0 && s.frames[1].destroyed == 1
  {
    assert Runs(EMPTY, [], EMPTY);
    hide Reachable;
    s := After(EMPTY, Create);
    s := After(s, Create);
    s := After(s, MoveAssign(0, 1));
    s := After(s, Destruct(0));
    s := After(s, Destruct(1));
  }
}
