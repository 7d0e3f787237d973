/** uvio/sync/latch.hpp as a step machine: every atomic operation, resume and `next_` read of every thread
    is one step, and the steps of all threads interleave freely (sequentially consistent). */
module LatchSteps {
  import opened Common

  /** Where a LatchAwaiter stands. `PassedReady` saw zero in await_ready; `PassedLate` saw zero in the second
      look, after it was pushed, so that await_suspend returned false. Both go on without suspending. */
  datatype WaitPhase = Fresh | Checked | Trying | Pushed | Suspended | PassedReady | PassedLate

  /** `resumed` counts the resumes; `place` is history, the position in the order of pushes. */
  datatype Awaiter = Awaiter(phase: WaitPhase, next: Option<nat>, resumed: nat, place: nat)

  /** Where a count_down call stands. The numbers are history: how many awaiters are still to be resumed,
      and how many had been pushed when the list head was loaded. */
  datatype DownPhase =
    | Ready
    | MustNotify
    | At(node: Option<nat>, left: nat, seen: nat)
    | Leaving(at: nat, left: nat, seen: nat)
    | Notified(seen: nat)
    | Returned

  datatype Downer = Downer(update: nat, phase: DownPhase)

  datatype State = State(
    count: int,              // expected_
    head: Option<nat>,       // head_
    awaiters: seq<Awaiter>,  // any number of awaiters ...
    downers: seq<Downer>,    // ... and of count_down calls, named by their index
    pushed: seq<nat>         // history: the awaiters in the order of their pushes
  )

  datatype Step =
    | Check(w: nat)                    // await_ready
    | LoadHead(w: nat)                 // next_ = head_.load
    | TryPush(w: nat, spurious: bool)  // compare_exchange_weak
    | Recheck(w: nat)                  // !try_wait() at the end of await_suspend
    | FetchSub(d: nat)
    | LoadList(d: nat)                 // notify_all: head_.load
    | Resume(d: nat)                   // head->handle_.resume()
    | Advance(d: nat)                  // head = head->next_
    | Leave(d: nat)                    // head == nullptr

  predicate Enabled(s: State, step: Step) {
    match step
    case Check(w) => w < |s.awaiters| && s.awaiters[w].phase == Fresh
    case LoadHead(w) => w < |s.awaiters| && s.awaiters[w].phase == Checked
    case TryPush(w, _) => w < |s.awaiters| && s.awaiters[w].phase == Trying
    case Recheck(w) => w < |s.awaiters| && s.awaiters[w].phase == Pushed
    case FetchSub(d) => d < |s.downers| && s.downers[d].phase == Ready
    case LoadList(d) => d < |s.downers| && s.downers[d].phase == MustNotify
    case Resume(d) =>
      d < |s.downers| && s.downers[d].phase.At? && s.downers[d].phase.node.Some?
      && s.downers[d].phase.node.value < |s.awaiters|
    case Advance(d) => d < |s.downers| && s.downers[d].phase.Leaving? && s.downers[d].phase.at < |s.awaiters|
    case Leave(d) => d < |s.downers| && s.downers[d].phase.At? && s.downers[d].phase.node.None?
  }

  function SetAwaiter(s: State, w: nat, a: Awaiter): State
    requires w < |s.awaiters|
  {
    s.(awaiters := s.awaiters[w := a])
  }

  function SetPhase(s: State, d: nat, p: DownPhase): State
    requires d < |s.downers|
  {
    s.(downers := s.downers[d := s.downers[d].(phase := p)])
  }

  function Next(s: State, step: Step): State
    requires Enabled(s, step)
  {
    match step
    case Check(w) =>
      SetAwaiter(s, w, s.awaiters[w].(phase := if s.count == 0 then PassedReady else Checked))
    case LoadHead(w) =>
      SetAwaiter(s, w, s.awaiters[w].(phase := Trying, next := s.head))
    case TryPush(w, spurious) =>
      if s.head == s.awaiters[w].next && !spurious then
        SetAwaiter(s, w, s.awaiters[w].(phase := Pushed, place := |s.pushed|))
          .(head := Some(w), pushed := s.pushed + [w])
      else
        SetAwaiter(s, w, s.awaiters[w].(next := s.head))
    case Recheck(w) =>
      SetAwaiter(s, w, s.awaiters[w].(phase := if s.count == 0 then PassedLate else Suspended))
    case FetchSub(d) =>
      SetPhase(s, d, if s.count == s.downers[d].update then MustNotify else Returned)
      .(count := s.count - s.downers[d].update)
    case LoadList(d) =>
      SetPhase(s, d, At(s.head, |s.pushed|, |s.pushed|))
    case Resume(d) =>
      var p := s.downers[d].phase;
      var w := p.node.value;
      SetPhase(SetAwaiter(s, w, s.awaiters[w].(resumed := s.awaiters[w].resumed + 1)), d,
        Leaving(w, if p.left > 0 then p.left - 1 else 0, p.seen))
    case Advance(d) =>
      var p := s.downers[d].phase;
      SetPhase(s, d, At(s.awaiters[p.at].next, p.left, p.seen))
    case Leave(d) =>
      SetPhase(s, d, Notified(s.downers[d].phase.seen))
  }

  // Runs.

  /** What the count_down calls that have not run yet will still subtract. */
  function Outstanding(downers: seq<Downer>): nat {
    if downers == [] then 0
    else (if downers[0].phase == Ready then downers[0].update else 0) + Outstanding(downers[1..])
  }

  /** A latch with `expected`, and updates of at least one that sum to at most that. */
  ghost predicate Init(s: State, expected: nat) {
    && s.count == expected && s.head == None && s.pushed == []
    && (forall w :: 0 <= w < |s.awaiters| ==> s.awaiters[w] == Awaiter(Fresh, None, 0, 0))
    && (forall d :: 0 <= d < |s.downers| ==> s.downers[d].phase == Ready && s.downers[d].update >= 1)
    && Outstanding(s.downers) <= expected
  }

  ghost predicate Runs(s: State, steps: seq<Step>, t: State)
    decreases |steps|
  {
    if steps == [] then s == t else Enabled(s, steps[0]) && Runs(Next(s, steps[0]), steps[1..], t)
  }

  ghost predicate Reachable(s: State, expected: nat) {
    exists s0, steps :: Init(s0, expected) && Runs(s0, steps, s)
  }

  // The invariant.

  predicate OnList(p: WaitPhase) {
    p == Pushed || p == Suspended || p == PassedLate
  }

  predicate Notifying(p: DownPhase) {
    p.MustNotify? || p.At? || p.Leaving? || p.Notified?
  }

  function NodeAt(pushed: seq<nat>, left: nat): Option<nat>
    requires left <= |pushed|
  {
    if left == 0 then None else Some(pushed[left - 1])
  }

  /** The next_ chain from head_ is the push history backwards. */
  ghost predicate ChainInv(s: State) {
    && s.head == NodeAt(s.pushed, |s.pushed|)
    && (forall i :: 0 <= i < |s.pushed| ==> Placed(s, i))
    && (forall w :: 0 <= w < |s.awaiters| ==> Linked(s, w))
  }

  predicate Placed(s: State, i: nat)
    requires i < |s.pushed|
  {
    var w := s.pushed[i];
    w < |s.awaiters| && OnList(s.awaiters[w].phase) && s.awaiters[w].place == i
  }

  predicate Linked(s: State, w: nat)
    requires w < |s.awaiters|
  {
    var a := s.awaiters[w];
    OnList(a.phase) ==> a.place < |s.pushed| && s.pushed[a.place] == w && a.next == NodeAt(s.pushed, a.place)
  }

  ghost predicate CountInv(s: State) {
    && Outstanding(s.downers) <= s.count
    && (forall d :: 0 <= d < |s.downers| ==> s.downers[d].update >= 1)
    && (forall d :: 0 <= d < |s.downers| && Notifying(s.downers[d].phase) ==> s.count == 0)
    && (forall d, e :: 0 <= d < e < |s.downers| ==> !(Notifying(s.downers[d].phase) && Notifying(s.downers[e].phase)))
  }

  /** Of the awaiters in the push history those from `from` up to `to` have been resumed, once; no others. */
  ghost predicate ResumedFromTo(s: State, from: nat, to: nat) {
    forall w :: 0 <= w < |s.awaiters| ==>
      s.awaiters[w].resumed == if OnList(s.awaiters[w].phase) && from <= s.awaiters[w].place < to then 1 else 0
  }

  /** Nobody pushed at or after this point of the history has suspended. */
  ghost predicate NoneSuspendedFrom(s: State, from: nat) {
    forall w :: 0 <= w < |s.awaiters| && s.awaiters[w].phase == Suspended ==> s.awaiters[w].place < from
  }

  ghost predicate NotifierInv(s: State, p: DownPhase) {
    match p
    case Ready => true
    case Returned => true
    case MustNotify => ResumedFromTo(s, 0, 0)
    case At(node, left, seen) =>
      left <= seen <= |s.pushed| && node == NodeAt(s.pushed, left)
      && ResumedFromTo(s, left, seen) && NoneSuspendedFrom(s, seen)
    case Leaving(at, left, seen) =>
      left < seen <= |s.pushed| && at == s.pushed[left]
      && ResumedFromTo(s, left, seen) && NoneSuspendedFrom(s, seen)
    case Notified(seen) =>
      seen <= |s.pushed| && ResumedFromTo(s, 0, seen) && NoneSuspendedFrom(s, seen)
  }

  ghost predicate SomeNotifier(s: State) {
    exists d :: 0 <= d < |s.downers| && Notifying(s.downers[d].phase)
  }

  ghost predicate QuietInv(s: State) {
    !SomeNotifier(s) ==> ResumedFromTo(s, 0, 0) && (s.count == 0 ==> NoneSuspendedFrom(s, 0))
  }

  /** Whoever went on, went on after the count had reached zero. */
  ghost predicate PassInv(s: State) {
    forall w :: 0 <= w < |s.awaiters| && s.awaiters[w].phase in {PassedReady, PassedLate} ==> s.count == 0
  }

  ghost predicate Inv(s: State) {
    && ChainInv(s)
    && CountInv(s)
    && (forall d :: 0 <= d < |s.downers| ==> NotifierInv(s, s.downers[d].phase))
    && QuietInv(s)
    && PassInv(s)
  }

  lemma {:induction false} OutstandingUpdate(downers: seq<Downer>, d: nat, p: DownPhase)
    requires d < |downers| && p != Ready
    ensures Outstanding(downers[d := downers[d].(phase := p)])
      == Outstanding(downers) - (if downers[d].phase == Ready then downers[d].update else 0)
  {
    if d > 0 {
      OutstandingUpdate(downers[1..], d - 1, p);
      assert downers[d := downers[d].(phase := p)][1..] == downers[1..][d - 1 := downers[d].(phase := p)];
    } else {
      assert downers[0 := downers[0].(phase := p)][1..] == downers[1..];
    }
  }

  lemma {:induction false} OutstandingBounds(downers: seq<Downer>, d: nat)
    requires d < |downers| && downers[d].phase == Ready
    ensures Outstanding(downers) >= downers[d].update
  {
    if d > 0 {
      OutstandingBounds(downers[1..], d - 1);
    }
  }

  lemma InvInit(s: State, expected: nat)
    requires Init(s, expected)
    ensures Inv(s)
  {
  }

  // Every step keeps it.

  /** What the steps of awaiters have in common: no resume, and no new suspension once the count is zero. */
  ghost predicate AwaiterStep(s: State, t: State) {
    && t.downers == s.downers && t.count == s.count && |t.awaiters| == |s.awaiters|
    && |s.pushed| <= |t.pushed| && t.pushed[..|s.pushed|] == s.pushed
    && forall w :: 0 <= w < |s.awaiters| ==> AwaiterChange(s, s.awaiters[w], t.awaiters[w])
  }

  predicate AwaiterChange(s: State, a: Awaiter, b: Awaiter) {
    && b.resumed == a.resumed
    && (OnList(a.phase) ==> OnList(b.phase) && b.place == a.place)
    && (!OnList(a.phase) && OnList(b.phase) ==> b.place >= |s.pushed|)
    && (b.phase == Suspended ==> a.phase == Suspended || s.count > 0)
  }

  lemma ResumedKept(s: State, t: State, from: nat, to: nat)
    requires AwaiterStep(s, t) && ResumedFromTo(s, from, to) && to <= |s.pushed|
    ensures ResumedFromTo(t, from, to)
  {
    forall w | 0 <= w < |t.awaiters|
      ensures t.awaiters[w].resumed == if OnList(t.awaiters[w].phase) && from <= t.awaiters[w].place < to then 1 else 0
    {
      assert AwaiterChange(s, s.awaiters[w], t.awaiters[w]);
    }
  }

  lemma NoneSuspendedKept(s: State, t: State, from: nat)
    requires AwaiterStep(s, t) && NoneSuspendedFrom(s, from) && s.count == 0
    ensures NoneSuspendedFrom(t, from)
  {
    forall w | 0 <= w < |t.awaiters| && t.awaiters[w].phase == Suspended
      ensures t.awaiters[w].place < from
    {
      assert AwaiterChange(s, s.awaiters[w], t.awaiters[w]);
    }
  }

  lemma NotifierKept(s: State, t: State, p: DownPhase)
    requires AwaiterStep(s, t) && NotifierInv(s, p) && (Notifying(p) ==> s.count == 0)
    ensures NotifierInv(t, p)
  {
    hide AwaiterStep, ResumedFromTo, NoneSuspendedFrom;
    AwaiterStepPushed(s, t);
    match p
    case Ready =>
    case Returned =>
    case MustNotify => ResumedKept(s, t, 0, 0);
    case At(node, left, seen) =>
      ResumedKept(s, t, left, seen);
      NoneSuspendedKept(s, t, seen);
    case Leaving(at, left, seen) =>
      ResumedKept(s, t, left, seen);
      NoneSuspendedKept(s, t, seen);
    case Notified(seen) =>
      ResumedKept(s, t, 0, seen);
      NoneSuspendedKept(s, t, seen);
  }

  lemma AwaiterStepPushed(s: State, t: State)
    requires AwaiterStep(s, t)
    ensures |s.pushed| <= |t.pushed| && forall i :: 0 <= i < |s.pushed| ==> t.pushed[i] == s.pushed[i]
  {
  }

  lemma InvAwaiterStep(s: State, t: State)
    requires Inv(s) && AwaiterStep(s, t) && ChainInv(t) && PassInv(t)
    ensures Inv(t)
  {
    hide ChainInv, PassInv, ResumedFromTo, NoneSuspendedFrom, NotifierInv;
    forall d | 0 <= d < |t.downers|
      ensures NotifierInv(t, t.downers[d].phase)
    {
      NotifierKept(s, t, s.downers[d].phase);
    }
    if !SomeNotifier(t) {
      assert !SomeNotifier(s);
      ResumedKept(s, t, 0, 0);
      if t.count == 0 {
        NoneSuspendedKept(s, t, 0);
      }
    }
  }

  /** The chain is untouched as long as nobody is pushed and links on it stay. */
  lemma ChainKept(s: State, t: State)
    requires ChainInv(s) && t.head == s.head && t.pushed == s.pushed && |t.awaiters| == |s.awaiters|
    requires forall w :: 0 <= w < |s.awaiters| ==> SameLink(s.awaiters[w], t.awaiters[w])
    ensures ChainInv(t)
  {
    forall i | 0 <= i < |t.pushed|
      ensures Placed(t, i)
    {
      assert Placed(s, i);
      assert SameLink(s.awaiters[s.pushed[i]], t.awaiters[s.pushed[i]]);
    }
    forall w | 0 <= w < |t.awaiters|
      ensures Linked(t, w)
    {
      assert Linked(s, w) && SameLink(s.awaiters[w], t.awaiters[w]);
    }
  }

  predicate SameLink(a: Awaiter, b: Awaiter) {
    OnList(a.phase) == OnList(b.phase) && (OnList(a.phase) ==> a.next == b.next && a.place == b.place)
  }

  /** Steps of an awaiter that is not on the list and does not get there. */
  lemma InvOffList(s: State, w: nat, a: Awaiter)
    requires Inv(s) && w < |s.awaiters| && !OnList(s.awaiters[w].phase) && !OnList(a.phase)
    requires a.resumed == s.awaiters[w].resumed
    requires a.phase == PassedReady ==> s.count == 0
    ensures Inv(SetAwaiter(s, w, a))
  {
    hide CountInv, NotifierInv, QuietInv;
    var t := SetAwaiter(s, w, a);
    ChainKept(s, t);
    InvAwaiterStep(s, t);
  }

  lemma InvPush(s: State, w: nat)
    requires Inv(s) && Enabled(s, TryPush(w, false)) && s.head == s.awaiters[w].next
    ensures Inv(Next(s, TryPush(w, false)))
  {
    hide CountInv, NotifierInv, QuietInv;
    var t := Next(s, TryPush(w, false));
    forall i | 0 <= i < |t.pushed|
      ensures Placed(t, i)
    {
      assert i < |s.pushed| ==> Placed(s, i);
    }
    forall v | 0 <= v < |t.awaiters|
      ensures Linked(t, v)
    {
      assert Linked(s, v);
    }
    InvAwaiterStep(s, t);
  }

  lemma InvRecheck(s: State, w: nat)
    requires Inv(s) && Enabled(s, Recheck(w))
    ensures Inv(Next(s, Recheck(w)))
  {
    hide NotifierInv, QuietInv;
    var t := Next(s, Recheck(w));
    ChainKept(s, t);
    InvAwaiterStep(s, t);
  }

  lemma InvFetchSub(s: State, d: nat)
    requires Inv(s) && Enabled(s, FetchSub(d))
    ensures Inv(Next(s, FetchSub(d)))
  {
    hide ChainInv, ResumedFromTo, NoneSuspendedFrom;
    var t := Next(s, FetchSub(d));
    OutstandingBounds(s.downers, d);
    OutstandingUpdate(s.downers, d, t.downers[d].phase);
    assert !SomeNotifier(s);
    SameAwaiters(s, t);
    forall e | 0 <= e < |t.downers|
      ensures NotifierInv(t, t.downers[e].phase)
    {
      assert e != d ==> t.downers[e] == s.downers[e] && !Notifying(s.downers[e].phase);
    }
    if t.count == 0 {
      assert Notifying(t.downers[d].phase);
    }
  }

  lemma SameAwaiters(s: State, t: State)
    requires t == s.(count := t.count, downers := t.downers) && ChainInv(s)
    ensures ChainInv(t)
    ensures forall from: nat, to: nat :: ResumedFromTo(s, from, to) ==> ResumedFromTo(t, from, to)
  {
    ChainKept(s, t);
  }

  /** Steps of the one notifier: only its own phase and the resume counts change. */
  ghost predicate NotifierStep(s: State, t: State, d: nat) {
    && d < |s.downers| == |t.downers| && Notifying(s.downers[d].phase) && Notifying(t.downers[d].phase)
    && t.downers == s.downers[d := s.downers[d].(phase := t.downers[d].phase)]
    && t.count == s.count && t.head == s.head && t.pushed == s.pushed && |t.awaiters| == |s.awaiters|
    && forall w :: 0 <= w < |s.awaiters| ==> t.awaiters[w] == s.awaiters[w].(resumed := t.awaiters[w].resumed)
  }

  lemma ChainNotifier(s: State, t: State, d: nat)
    requires ChainInv(s) && PassInv(s) && NotifierStep(s, t, d)
    ensures ChainInv(t) && PassInv(t)
  {
    ChainKept(s, t);
  }

  lemma InvNotifier(s: State, t: State, d: nat)
    requires Inv(s) && NotifierStep(s, t, d) && NotifierInv(t, t.downers[d].phase)
    ensures Inv(t)
  {
    hide ChainInv, PassInv, ResumedFromTo, NoneSuspendedFrom;
    ChainNotifier(s, t, d);
    OutstandingUpdate(s.downers, d, t.downers[d].phase);
    forall e | 0 <= e < |t.downers|
      ensures NotifierInv(t, t.downers[e].phase)
    {
      assert e != d ==> t.downers[e] == s.downers[e] && !Notifying(s.downers[e].phase);
    }
    assert SomeNotifier(t);
  }

  /** Only one awaiter has place k, so one more resume there extends the resumed range by exactly it. */
  lemma ResumedOneMore(s: State, t: State, v: nat, k: nat, seen: nat)
    requires ChainInv(s) && ResumedFromTo(s, k + 1, seen)
    requires k < seen <= |s.pushed| && v == s.pushed[k] && v < |s.awaiters|
    requires t.awaiters == s.awaiters[v := s.awaiters[v].(resumed := s.awaiters[v].resumed + 1)]
    ensures ResumedFromTo(t, k, seen)
  {
    assert Placed(s, k);
    forall w | 0 <= w < |t.awaiters|
      ensures t.awaiters[w].resumed == if OnList(t.awaiters[w].phase) && k <= t.awaiters[w].place < seen then 1 else 0
    {
      assert Linked(s, w);
    }
  }

  lemma NoneSuspendedSame(s: State, t: State, from: nat)
    requires NoneSuspendedFrom(s, from) && |t.awaiters| == |s.awaiters|
    requires forall w :: 0 <= w < |s.awaiters| ==> t.awaiters[w] == s.awaiters[w].(resumed := t.awaiters[w].resumed)
    ensures NoneSuspendedFrom(t, from)
  {
  }

  lemma InvResume(s: State, d: nat)
    requires Inv(s) && Enabled(s, Resume(d))
    ensures Inv(Next(s, Resume(d)))
  {
    hide CountInv, QuietInv, PassInv, ResumedFromTo, NoneSuspendedFrom;
    var t := Next(s, Resume(d));
    var p := s.downers[d].phase;
    assert NotifierInv(s, p);
    assert Placed(s, p.left - 1);
    ResumedOneMore(s, t, p.node.value, p.left - 1, p.seen);
    NoneSuspendedSame(s, t, p.seen);
    hide ChainInv, Inv;
    InvNotifier(s, t, d);
  }

  lemma InvLoadList(s: State, d: nat)
    requires Inv(s) && Enabled(s, LoadList(d))
    ensures Inv(Next(s, LoadList(d)))
  {
    hide CountInv, QuietInv, PassInv;
    var t := Next(s, LoadList(d));
    assert NotifierInv(s, s.downers[d].phase);
    forall w | 0 <= w < |t.awaiters| && t.awaiters[w].phase == Suspended
      ensures t.awaiters[w].place < |t.pushed|
    {
      assert Linked(s, w);
    }
    InvNotifier(s, t, d);
  }

  lemma InvAdvance(s: State, d: nat)
    requires Inv(s) && Enabled(s, Advance(d))
    ensures Inv(Next(s, Advance(d)))
  {
    hide CountInv, QuietInv, PassInv;
    var p := s.downers[d].phase;
    assert NotifierInv(s, p);
    assert Placed(s, p.left) && Linked(s, p.at);
    InvNotifier(s, Next(s, Advance(d)), d);
  }

  lemma InvLeave(s: State, d: nat)
    requires Inv(s) && Enabled(s, Leave(d))
    ensures Inv(Next(s, Leave(d)))
  {
    hide ChainInv, CountInv, QuietInv, PassInv;
    assert NotifierInv(s, s.downers[d].phase);
    InvNotifier(s, Next(s, Leave(d)), d);
  }

  lemma InvStep(s: State, step: Step)
    requires Inv(s) && Enabled(s, step)
    ensures Inv(Next(s, step))
  {
    hide Inv;
    match step
    case Check(w) => InvOffList(s, w, Next(s, step).awaiters[w]);
    case LoadHead(w) => InvOffList(s, w, Next(s, step).awaiters[w]);
    case TryPush(w, spurious) =>
      if s.head == s.awaiters[w].next && !spurious {
        InvPush(s, w);
      } else {
        InvOffList(s, w, Next(s, step).awaiters[w]);
      }
    case Recheck(w) => InvRecheck(s, w);
    case FetchSub(d) => InvFetchSub(s, d);
    case LoadList(d) => InvLoadList(s, d);
    case Resume(d) => InvResume(s, d);
    case Advance(d) => InvAdvance(s, d);
    case Leave(d) => InvLeave(s, d);
  }

  lemma {:induction false} InvRuns(s: State, steps: seq<Step>, t: State)
    requires Inv(s) && Runs(s, steps, t)
    ensures Inv(t)
    decreases |steps|
  {
    hide Inv;
    if steps != [] {
      InvStep(s, steps[0]);
      InvRuns(Next(s, steps[0]), steps[1..], t);
    }
  }

  lemma InvReachable(s: State, expected: nat)
    requires Reachable(s, expected)
    ensures Inv(s)
  {
    hide Inv, Init;
    var s0, steps :| Init(s0, expected) && Runs(s0, steps, s);
    InvInit(s0, expected);
    InvRuns(s0, steps, s);
  }

  // What the invariant means for a caller.

  /** No count_down call is in the middle of notifying. */
  ghost predicate Settled(s: State) {
    forall d :: 0 <= d < |s.downers| ==>
      s.downers[d].phase.Ready? || s.downers[d].phase.Notified? || s.downers[d].phase.Returned?
  }

  /** Nobody goes on before the count has reached zero. */
  lemma NoEarlyPass(s: State, expected: nat, w: nat)
    requires Reachable(s, expected) && w < |s.awaiters|
    requires s.awaiters[w].phase in {PassedReady, PassedLate} || s.awaiters[w].resumed > 0
    ensures s.count == 0
  {
    InvReachable(s, expected);
    if s.awaiters[w].resumed > 0 {
      assert SomeNotifier(s);
    }
  }

  /** Never more than one count_down notifies. */
  lemma OneNotifier(s: State, expected: nat, d: nat, e: nat)
    requires Reachable(s, expected) && d < |s.downers| && e < |s.downers|
    requires Notifying(s.downers[d].phase) && Notifying(s.downers[e].phase)
    ensures d == e
  {
    InvReachable(s, expected);
    hide ChainInv, NotifierInv, QuietInv, PassInv;
  }

  /** No wakeup is lost: once the count is zero and notifying has ended, every awaiter that suspended has
      been resumed, exactly once. */
  lemma NoLostWakeup(s: State, expected: nat, w: nat)
    requires Reachable(s, expected) && s.count == 0 && Settled(s)
    requires w < |s.awaiters| && s.awaiters[w].phase == Suspended
    ensures s.awaiters[w].resumed == 1
  {
    InvReachable(s, expected);
    assert SomeNotifier(s);
    var d :| 0 <= d < |s.downers| && Notifying(s.downers[d].phase);
    assert NotifierInv(s, s.downers[d].phase);
  }

  // The count.

  /** What the count_down calls that have run have subtracted. */
  function Spent(downers: seq<Downer>): nat {
    if downers == [] then 0
    else (if downers[0].phase == Ready then 0 else downers[0].update) + Spent(downers[1..])
  }

  function Total(downers: seq<Downer>): nat {
    if downers == [] then 0 else downers[0].update + Total(downers[1..])
  }

  lemma {:induction false} SpentUpdate(downers: seq<Downer>, d: nat, p: DownPhase)
    requires d < |downers| && p != Ready
    ensures var later := downers[d := downers[d].(phase := p)];
      && Spent(later) == Spent(downers) + (if downers[d].phase == Ready then downers[d].update else 0)
      && Total(later) == Total(downers)
  {
    var later := downers[d := downers[d].(phase := p)];
    if d > 0 {
      SpentUpdate(downers[1..], d - 1, p);
      assert later[1..] == downers[1..][d - 1 := downers[d].(phase := p)];
    } else {
      assert later[1..] == downers[1..];
    }
  }

  /** No step but a subtraction changes the count, and that one by exactly its update. */
  lemma CountLaw(s: State, step: Step)
    requires Enabled(s, step)
    ensures Next(s, step).count + Spent(Next(s, step).downers) == s.count + Spent(s.downers)
    ensures Total(Next(s, step).downers) == Total(s.downers)
    ensures s.count - Next(s, step).count == if step.FetchSub? then s.downers[step.d].update else 0
  {
    var t := Next(s, step);
    match step
    case FetchSub(d) => SpentUpdate(s.downers, d, t.downers[d].phase);
    case LoadList(d) => SpentUpdate(s.downers, d, t.downers[d].phase);
    case Resume(d) => SpentUpdate(s.downers, d, t.downers[d].phase);
    case Advance(d) => SpentUpdate(s.downers, d, t.downers[d].phase);
    case Leave(d) => SpentUpdate(s.downers, d, t.downers[d].phase);
    case _ =>
  }

  lemma {:induction false} CountRuns(s: State, steps: seq<Step>, t: State)
    requires Runs(s, steps, t)
    ensures t.count + Spent(t.downers) == s.count + Spent(s.downers) && Total(t.downers) == Total(s.downers)
    decreases |steps|
  {
    hide Enabled, Spent, Total;
    if steps != [] {
      CountLaw(s, steps[0]);
      var u := Next(s, steps[0]);
      hide Next;
      CountRuns(u, steps[1..], t);
    }
  }

  lemma {:induction false} AllReady(downers: seq<Downer>)
    requires forall d :: 0 <= d < |downers| ==> downers[d].phase == Ready
    ensures Spent(downers) == 0
  {
    if downers != [] {
      AllReady(downers[1..]);
    }
  }

  /** In every reachable state the count is what was expected less the updates of the calls that have run. */
  lemma CountIs(s: State, expected: nat)
    requires Reachable(s, expected)
    ensures s.count == expected - Spent(s.downers)
  {
    var s0, steps :| Init(s0, expected) && Runs(s0, steps, s);
    AllReady(s0.downers);
    CountRuns(s0, steps, s);
  }

  lemma {:induction false} NoneReady(downers: seq<Downer>)
    requires forall d :: 0 <= d < |downers| ==> downers[d].phase != Ready
    ensures Spent(downers) == Total(downers)
  {
    if downers != [] {
      NoneReady(downers[1..]);
    }
  }

  /** Every count_down call has returned. */
  ghost predicate AllReturned(s: State) {
    forall d :: 0 <= d < |s.downers| ==> s.downers[d].phase.Returned? || s.downers[d].phase.Notified?
  }

  /** When all calls have returned, every awaiter that suspended has been resumed exactly once if their updates sum
      to what was expected, and nobody has been resumed if they sum to less. */
  lemma EveryoneWakes(s: State, expected: nat, w: nat)
    requires Reachable(s, expected) && AllReturned(s)
    requires w < |s.awaiters| && s.awaiters[w].phase == Suspended
    ensures s.awaiters[w].resumed == if Total(s.downers) == expected then 1 else 0
  {
    CountIs(s, expected);
    NoneReady(s.downers);
    if s.count == 0 {
      NoLostWakeup(s, expected, w);
    } else if s.awaiters[w].resumed > 0 {
      NoEarlyPass(s, expected, w);
    }
  }

  /** The looks at the count decide, both ways. */
  lemma LooksDecide(s: State, step: Step)
    requires Enabled(s, step)
    ensures step.Check? ==> (Next(s, step).awaiters[step.w].phase == PassedReady <==> s.count == 0)
    ensures step.Recheck? ==> (Next(s, step).awaiters[step.w].phase == Suspended <==> s.count != 0)
    ensures step.FetchSub? ==> (Notifying(Next(s, step).downers[step.d].phase) <==> Next(s, step).count == 0)
  {
  }

  // A wait ends.

  /** How many steps of its own a wait still takes when nobody interferes. */
  function WaitRank(s: State, w: nat): nat
    requires w < |s.awaiters|
  {
    match s.awaiters[w].phase
    case Fresh => 4
    case Checked => 3
    case Trying => if s.head == s.awaiters[w].next then 2 else 3
    case Pushed => 1
    case _ => 0
  }

  predicate WaitStepOf(step: Step, w: nat) {
    match step
    case Check(v) => v == w
    case LoadHead(v) => v == w
    case TryPush(v, _) => v == w
    case Recheck(v) => v == w
    case _ => false
  }

  /** Each step of a wait brings it nearer to its end, unless the exchange fails spuriously: a failed exchange
      has reloaded the head, so that the next one succeeds if nobody has pushed in between. */
  lemma WaitRankDrops(s: State, step: Step, w: nat)
    requires w < |s.awaiters| && Enabled(s, step) && WaitStepOf(step, w)
    ensures !(step.TryPush? && step.spurious) ==> WaitRank(Next(s, step), w) < WaitRank(s, w)
    ensures step.TryPush? && step.spurious ==> WaitRank(Next(s, step), w) == 2
  {
  }

  /** Until it has suspended or gone on, a wait can always take its next step. */
  lemma WaitNeverStuck(s: State, w: nat) returns (step: Step)
    requires w < |s.awaiters| && s.awaiters[w].phase !in {Suspended, PassedReady, PassedLate}
    ensures Enabled(s, step) && WaitStepOf(step, w)
  {
    match s.awaiters[w].phase
    case Fresh => step := Check(w);
    case Checked => step := LoadHead(w);
    case Trying => step := TryPush(w, false);
    case Pushed => step := Recheck(w);
  }

  /** At any time nobody has been resumed twice. */
  lemma AtMostOneResume(s: State, expected: nat, w: nat)
    requires Reachable(s, expected) && w < |s.awaiters|
    ensures s.awaiters[w].resumed <= 1
  {
    InvReachable(s, expected);
    if SomeNotifier(s) {
      var d :| 0 <= d < |s.downers| && Notifying(s.downers[d].phase);
      assert NotifierInv(s, s.downers[d].phase);
    }
  }

  /** How often the coroutine behind an awaiter has gone on: by itself, and by being resumed. */
  function WentOn(a: Awaiter): nat {
    a.resumed + if a.phase in {PassedReady, PassedLate} then 1 else 0
  }

  /** At the end every awaiter has gone on once, except for those that saw zero in their second look although
      they were pushed before the notifier loaded the list: these go on twice. */
  lemma WentOnOnceIff(s: State, expected: nat, w: nat, d: nat)
    requires Reachable(s, expected) && d < |s.downers| && s.downers[d].phase.Notified?
    requires w < |s.awaiters| && s.awaiters[w].phase in {PassedReady, PassedLate, Suspended}
    ensures WentOn(s.awaiters[w]) == 1
      <==> !(s.awaiters[w].phase == PassedLate && s.awaiters[w].place < s.downers[d].phase.seen)
    ensures 1 <= WentOn(s.awaiters[w]) <= 2
  {
    InvReachable(s, expected);
    assert NotifierInv(s, s.downers[d].phase);
  }

  lemma {:induction false} RunsOneMore(s: State, steps: seq<Step>, t: State, step: Step)
    requires Runs(s, steps, t) && Enabled(t, step)
    ensures Runs(s, steps + [step], Next(t, step))
    decreases |steps|
  {
    hide Next, Enabled;
    if steps == [] {
      assert ([step])[1..] == [];
      assert Runs(Next(s, step), [], Next(s, step));
    } else {
      RunsOneMore(Next(s, steps[0]), steps[1..], t, step);
      assert (steps + [step])[1..] == steps[1..] + [step];
    }
  }

  lemma ReachableStep(s: State, expected: nat, step: Step)
    requires Reachable(s, expected) && Enabled(s, step)
    ensures Reachable(Next(s, step), expected)
  {
    hide Next, Enabled, Init, Runs;
    var s0, steps :| Init(s0, expected) && Runs(s0, steps, s);
    RunsOneMore(s0, steps, s, step);
  }

  lemma ReachableInit(s: State, expected: nat)
    requires Init(s, expected)
    ensures Reachable(s, expected)
  {
    hide Init;
    assert Runs(s, [], s);
  }

  /** That does happen: one awaiter, one count_down(1), pushed before and looking again after the subtraction. */
  lemma TwiceIsPossible() returns (s: State)
    ensures Reachable(s, 1) && |s.awaiters| == 1 && WentOn(s.awaiters[0]) == 2
  {
    hide Reachable;
    s := State(1, None, [Awaiter(Fresh, None, 0, 0)], [Downer(1, Ready)], []);
    assert Outstanding(s.downers) == 1 + Outstanding([]);
    ReachableInit(s, 1);
    s := After(s, Check(0));
    s := After(s, LoadHead(0));
    s := After(s, TryPush(0, false));
    s := After(s, FetchSub(0));
    s := After(s, Recheck(0));
    s := After(s, LoadList(0));
    s := After(s, Resume(0));
  }

  lemma After(s: State, step: Step) returns (t: State)
    requires Reachable(s, 1) && Enabled(s, step)
    ensures t == Next(s, step) && Reachable(t, 1)
  {
    t := Next(s, step);
    ReachableStep(s, 1, step);
  }

  // Notifying ends.

  /** How many steps of its own a count_down call may still take. */
  function Rank(s: State, d: nat): nat
    requires d < |s.downers|
  {
    match s.downers[d].phase
    case Ready => 2 * |s.awaiters| + 3
    case MustNotify => 2 * |s.awaiters| + 2
    case At(_, left, _) => 2 * left + 1
    case Leaving(_, left, _) => 2 * left + 2
    case _ => 0
  }

  predicate StepOf(step: Step, d: nat) {
    match step
    case FetchSub(e) => d == e
    case LoadList(e) => d == e
    case Resume(e) => d == e
    case Advance(e) => d == e
    case Leave(e) => d == e
    case _ => false
  }

  function UpTo(n: nat): (all: set<nat>)
    ensures forall x: nat :: x in all <==> x < n
    ensures |all| == n
  {
    if n == 0 then {} else UpTo(n - 1) + {n - 1}
  }

  /** The list is never longer than there are awaiters. */
  lemma ListBound(s: State)
    requires ChainInv(s)
    ensures |s.pushed| <= |s.awaiters|
  {
    PlacesCount(s, |s.pushed|);
    var places := set i | 0 <= i < |s.pushed| :: s.pushed[i];
    forall i | 0 <= i < |s.pushed|
      ensures s.pushed[i] in UpTo(|s.awaiters|)
    {
      assert Placed(s, i);
    }
    SubsetSize(places, UpTo(|s.awaiters|));
  }

  lemma {:induction false} SubsetSize(a: set<nat>, b: set<nat>)
    requires a <= b
    ensures |a| <= |b|
  {
    if a != {} {
      var x :| x in a;
      SubsetSize(a - {x}, b - {x});
    }
  }

  lemma {:induction false} PlacesCount(s: State, k: nat)
    requires ChainInv(s) && k <= |s.pushed|
    ensures |set i | 0 <= i < k :: s.pushed[i]| == k
  {
    if k > 0 {
      PlacesCount(s, k - 1);
      var before := set i | 0 <= i < k - 1 :: s.pushed[i];
      assert s.pushed[k - 1] !in before by {
        assert Placed(s, k - 1);
        forall i | 0 <= i < k - 1
          ensures s.pushed[i] != s.pushed[k - 1]
        {
          assert Placed(s, i);
        }
      }
      assert (set i | 0 <= i < k :: s.pushed[i]) == before + {s.pushed[k - 1]};
    }
  }

  /** Every step of a count_down call lowers its rank, no step of anybody else raises it. */
  lemma RankDrops(s: State, step: Step, d: nat)
    requires Inv(s) && Enabled(s, step) && d < |s.downers|
    ensures StepOf(step, d) ==> Rank(Next(s, step), d) < Rank(s, d)
    ensures !StepOf(step, d) ==> Rank(Next(s, step), d) == Rank(s, d)
  {
    hide CountInv, QuietInv, PassInv, ResumedFromTo, NoneSuspendedFrom;
    assert NotifierInv(s, s.downers[d].phase);
    ListBound(s);
  }

  function OwnSteps(steps: seq<Step>, d: nat): nat {
    if steps == [] then 0 else (if StepOf(steps[0], d) then 1 else 0) + OwnSteps(steps[1..], d)
  }

  /** A count_down call takes at most two steps for every awaiter, and three more, in any run. */
  lemma {:induction false} NotifyingEnds(s: State, steps: seq<Step>, t: State, d: nat)
    requires Inv(s) && Runs(s, steps, t) && d < |s.downers|
    ensures |t.downers| == |s.downers| && OwnSteps(steps, d) + Rank(t, d) <= Rank(s, d)
    decreases |steps|
  {
    hide Inv, Rank;
    if steps != [] {
      var u := Next(s, steps[0]);
      InvStep(s, steps[0]);
      RankDrops(s, steps[0], d);
      NotifyingEnds(u, steps[1..], t, d);
    }
  }

  /** And it is never stuck: until it has returned, its next step is enabled. */
  lemma NeverStuck(s: State, d: nat) returns (step: Step)
    requires Inv(s) && d < |s.downers| && !s.downers[d].phase.Notified? && !s.downers[d].phase.Returned?
    ensures Enabled(s, step) && StepOf(step, d)
  {
    hide CountInv, QuietInv, PassInv, ResumedFromTo, NoneSuspendedFrom;
    assert NotifierInv(s, s.downers[d].phase);
    match s.downers[d].phase
    case Ready => step := FetchSub(d);
    case MustNotify => step := LoadList(d);
    case At(node, left, _) =>
      if node.None? {
        step := Leave(d);
      } else {
        assert Placed(s, left - 1);
        step := Resume(d);
      }
    case Leaving(at, left, _) =>
      assert Placed(s, left);
      step := Advance(d);
  }
}
