/** uvio/sync/latch.hpp on one event loop: the ready check, the push and the second look of a wait run
    without interruption, and so does everything that a resume runs. */
module LatchLoop {

  class LatchAwaiter {
    const id: nat
    var next: LatchAwaiter?

    constructor (id: nat)
      ensures this.id == id && next == null
    {
      this.id := id;
      next := null;
    }
  }

  function Backwards<T>(s: seq<T>): (r: seq<T>)
    ensures |r| == |s|
    ensures forall i :: 0 <= i < |s| ==> r[i] == s[|s| - 1 - i]
  {
    seq(|s|, i requires 0 <= i < |s| => s[|s| - 1 - i])
  }

  class Latch {
    var expected: int
    var head: LatchAwaiter?
    ghost var pushed: seq<LatchAwaiter>   // every awaiter ever pushed, oldest first
    ghost var resumed: seq<LatchAwaiter>  // every resume, in order
    ghost var allowed: nat                // what future count_down calls may still subtract in all

    /** The next_ chain from head_ is the push history backwards, without repetition. */
    ghost predicate Chained()
      reads this, pushed
    {
      && head == (if pushed == [] then null else pushed[|pushed| - 1])
      && (forall i {:trigger pushed[i].next} :: 0 <= i < |pushed| ==>
            pushed[i].next == if i == 0 then null else pushed[i - 1])
      && (forall i, j :: 0 <= i < j < |pushed| ==> pushed[i] != pushed[j])
    }

    ghost predicate Valid()
      reads this, pushed
      ensures Valid() ==> allowed <= expected
    {
      && Chained()
      && 0 <= allowed <= expected
      && resumed == if expected == 0 then Backwards(pushed) else []
    }

    constructor (expected: nat, ghost allowed: nat)
      requires allowed <= expected
      ensures Valid() && this.expected == expected && pushed == [] && this.allowed == allowed
    {
      this.expected := expected;
      head := null;
      this.pushed, this.resumed, this.allowed := [], [], allowed;
    }

    predicate TryWait()
      reads this
    {
      expected == 0
    }

    /** co_await wait(): whether the caller was suspended. Every wait makes a new awaiter. A resumed
        coroutine may get here while the list is still being walked, when only `Chained` holds. */
    method Wait(a: LatchAwaiter) returns (suspends: bool)
      requires Chained() && a !in pushed
      modifies this`head, this`pushed, a
      ensures Chained()
      ensures suspends <==> expected != 0
      ensures pushed == if suspends then old(pushed) + [a] else old(pushed)
    {
      if TryWait() {
        return false;
      }
      a.next := head;
      var fails :| fails >= 0;
      while head != a.next || fails > 0
        invariant a.next == head && Chained() && pushed == old(pushed)
        decreases fails
      {
        a.next := head;
        fails := fails - 1;
      }
      head := a;
      pushed := pushed + [a];
      return !TryWait();
    }

    /** Whether this call was the one that notified. */
    method CountDown(update: nat) returns (notifies: bool)
      requires Valid() && 1 <= update <= allowed
      modifies this
      ensures Valid() && expected == old(expected) - update && allowed == old(allowed) - update
      ensures notifies <==> expected == 0
      ensures pushed == old(pushed)
    {
      var odd := expected;
      expected := expected - update;
      allowed := allowed - update;
      if odd == update {
        NotifyAll();
        return true;
      }
      return false;
    }

    /** Newest first, every suspended waiter once. */
    method NotifyAll()
      requires Chained() && expected == 0 && resumed == []
      modifies this`head, this`pushed, this`resumed
      ensures Chained() && pushed == old(pushed)
      ensures resumed == Backwards(pushed)
    {
      var node := head;
      ghost var k := |pushed|;
      while node != null
        invariant 0 <= k <= |pushed| && node == (if k == 0 then null else pushed[k - 1])
        invariant Chained() && pushed == old(pushed)
        invariant resumed == Backwards(pushed[k..])
        decreases k
      {
        assert pushed[k - 1..] == [pushed[k - 1]] + pushed[k..];
        resumed := resumed + [node];
        ResumedCode();
        node := node.next;
        k := k - 1;
      }
      assert pushed[0..] == pushed;
    }

    /** What a resumed coroutine may do with the latch before control comes back: wait on it again, any
        number of times. The total bound leaves it nothing to count down. */
    method ResumedCode()
      requires Chained() && expected == 0
      modifies this`head, this`pushed
      ensures Chained() && pushed == old(pushed)
    {
      var waits :| waits >= 0;
      for i := 0 to waits
        invariant Chained() && pushed == old(pushed)
      {
        var again := new LatchAwaiter(i);
        var _ := Wait(again);
      }
    }
  }

  // Whole runs on one loop.

  datatype Op = Wait | Down(update: nat)

  function Total(ops: seq<Op>): nat {
    if ops == [] then 0 else (if ops[0].Down? then ops[0].update else 0) + Total(ops[1..])
  }

  predicate AllPositive(ops: seq<Op>) {
    ops == [] || ((ops[0].Down? ==> ops[0].update >= 1) && AllPositive(ops[1..]))
  }

  /** The waits that come before the count has gone down to zero, numbered from i on. */
  function Early(ops: seq<Op>, i: nat, count: int): seq<nat> {
    if ops == [] then []
    else match ops[0]
      case Wait => (if count != 0 then [i] else []) + Early(ops[1..], i + 1, count)
      case Down(u) => Early(ops[1..], i + 1, count - u)
  }

  lemma RunStep(ops: seq<Op>, i: nat, count: int)
    requires ops != [] && AllPositive(ops)
    ensures AllPositive(ops[1..])
    ensures var update := if ops[0].Down? then ops[0].update else 0;
      && (ops[0].Down? ==> update >= 1)
      && Total(ops) == update + Total(ops[1..])
      && Early(ops, i, count)
           == (if ops[0].Wait? && count != 0 then [i] else []) + Early(ops[1..], i + 1, count - update)
  {
  }

  ghost function Ids(s: seq<LatchAwaiter>): (r: seq<nat>)
    ensures |r| == |s|
  {
    seq(|s|, i requires 0 <= i < |s| => s[i].id)
  }

  lemma IdsAppend(s: seq<LatchAwaiter>, a: LatchAwaiter)
    ensures Ids(s + [a]) == Ids(s) + [a.id]
  {
  }

  lemma IdsBackwards(s: seq<LatchAwaiter>)
    ensures Ids(Backwards(s)) == Backwards(Ids(s))
  {
  }

  /** One operation of a run, the index of a wait being the name of its awaiter. */
  method Perform(latch: Latch, op: Op, i: nat) returns (suspends: bool, notifies: bool)
    requires latch.Valid() && (op.Down? ==> 1 <= op.update <= latch.allowed)
    modifies latch
    ensures latch.Valid()
    ensures latch.expected == old(latch.expected) - (if op.Down? then op.update else 0)
    ensures latch.allowed == old(latch.allowed) - (if op.Down? then op.update else 0)
    ensures suspends <==> op.Wait? && old(latch.expected) != 0
    ensures notifies <==> old(latch.expected) > 0 && latch.expected == 0
    ensures old(latch.expected) == 0 ==> latch.expected == 0
    ensures Ids(latch.pushed) == Ids(old(latch.pushed)) + if suspends then [i] else []
  {
    match op {
      case Wait =>
        var a := new LatchAwaiter(i);
        suspends := latch.Wait(a);
        notifies := false;
        IdsAppend(old(latch.pushed), a);
      case Down(update) =>
        notifies := latch.CountDown(update);
        suspends := false;
    }
  }

  method RunFrom(latch: Latch, ops: seq<Op>, i: nat) returns (suspended: seq<nat>, notifications: nat)
    requires latch.Valid() && latch.allowed == Total(ops)
    requires AllPositive(ops)
    modifies latch
    ensures latch.Valid()
    ensures suspended == Early(ops, i, old(latch.expected))
    ensures Ids(latch.pushed) == Ids(old(latch.pushed)) + suspended
    ensures latch.expected == old(latch.expected) - Total(ops)
    ensures notifications == if old(latch.expected) > 0 && latch.expected == 0 then 1 else 0
    decreases |ops|
  {
    hide Latch.Valid, Latch.Chained, Ids;
    if ops == [] {
      return [], 0;
    }
    RunStep(ops, i, latch.expected);
    hide Total, Early, AllPositive;
    ghost var before := Ids(latch.pushed);
    var suspends, notifies := Perform(latch, ops[0], i);
    var first := if suspends then [i] else [];
    suspended, notifications := RunFrom(latch, ops[1..], i + 1);
    assert before + (first + suspended) == (before + first) + suspended;
    suspended := first + suspended;
    notifications := notifications + if notifies then 1 else 0;
  }

  /** Any waits and count_downs by anyone, the count_downs of at least one and of at most `expected` in all:
      a wait suspends exactly when it comes before the count is zero; nobody is resumed unless the count
      reaches zero, and then all that suspended are, once each, the newest first, by one count_down. */
  method Run(expected: nat, ops: seq<Op>) returns (suspended: seq<nat>, ghost woken: seq<nat>, notifications: nat)
    requires AllPositive(ops)
    requires Total(ops) <= expected
    ensures suspended == Early(ops, 0, expected)
    ensures woken == if Total(ops) == expected then Backwards(suspended) else []
    ensures notifications == if Total(ops) == expected && expected > 0 then 1 else 0
  {
    var latch := new Latch(expected, Total(ops));
    suspended, notifications := RunFrom(latch, ops, 0);
    IdsBackwards(latch.pushed);
    woken := Ids(latch.resumed);
  }
}
