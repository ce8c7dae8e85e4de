/**
 * The notification list (plugin/SystemServicesImplementation.cpp): Register, Unregister and the
 * dispatch loop, with the references held on the observers. Every operation runs under _adminLock.
 */
module Observers {

  type Observer = nat

  /** The list, the references held through it, and the calls made so far, in order. */
  datatype Registry = Registry(listed: seq<Observer>, held: map<Observer, nat>, calls: seq<(Observer, int)>)

  const EMPTY := Registry([], map[], [])

  ghost predicate Distinct(s: seq<Observer>) {
    forall i, j :: 0 <= i < j < |s| ==> s[i] != s[j]
  }

  function References(r: Registry, o: Observer): nat {
    if o in r.held then r.held[o] else 0
  }

  /** One reference for each listed observer and none for the others. */
  ghost predicate Balanced(r: Registry) {
    && Distinct(r.listed)
    && forall o: Observer :: References(r, o) == if o in r.listed then 1 else 0
  }

  function Without(s: seq<Observer>, o: Observer): seq<Observer> {
    if s == [] then []
    else if s[0] == o then s[1..]
    else [s[0]] + Without(s[1..], o)
  }

  ghost function CallsTo(listed: seq<Observer>, event: int): (calls: seq<(Observer, int)>)
    ensures |calls| == |listed|
    ensures forall i :: 0 <= i < |listed| ==> calls[i] == (listed[i], event)
  {
    seq(|listed|, i requires 0 <= i < |listed| => (listed[i], event))
  }

  ghost function AfterRegister(r: Registry, o: Observer): Registry {
    if o in r.listed then r
    else r.(listed := r.listed + [o], held := r.held[o := References(r, o) + 1])
  }

  ghost function AfterUnregister(r: Registry, o: Observer): Registry {
    if o !in r.listed then r
    else r.(listed := Without(r.listed, o),
            held := r.held[o := if References(r, o) > 0 then References(r, o) - 1 else 0])
  }

  lemma {:induction false} WithoutAt(s: seq<Observer>, o: Observer, i: nat)
    requires i < |s| && s[i] == o && o !in s[..i]
    ensures Without(s, o) == s[..i] + s[i + 1..]
  {
    if s[0] != o {
      assert s[..i][1..] == s[1..][..i - 1];
      assert forall x :: x in s[1..][..i - 1] ==> x in s[..i];
      WithoutAt(s[1..], o, i - 1);
    }
  }

  // ---------------------------------------------------------------------------------------------
  // Runs
  // ---------------------------------------------------------------------------------------------

  datatype Op = Add(o: Observer) | Remove(o: Observer) | Notify(event: int)

  ghost function Apply(r: Registry, op: Op): Registry {
    match op
    case Add(o) => AfterRegister(r, o)
    case Remove(o) => AfterUnregister(r, o)
    case Notify(event) => r.(calls := r.calls + CallsTo(r.listed, event))
  }

  ghost function Run(ops: seq<Op>): Registry
    decreases |ops|
  {
    if ops == [] then EMPTY else Apply(Run(ops[..|ops| - 1]), ops[|ops| - 1])
  }

  lemma {:induction false} FirstPosition(s: seq<Observer>, o: Observer)
    requires o in s
    ensures exists i :: 0 <= i < |s| && s[i] == o && o !in s[..i]
  {
    if s[0] == o {
      assert o !in s[..0];
    } else {
      FirstPosition(s[1..], o);
      var i :| 0 <= i < |s[1..]| && s[1..][i] == o && o !in s[1..][..i];
      assert s[..i + 1] == [s[0]] + s[1..][..i];
      assert s[i + 1] == o && o !in s[..i + 1];
    }
  }

  ghost predicate Increasing(s: seq<Observer>, rank: Observer -> nat) {
    forall a, b :: 0 <= a < b < |s| ==> rank(s[a]) < rank(s[b])
  }

  /** t is s without its i-th element. */
  ghost predicate IsCut(s: seq<Observer>, i: nat, t: seq<Observer>) {
    && i < |s| == |t| + 1
    && (forall k :: 0 <= k < i ==> t[k] == s[k])
    && (forall k :: i < k < |s| ==> t[k - 1] == s[k])
  }

  lemma CutDistinct(s: seq<Observer>, i: nat, t: seq<Observer>)
    requires IsCut(s, i, t) && Distinct(s)
    ensures Distinct(t)
  {
    forall a, b | 0 <= a < b < |t| ensures t[a] != t[b] {
      var a', b' := if a < i then a else a + 1, if b < i then b else b + 1;
      assert t[a] == s[a'] && t[b] == s[b'];
    }
  }

  lemma CutMembers(s: seq<Observer>, i: nat, t: seq<Observer>, x: Observer)
    requires IsCut(s, i, t) && Distinct(s)
    ensures x in t <==> x in s && x != s[i]
  {
    if x in s && x != s[i] {
      var k :| 0 <= k < |s| && s[k] == x;
      assert t[if k < i then k else k - 1] == x;
    }
    if x in t {
      var k :| 0 <= k < |t| && t[k] == x;
      assert s[if k < i then k else k + 1] == x;
    }
  }

  lemma CutIncreasing(s: seq<Observer>, i: nat, t: seq<Observer>, rank: Observer -> nat)
    requires IsCut(s, i, t) && Increasing(s, rank)
    ensures Increasing(t, rank)
  {
    forall a, b | 0 <= a < b < |t| ensures rank(t[a]) < rank(t[b]) {
      var a', b' := if a < i then a else a + 1, if b < i then b else b + 1;
      assert t[a] == s[a'] && t[b] == s[b'];
    }
  }

  lemma WithoutIsCut(s: seq<Observer>, o: Observer)
    requires o in s
    ensures exists i: nat :: IsCut(s, i, Without(s, o)) && s[i] == o
  {
    FirstPosition(s, o);
    var i :| 0 <= i < |s| && s[i] == o && o !in s[..i];
    WithoutAt(s, o, i);
    assert IsCut(s, i, Without(s, o));
  }

  lemma WithoutMembers(s: seq<Observer>, o: Observer)
    requires Distinct(s) && o in s
    ensures Distinct(Without(s, o))
    ensures forall x :: x in Without(s, o) <==> x in s && x != o
  {
    WithoutIsCut(s, o);
    var i: nat :| IsCut(s, i, Without(s, o)) && s[i] == o;
    CutDistinct(s, i, Without(s, o));
    forall x {
      CutMembers(s, i, Without(s, o), x);
    }
  }

  lemma ApplyKeepsBalanced(r: Registry, op: Op)
    requires Balanced(r)
    ensures Balanced(Apply(r, op))
  {
    if op.Remove? && op.o in r.listed {
      WithoutMembers(r.listed, op.o);
    }
  }

  lemma {:induction false} RunsStayBalanced(ops: seq<Op>)
    ensures Balanced(Run(ops))
    decreases |ops|
  {
    if ops != [] {
      RunsStayBalanced(ops[..|ops| - 1]);
      ApplyKeepsBalanced(Run(ops[..|ops| - 1]), ops[|ops| - 1]);
    }
  }

  /** The position of the registration that a listed observer owes its place to. */
  ghost function Since(ops: seq<Op>, o: Observer): (k: nat)
    requires o in Run(ops).listed
    ensures k < |ops|
    decreases |ops|
  {
    var front := ops[..|ops| - 1];
    RunsStayBalanced(front);
    if o in Run(front).listed then Since(front, o) else |ops| - 1
  }

  /** The i-th operation registers o, and no later one removes it. */
  ghost predicate RegisteredAt(ops: seq<Op>, i: nat, o: Observer)
    requires i < |ops|
  {
    ops[i] == Add(o) && forall j :: i < j < |ops| ==> ops[j] != Remove(o)
  }

  lemma RegisteredAfterStep(front: seq<Op>, op: Op, o: Observer)
    ensures (exists i :: 0 <= i <= |front| && RegisteredAt(front + [op], i, o)) <==>
            op == Add(o) || (op != Remove(o) && exists i :: 0 <= i < |front| && RegisteredAt(front, i, o))
  {
    var ops := front + [op];
    assert ops[|front|] == op;
    forall i | 0 <= i < |front|
      ensures RegisteredAt(ops, i, o) <==> RegisteredAt(front, i, o) && op != Remove(o)
    {
      assert forall j :: 0 <= j < |front| ==> ops[j] == front[j];
    }
    assert op == Add(o) ==> RegisteredAt(ops, |front|, o);
  }

  lemma ListedAfterStep(r: Registry, op: Op, o: Observer)
    requires Balanced(r)
    ensures o in Apply(r, op).listed <==> op == Add(o) || (op != Remove(o) && o in r.listed)
  {
    if op.Remove? && op.o in r.listed {
      WithoutMembers(r.listed, op.o);
    }
  }

  /** An observer is listed exactly when some operation registered it and no later one removed it. */
  lemma {:induction false} ListedExactly(ops: seq<Op>, o: Observer)
    ensures o in Run(ops).listed <==> exists i :: 0 <= i < |ops| && RegisteredAt(ops, i, o)
    decreases |ops|
  {
    if ops != [] {
      var front, op := ops[..|ops| - 1], ops[|ops| - 1];
      assert ops == front + [op];
      ListedExactly(front, o);
      RunsStayBalanced(front);
      ListedAfterStep(Run(front), op, o);
      RegisteredAfterStep(front, op, o);
    }
  }

  lemma ListedBefore(front: seq<Op>, op: Op, o: Observer)
    requires o in Run(front + [op]).listed && o !in Run(front).listed
    ensures op == Add(o)
  {
    assert (front + [op])[..|front|] == front;
    RunsStayBalanced(front);
    if op.Remove? && op.o in Run(front).listed {
      WithoutMembers(Run(front).listed, op.o);
    }
  }

  /** That registration found o unlisted, and o was not removed afterwards. */
  lemma {:induction false} SinceIsRegistration(ops: seq<Op>, o: Observer)
    requires o in Run(ops).listed
    ensures ops[Since(ops, o)] == Add(o)
    ensures o !in Run(ops[..Since(ops, o)]).listed
    ensures forall j :: Since(ops, o) < j < |ops| ==> ops[j] != Remove(o)
    decreases |ops|
  {
    var front, op := ops[..|ops| - 1], ops[|ops| - 1];
    assert ops == front + [op];
    RunsStayBalanced(front);
    if o in Run(front).listed {
      SinceIsRegistration(front, o);
      assert ops[..Since(front, o)] == front[..Since(front, o)];
      if op == Remove(o) {
        WithoutMembers(Run(front).listed, o);
      }
    } else {
      ListedBefore(front, op, o);
    }
  }

  /** No other position fits: of the registrations after the last removal it is the first. */
  lemma SinceIsFirst(ops: seq<Op>, o: Observer, k: nat)
    requires k < |ops| && RegisteredAt(ops, k, o)
    ensures o in Run(ops).listed && Since(ops, o) <= k
    ensures Since(ops, o) == k <==> o !in Run(ops[..k]).listed
  {
    ListedExactly(ops, o);
    SinceIsRegistration(ops, o);
    var since := Since(ops, o);
    if since < k {
      assert RegisteredAt(ops[..k], since, o);
      ListedExactly(ops[..k], o);
    } else if k < since {
      assert RegisteredAt(ops[..since], k, o);
      ListedExactly(ops[..since], o);
    }
  }

  /** Since, for any observer. */
  ghost function Rank(ops: seq<Op>): Observer -> nat {
    o => if o in Run(ops).listed then Since(ops, o) else 0
  }

  lemma RankKept(ops: seq<Op>, o: Observer)
    requires ops != [] && o in Run(ops).listed && o in Run(ops[..|ops| - 1]).listed
    ensures Rank(ops)(o) == Rank(ops[..|ops| - 1])(o) < |ops| - 1
  {
  }

  lemma ListKept(ops: seq<Op>, kept: seq<Observer>)
    requires ops != [] && Increasing(kept, Rank(ops[..|ops| - 1]))
    requires forall i :: 0 <= i < |kept| ==> kept[i] in Run(ops).listed && kept[i] in Run(ops[..|ops| - 1]).listed
    ensures Increasing(kept, Rank(ops))
  {
    forall a, b | 0 <= a < b < |kept| ensures Rank(ops)(kept[a]) < Rank(ops)(kept[b]) {
      RankKept(ops, kept[a]);
      RankKept(ops, kept[b]);
    }
  }

  lemma ListExtended(ops: seq<Op>, kept: seq<Observer>, o: Observer)
    requires ops != [] && Increasing(kept, Rank(ops))
    requires forall i :: 0 <= i < |kept| ==> kept[i] in Run(ops).listed && kept[i] in Run(ops[..|ops| - 1]).listed
    requires o in Run(ops).listed && o !in Run(ops[..|ops| - 1]).listed
    ensures Increasing(kept + [o], Rank(ops))
  {
    forall i | 0 <= i < |kept| ensures Rank(ops)(kept[i]) < Rank(ops)(o) {
      RankKept(ops, kept[i]);
    }
  }

  /** The list, and with it every dispatch, is in registration order. */
  lemma {:induction false} RegistrationOrder(ops: seq<Op>)
    ensures Increasing(Run(ops).listed, Rank(ops))
    decreases |ops|
  {
    if ops != [] {
      var front, op := ops[..|ops| - 1], ops[|ops| - 1];
      var before, after := Run(front).listed, Run(ops).listed;
      RegistrationOrder(front);
      RunsStayBalanced(front);
      if op.Remove? && op.o in before {
        WithoutIsCut(before, op.o);
        var i: nat :| IsCut(before, i, after);
        CutIncreasing(before, i, after, Rank(front));
        WithoutMembers(before, op.o);
        ListKept(ops, after);
      } else {
        ListKept(ops, before);
        if op.Add? && op.o !in before {
          ListExtended(ops, before, op.o);
        }
      }
    }
  }

  // ---------------------------------------------------------------------------------------------
  // The calls
  // ---------------------------------------------------------------------------------------------

  lemma {:induction false} OneCallEach(listed: seq<Observer>, event: int, o: Observer, e: int)
    requires Distinct(listed)
    ensures multiset(CallsTo(listed, event))[(o, e)] == if e == event && o in listed then 1 else 0
    decreases |listed|
  {
    if listed != [] {
      var front, last := listed[..|listed| - 1], listed[|listed| - 1];
      assert CallsTo(listed, event) == CallsTo(front, event) + [(last, event)];
      assert listed == front + [last];
      OneCallEach(front, event, o, e);
    }
  }

  /** How many notifications of the event came while o was registered. */
  ghost function TimesNotified(ops: seq<Op>, o: Observer, event: int): nat
    decreases |ops|
  {
    if ops == [] then 0
    else
      var front, last := ops[..|ops| - 1], ops[|ops| - 1];
      TimesNotified(front, o, event) +
      if last == Notify(event) && exists i :: 0 <= i < |front| && RegisteredAt(front, i, o) then 1 else 0
  }

  /** Over all runs an observer gets each event once for each notification that came while it was registered. */
  lemma {:induction false} CalledWhileRegistered(ops: seq<Op>, o: Observer, event: int)
    ensures multiset(Run(ops).calls)[(o, event)] == TimesNotified(ops, o, event)
    decreases |ops|
  {
    if ops != [] {
      var front, last := ops[..|ops| - 1], ops[|ops| - 1];
      CalledWhileRegistered(front, o, event);
      if last.Notify? {
        RunsStayBalanced(front);
        OneCallEach(Run(front).listed, last.event, o, event);
        ListedExactly(front, o);
      }
    }
  }

  /** A notification adds its calls behind the earlier ones, in the order of registration. */
  lemma CalledInOrder(ops: seq<Op>, event: int, a: nat, b: nat)
    requires a < b < |Run(ops).listed|
    ensures var before, after := Run(ops).calls, Run(ops + [Notify(event)]).calls;
            && |after| == |before| + |Run(ops).listed| && after[..|before|] == before
            && Rank(ops)(after[|before| + a].0) < Rank(ops)(after[|before| + b].0)
  {
    assert (ops + [Notify(event)])[..|ops|] == ops;
    RegistrationOrder(ops);
  }

  // ---------------------------------------------------------------------------------------------
  // The list object
  // ---------------------------------------------------------------------------------------------

  class ObserverList {
    var listed: seq<Observer>
    var held: map<Observer, nat>
    ghost var calls: seq<(Observer, int)>

    ghost function State(): Registry
      reads this
    {
      Registry(listed, held, calls)
    }

    ghost predicate Valid()
      reads this
    {
      Balanced(State())
    }

    constructor ()
      ensures Valid() && State() == EMPTY
    {
      listed, held, calls := [], map[], [];
    }

    /** std::find: the first position of o, or the length. */
    method IndexOf(o: Observer) returns (i: nat)
      ensures i <= |listed| && o !in listed[..i]
      ensures i < |listed| ==> listed[i] == o
      ensures i < |listed| <==> o in listed
    {
      i := 0;
      while i < |listed| && listed[i] != o
        invariant i <= |listed| && o !in listed[..i]
      {
        i := i + 1;
      }
    }

    method AddRef(o: Observer)
      modifies `held
      ensures held == old(held)[o := References(old(State()), o) + 1]
    {
      held := held[o := (if o in held then held[o] else 0) + 1];
    }

    /** A reference must be held. */
    method Release(o: Observer)
      requires References(State(), o) > 0
      modifies `held
      ensures held == old(held)[o := References(old(State()), o) - 1]
    {
      held := held[o := held[o] - 1];
    }

    method Register(o: Observer)
      requires Valid()
      modifies this
      ensures Valid() && State() == AfterRegister(old(State()), o)
    {
      var i := IndexOf(o);
      if i == |listed| {
        listed := listed + [o];
        AddRef(o);
      }
    }

    method Unregister(o: Observer) returns (found: bool)
      requires Valid()
      modifies this
      ensures Valid() && State() == AfterUnregister(old(State()), o)
      ensures found <==> o in old(listed)
    {
      ApplyKeepsBalanced(State(), Remove(o));
      var i := IndexOf(o);
      if i < |listed| {
        Release(listed[i]);
        WithoutAt(listed, o, i);
        listed := listed[..i] + listed[i + 1..];
        return true;
      }
      return false;
    }

    method Dispatch(event: int)
      modifies `calls
      ensures calls == old(calls) + CallsTo(listed, event)
    {
      var index := 0;
      while index < |listed|
        invariant 0 <= index <= |listed|
        invariant calls == old(calls) + CallsTo(listed, event)[..index]
      {
        calls := calls + [(listed[index], event)];
        index := index + 1;
      }
    }
  }
}
