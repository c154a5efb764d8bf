/**
  The conference registry of mcu/mcu/Server.cpp and the reference counts of mcu/mcu/Ref.h
  as one state machine. A release is two steps, the decrement under the object's lock and
  the test for zero after it, and steps of different threads interleave freely.
 */
module Lifetimes {
  import opened Lists

  /** Ids run from 0 to D_MAX_CONF_ID. */
  const MAX_CONF_ID: nat := 1023
  const ID_RANGE: nat := MAX_CONF_ID + 1

  /**
    A conference object, remembered after its deletion too: its reference count, the handles
    given out and not yet given back, the releases between decrement and test, and how often
    its destructor ran.
   */
  datatype Conf = Conf(id: int, count: int, handles: nat, inFlight: nat, deletions: nat)

  function AddRef(c: Conf): Conf {
    c.(count := c.count + 1, handles := c.handles + 1)
  }

  /** First half of a release: the handle is given back and the count goes down. */
  function Decremented(c: Conf): Conf
    requires c.handles > 0
  {
    c.(count := c.count - 1, handles := c.handles - 1, inFlight := c.inFlight + 1)
  }

  /** Second half: the object is deleted if the count is found to be zero. */
  function Tested(c: Conf): Conf
    requires c.inFlight > 0
  {
    c.(inFlight := c.inFlight - 1, deletions := c.deletions + (if c.count == 0 then 1 else 0))
  }

  /** Objects by creation number, the live list as creation numbers, and the id counter. */
  datatype State = State(objects: seq<Conf>, listed: seq<nat>, nextId: nat)

  const START: State := State([], [], 0)

  /**
    `Unlist` is the first half of conference_destroy: the list's own reference passes to the
    destroying thread, which then releases it like any handle.
   */
  datatype Action = Create | Get(id: int) | Unlist(id: int) | Decrement(o: nat) | Test(o: nat)

  // ---------- Steps ----------

  predicate WellFormed(s: State) {
    forall i :: 0 <= i < |s.listed| ==> s.listed[i] < |s.objects|
  }

  /** Position of the first listed conference with the id; the length of the list if there is none. */
  function Position(s: State, id: int): (p: nat)
    requires WellFormed(s)
    ensures p <= |s.listed|
    ensures p < |s.listed| ==> s.objects[s.listed[p]].id == id
    ensures forall i :: 0 <= i < p ==> s.objects[s.listed[i]].id != id
  {
    PositionFrom(s, id, 0)
  }

  function PositionFrom(s: State, id: int, i: nat): (p: nat)
    requires WellFormed(s) && i <= |s.listed|
    ensures i <= p <= |s.listed|
    ensures p < |s.listed| ==> s.objects[s.listed[p]].id == id
    ensures forall j :: i <= j < p ==> s.objects[s.listed[j]].id != id
    decreases |s.listed| - i
  {
    if i == |s.listed| || s.objects[s.listed[i]].id == id then i else PositionFrom(s, id, i + 1)
  }

  predicate Found(s: State, id: int)
    requires WellFormed(s)
  {
    Position(s, id) < |s.listed|
  }

  /** The conference a lookup by id lands on. */
  function Lookup(s: State, id: int): (o: nat)
    requires WellFormed(s) && Found(s, id)
    ensures o < |s.objects| && o in s.listed
  {
    s.listed[Position(s, id)]
  }

  predicate Enabled(s: State, a: Action) {
    match a
    case Decrement(o) => o < |s.objects| && s.objects[o].handles > 0
    case Test(o) => o < |s.objects| && s.objects[o].inFlight > 0
    case _ => true
  }

  function Apply(s: State, a: Action): State
    requires WellFormed(s) && Enabled(s, a)
  {
    match a
    case Create =>
      State(s.objects + [Conf(s.nextId, 1, 0, 0, 0)], s.listed + [|s.objects|], (s.nextId + 1) % ID_RANGE)
    case Get(id) =>
      if !Found(s, id) then s else
      var o := Lookup(s, id);
      s.(objects := s.objects[o := AddRef(s.objects[o])])
    case Unlist(id) =>
      if !Found(s, id) then s else
      var o := Lookup(s, id);
      var c := s.objects[o];
      s.(objects := s.objects[o := c.(handles := c.handles + 1)], listed := WithoutAt(s.listed, Position(s, id)))
    case Decrement(o) => s.(objects := s.objects[o := Decremented(s.objects[o])])
    case Test(o) => s.(objects := s.objects[o := Tested(s.objects[o])])
  }

  /** The objects a step reads or writes have not been deleted. */
  predicate Accesses(s: State, a: Action)
    requires WellFormed(s) && Enabled(s, a)
  {
    match a
    case Create => true
    case Get(_) => forall i :: 0 <= i < |s.listed| ==> s.objects[s.listed[i]].deletions == 0
    case Unlist(_) => forall i :: 0 <= i < |s.listed| ==> s.objects[s.listed[i]].deletions == 0
    case Decrement(o) => s.objects[o].deletions == 0
    case Test(o) => s.objects[o].deletions == 0
  }

  /** A decrement to zero while another release of the same object still has its test ahead. */
  predicate Overlap(s: State, a: Action) {
    a.Decrement? && a.o < |s.objects| && s.objects[a.o].count == 1 && s.objects[a.o].inFlight > 0
  }

  // ---------- Runs ----------

  /** Every step of the run is enabled where it happens. */
  ghost predicate ValidRun(s: State, run: seq<Action>)
    decreases |run|
  {
    run != [] ==> WellFormed(s) && Enabled(s, run[0]) && ValidRun(Apply(s, run[0]), run[1..])
  }

  ghost function After(s: State, run: seq<Action>): State
    requires ValidRun(s, run)
    decreases |run|
  {
    if run == [] then s else After(Apply(s, run[0]), run[1..])
  }

  ghost predicate NoOverlap(s: State, run: seq<Action>)
    requires ValidRun(s, run)
    decreases |run|
  {
    run != [] ==> !Overlap(s, run[0]) && NoOverlap(Apply(s, run[0]), run[1..])
  }

  /** No step of the run touches a deleted object. */
  ghost predicate NoDangling(s: State, run: seq<Action>)
    requires ValidRun(s, run)
    decreases |run|
  {
    run != [] ==> Accesses(s, run[0]) && NoDangling(Apply(s, run[0]), run[1..])
  }

  // ---------- The invariant ----------

  /** The live list is in creation order. */
  predicate InOrder(listed: seq<nat>) {
    forall i, j :: 0 <= i < j < |listed| ==> listed[i] < listed[j]
  }

  /** Conservation of references, and deletion exactly when none is left and no test is pending. */
  predicate Conserved(c: Conf, isListed: bool) {
    && c.count == (if isListed then 1 else 0) + c.handles
    && (c.count == 0 ==> c.inFlight <= 1)
    && c.deletions == (if c.count == 0 && c.inFlight == 0 then 1 else 0)
  }

  predicate Inv(s: State) {
    && WellFormed(s)
    && InOrder(s.listed)
    && s.nextId == |s.objects| % ID_RANGE
    && (forall k :: 0 <= k < |s.objects| ==> s.objects[k].id == k % ID_RANGE)
    && (forall k :: 0 <= k < |s.objects| ==> Conserved(s.objects[k], k in s.listed))
  }

  lemma WithoutAtMembers(list: seq<nat>, p: nat)
    requires p < |list| && InOrder(list)
    ensures InOrder(WithoutAt(list, p))
    ensures forall x :: x in WithoutAt(list, p) <==> x in list && x != list[p]
  {
    WithoutAtOfDistinct(list, p);
  }

  lemma UpdateKeepsInv(s: State, o: nat, c: Conf)
    requires Inv(s) && o < |s.objects| && c.id == s.objects[o].id && Conserved(c, o in s.listed)
    ensures Inv(s.(objects := s.objects[o := c]))
  {
  }

  lemma NextIdStep(n: nat)
    ensures (n % ID_RANGE + 1) % ID_RANGE == (n + 1) % ID_RANGE
  {
  }

  lemma CreateKeepsInv(s: State)
    requires Inv(s)
    ensures Inv(Apply(s, Create))
  {
    hide Conserved;
    var s', n := Apply(s, Create), |s.objects|;
    NextIdStep(n);
    FreshConserved(s.nextId);
    forall k | 0 <= k < |s'.objects|
      ensures s'.objects[k].id == k % ID_RANGE && Conserved(s'.objects[k], k in s'.listed)
    {
      if k == n {
        assert s'.listed[|s.listed|] == k;
      } else {
        assert s'.objects[k] == s.objects[k];
        assert k in s'.listed <==> k in s.listed;
      }
    }
  }

  lemma FreshConserved(id: int)
    ensures Conserved(Conf(id, 1, 0, 0, 0), true)
  {
  }

  lemma UnlistKeepsInv(s: State, id: int)
    requires Inv(s)
    ensures Inv(Apply(s, Unlist(id)))
  {
    hide WithoutAt;
    if Found(s, id) {
      WithoutAtMembers(s.listed, Position(s, id));
      var s' := Apply(s, Unlist(id));
      forall i | 0 <= i < |s'.listed| ensures s'.listed[i] < |s.objects| {
        assert s'.listed[i] in s'.listed;
      }
      forall k | 0 <= k < |s.objects|
        ensures s'.objects[k].id == k % ID_RANGE && Conserved(s'.objects[k], k in s'.listed)
      {
        assert s.objects[k].id == k % ID_RANGE && Conserved(s.objects[k], k in s.listed);
      }
    }
  }

  lemma StepKeepsInv(s: State, a: Action)
    requires Inv(s) && Enabled(s, a) && !Overlap(s, a)
    ensures Inv(Apply(s, a)) && Accesses(s, a)
  {
    match a
    case Create => CreateKeepsInv(s);
    case Get(id) =>
      if Found(s, id) { UpdateKeepsInv(s, Lookup(s, id), Apply(s, a).objects[Lookup(s, id)]); }
    case Unlist(id) => UnlistKeepsInv(s, id);
    case Decrement(o) => UpdateKeepsInv(s, o, Apply(s, a).objects[o]);
    case Test(o) => UpdateKeepsInv(s, o, Apply(s, a).objects[o]);
  }

  // ---------- Safety of whole runs ----------

  lemma {:induction false} RunFromInv(s: State, run: seq<Action>)
    requires Inv(s) && ValidRun(s, run) && NoOverlap(s, run)
    ensures Inv(After(s, run)) && NoDangling(s, run)
    decreases |run|
  {
    if run != [] {
      StepKeepsInv(s, run[0]);
      RunFromInv(Apply(s, run[0]), run[1..]);
    }
  }

  /**
    Over every interleaving without such an overlap: counts are conserved, no step touches a
    deleted object, and an object is deleted once, when it is neither listed nor held.
   */
  lemma RunIsSafe(run: seq<Action>)
    requires ValidRun(START, run) && NoOverlap(START, run)
    ensures NoDangling(START, run)
    ensures var s := After(START, run);
            && Inv(s)
            && (forall k :: 0 <= k < |s.objects| ==>
                  var c := s.objects[k];
                  && c.count == (if k in s.listed then 1 else 0) + c.handles
                  && c.deletions <= 1
                  && (c.deletions == 1 ==> k !in s.listed && c.handles == 0 && c.inFlight == 0)
                  && (k !in s.listed && c.handles == 0 && c.inFlight == 0 ==> c.deletions == 1))
  {
    RunFromInv(START, run);
  }

  lemma RunCons(s: State, a: Action, rest: seq<Action>)
    requires WellFormed(s) && Enabled(s, a) && ValidRun(Apply(s, a), rest)
    ensures var run := [a] + rest;
            && ValidRun(s, run) && After(s, run) == After(Apply(s, a), rest)
            && (NoOverlap(s, run) <==> !Overlap(s, a) && NoOverlap(Apply(s, a), rest))
            && (NoDangling(s, run) <==> Accesses(s, a) && NoDangling(Apply(s, a), rest))
  {
    assert ([a] + rest)[1..] == rest;
  }

  /** The overlap is the exact condition: with it, the two pending tests delete the object twice. */
  lemma OverlapDeletesTwice(s: State, o: nat)
    requires Inv(s) && Enabled(s, Decrement(o)) && Overlap(s, Decrement(o))
    ensures var run := [Decrement(o), Test(o), Test(o)];
            && ValidRun(s, run) && !NoDangling(s, run)
            && o < |After(s, run).objects| && After(s, run).objects[o].deletions == 2
  {
    var s1 := Apply(s, Decrement(o));
    var s2 := Apply(s1, Test(o));
    assert !Accesses(s2, Test(o));
    RunCons(s2, Test(o), []);
    assert [Test(o)] + [] == [Test(o)];
    RunCons(s1, Test(o), [Test(o)]);
    assert [Test(o)] + [Test(o)] == [Test(o), Test(o)];
    RunCons(s, Decrement(o), [Test(o), Test(o)]);
    assert [Decrement(o)] + [Test(o), Test(o)] == [Decrement(o), Test(o), Test(o)];
  }

  /** Such a state is reached: a handle is out, the list's reference is decremented, then the handle's, before either test. */
  lemma OverlapReachable()
    ensures var run := [Create, Get(0), Unlist(0), Decrement(0)];
            && ValidRun(START, run) && NoOverlap(START, run)
            && Inv(After(START, run)) && Enabled(After(START, run), Decrement(0))
            && Overlap(After(START, run), Decrement(0))
  {
    hide Inv, Apply;
    var s1 := OnlyObject(Conf(0, 1, 0, 0, 0), true);
    var s2 := OnlyObject(Conf(0, 2, 1, 0, 0), true);
    var s3 := OnlyObject(Conf(0, 2, 2, 0, 0), false);
    OnlyObjectSteps();
    RunCons(s3, Decrement(0), []);
    assert [Decrement(0)] + [] == [Decrement(0)];
    RunCons(s2, Unlist(0), [Decrement(0)]);
    assert [Unlist(0)] + [Decrement(0)] == [Unlist(0), Decrement(0)];
    RunCons(s1, Get(0), [Unlist(0), Decrement(0)]);
    assert [Get(0)] + [Unlist(0), Decrement(0)] == [Get(0), Unlist(0), Decrement(0)];
    RunCons(START, Create, [Get(0), Unlist(0), Decrement(0)]);
    var run := [Create, Get(0), Unlist(0), Decrement(0)];
    assert [Create] + [Get(0), Unlist(0), Decrement(0)] == run;
    StartKeepsInv(run);
  }

  function OnlyObject(c: Conf, isListed: bool): State {
    State([c], if isListed then [0] else [], 1)
  }

  lemma OnlyObjectSteps()
    ensures Apply(START, Create) == OnlyObject(Conf(0, 1, 0, 0, 0), true)
    ensures Apply(OnlyObject(Conf(0, 1, 0, 0, 0), true), Get(0)) == OnlyObject(Conf(0, 2, 1, 0, 0), true)
    ensures Apply(OnlyObject(Conf(0, 2, 1, 0, 0), true), Unlist(0)) == OnlyObject(Conf(0, 2, 2, 0, 0), false)
    ensures Apply(OnlyObject(Conf(0, 2, 2, 0, 0), false), Decrement(0)) == OnlyObject(Conf(0, 1, 1, 1, 0), false)
  {
    assert Position(OnlyObject(Conf(0, 1, 0, 0, 0), true), 0) == 0;
    assert Position(OnlyObject(Conf(0, 2, 1, 0, 0), true), 0) == 0;
  }

  lemma StartKeepsInv(run: seq<Action>)
    requires ValidRun(START, run) && NoOverlap(START, run)
    ensures Inv(After(START, run))
  {
    RunFromInv(START, run);
  }

  lemma {:induction false} TestsNeverOverlap(s: State, o: nat, n: nat)
    requires ValidRun(s, seq(n, _ => Test(o)))
    ensures NoOverlap(s, seq(n, _ => Test(o)))
    decreases n
  {
    if n > 0 {
      var run := seq(n, _ => Test(o));
      assert run[1..] == seq(n - 1, _ => Test(o));
      TestsNeverOverlap(Apply(s, run[0]), o, n - 1);
    }
  }

  /** No overlap-free continuation touches a deleted object. */
  ghost predicate SafeFrom(s: State) {
    forall run :: ValidRun(s, run) && NoOverlap(s, run) ==> NoDangling(s, run)
  }

  /** A decrement leaves every overlap-free continuation safe exactly when it is not itself an overlap. */
  lemma ReleaseSafeIff(s: State, o: nat)
    requires Inv(s) && Enabled(s, Decrement(o))
    ensures SafeFrom(Apply(s, Decrement(o))) <==> !Overlap(s, Decrement(o))
  {
    var s' := Apply(s, Decrement(o));
    if Overlap(s, Decrement(o)) {
      OverlapDeletesTwice(s, o);
      var run := [Decrement(o), Test(o), Test(o)];
      assert run[1..] == seq(2, _ => Test(o));
      TestsNeverOverlap(s', o, 2);
      assert ValidRun(s', run[1..]) && NoOverlap(s', run[1..]) && !NoDangling(s', run[1..]);
    } else {
      StepKeepsInv(s, Decrement(o));
      forall run | ValidRun(s', run) && NoOverlap(s', run) ensures NoDangling(s', run) {
        RunFromInv(s', run);
      }
    }
  }
}
