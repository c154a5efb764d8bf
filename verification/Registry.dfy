/**
  The web-service requests of mcu/mcu/WsImpl.cpp as whole runs of the lifetime machine, and
  the registry they see: a set of creation numbers from which a request by id always takes
  the oldest.
 */
module Registry {
  import opened Lifetimes
  import opened Lists

  datatype Request = AddConference | DelConference(id: int) | AddMember(id: int)

  /** What one request does, one request at a time: destroy releases the list's reference, add-member gets and releases. */
  function Steps(s: State, r: Request): seq<Action>
    requires WellFormed(s)
  {
    match r
    case AddConference => [Create]
    case DelConference(id) =>
      if Found(s, id) then [Unlist(id), Decrement(Lookup(s, id)), Test(Lookup(s, id))] else [Unlist(id)]
    case AddMember(id) =>
      if Found(s, id) then [Get(id), Decrement(Lookup(s, id)), Test(Lookup(s, id))] else [Get(id)]
  }

  // ---------- Request boundaries ----------

  /** Between requests nobody holds a handle and no release is under way. */
  predicate Boundary(s: State) {
    && Inv(s)
    && forall k :: 0 <= k < |s.objects| ==> s.objects[k].handles == 0 && s.objects[k].inFlight == 0
  }

  lemma OneStep(s: State, a: Action)
    requires WellFormed(s) && Enabled(s, a)
    ensures ValidRun(s, [a]) && After(s, [a]) == Apply(s, a) && (!Overlap(s, a) ==> NoOverlap(s, [a]))
  {
    assert [a][1..] == [];
  }

  lemma ThreeSteps(s: State, a: Action, b: Action, c: Action)
    requires Inv(s) && Enabled(s, a) && !Overlap(s, a)
    requires Enabled(Apply(s, a), b) && !Overlap(Apply(s, a), b)
    requires (StepKeepsInv(s, a); Enabled(Apply(Apply(s, a), b), c) && !Overlap(Apply(Apply(s, a), b), c))
    ensures ValidRun(s, [a, b, c]) && NoOverlap(s, [a, b, c])
    ensures (StepKeepsInv(s, a); StepKeepsInv(Apply(s, a), b);
             After(s, [a, b, c]) == Apply(Apply(Apply(s, a), b), c))
  {
    StepKeepsInv(s, a);
    StepKeepsInv(Apply(s, a), b);
    var s2 := Apply(Apply(s, a), b);
    OneStep(s2, c);
    RunCons(Apply(s, a), b, [c]);
    assert [b] + [c] == [b, c];
    RunCons(s, a, [b, c]);
    assert [a] + [b, c] == [a, b, c];
  }

  /** The combined effect: only a deletion that finds its conference changes an object, and deletes it. */
  function Outcome(s: State, r: Request): State
    requires WellFormed(s)
  {
    match r
    case AddConference => Apply(s, Create)
    case AddMember(_) => s
    case DelConference(id) =>
      if !Found(s, id) then s
      else
        var o := Lookup(s, id);
        s.(objects := s.objects[o := Conf(s.objects[o].id, 0, 0, 0, 1)],
           listed := WithoutAt(s.listed, Position(s, id)))
  }

  lemma DeleteSteps(s: State, id: int)
    requires Boundary(s) && Found(s, id)
    ensures var run := Steps(s, DelConference(id));
            ValidRun(s, run) && NoOverlap(s, run) && After(s, run) == Outcome(s, DelConference(id))
  {
    var o := Lookup(s, id);
    assert Conserved(s.objects[o], true);
    StepKeepsInv(s, Unlist(id));
    StepKeepsInv(Apply(s, Unlist(id)), Decrement(o));
    ThreeSteps(s, Unlist(id), Decrement(o), Test(o));
  }

  lemma MemberSteps(s: State, id: int)
    requires Boundary(s) && Found(s, id)
    ensures var run := Steps(s, AddMember(id));
            ValidRun(s, run) && NoOverlap(s, run) && After(s, run) == s
  {
    var o := Lookup(s, id);
    assert Conserved(s.objects[o], true);
    StepKeepsInv(s, Get(id));
    StepKeepsInv(Apply(s, Get(id)), Decrement(o));
    ThreeSteps(s, Get(id), Decrement(o), Test(o));
  }

  /** A found conference is handed out, released and tested; listed or not decides whether it survives. */
  lemma RequestSteps(s: State, r: Request)
    requires Boundary(s)
    ensures ValidRun(s, Steps(s, r)) && NoOverlap(s, Steps(s, r))
    ensures After(s, Steps(s, r)) == Outcome(s, r)
  {
    match r
    case AddConference => OneStep(s, Create);
    case DelConference(id) =>
      if Found(s, id) { DeleteSteps(s, id); } else { OneStep(s, Unlist(id)); }
    case AddMember(id) =>
      if Found(s, id) { MemberSteps(s, id); } else { OneStep(s, Get(id)); }
  }

  lemma RequestKeepsBoundary(s: State, r: Request)
    requires Boundary(s)
    ensures ValidRun(s, Steps(s, r)) && Boundary(After(s, Steps(s, r)))
  {
    RequestSteps(s, r);
    RunFromInv(s, Steps(s, r));
  }

  ghost function Serve(s: State, r: Request): (s': State)
    requires Boundary(s)
    ensures Boundary(s')
  {
    RequestKeepsBoundary(s, r);
    After(s, Steps(s, r))
  }

  ghost function ServeAll(s: State, requests: seq<Request>): (s': State)
    requires Boundary(s)
    ensures Boundary(s')
    decreases |requests|
  {
    if requests == [] then s else ServeAll(Serve(s, requests[0]), requests[1..])
  }

  /** After any requests: a listed conference has exactly the list's reference, every other one has been deleted, once. */
  lemma RequestBoundary(requests: seq<Request>)
    ensures var s := ServeAll(START, requests);
            forall k :: 0 <= k < |s.objects| ==>
              if k in s.listed then s.objects[k].count == 1 && s.objects[k].deletions == 0
              else s.objects[k].count == 0 && s.objects[k].deletions == 1
  {
    var s := ServeAll(START, requests);
    forall k | 0 <= k < |s.objects| ensures Conserved(s.objects[k], k in s.listed) {}
  }

  // ---------- The registry as a set of creation numbers ----------

  datatype Abstract = Abstract(created: nat, live: set<nat>)

  function Abstraction(s: State): Abstract {
    Abstract(|s.objects|, set k | k in s.listed)
  }

  predicate HasId(live: set<nat>, id: int) { exists k :: k in live && k % 1024 == id }

  predicate IsOldest(live: set<nat>, id: int, o: nat) {
    && o in live && o % 1024 == id
    && forall k :: k in live && k % 1024 == id ==> o <= k
  }

  /** Creation numbers a new conference; deletion by id takes the oldest with that id, if any; nothing else changes. */
  ghost predicate AbstractStep(a: Abstract, r: Request, a': Abstract) {
    match r
    case AddConference => a' == Abstract(a.created + 1, a.live + {a.created})
    case AddMember(_) => a' == a
    case DelConference(id) =>
      if HasId(a.live, id) then exists o :: IsOldest(a.live, id, o) && a' == a.(live := a.live - {o})
      else a' == a
  }

  /** The search loop over the list lands on the oldest live conference with the id. */
  lemma LookupIsOldest(s: State, id: int)
    requires Numbered(s)
    ensures Found(s, id) <==> HasId(Abstraction(s).live, id)
    ensures Found(s, id) ==> IsOldest(Abstraction(s).live, id, Lookup(s, id))
  {
    var p := Position(s, id);
    forall k | k in s.listed && k % ID_RANGE == id ensures p < |s.listed| && s.listed[p] <= k {
      var i :| 0 <= i < |s.listed| && s.listed[i] == k;
      assert i >= p;
    }
    if Found(s, id) {
      assert Lookup(s, id) in Abstraction(s).live && Lookup(s, id) % ID_RANGE == id;
    }
  }

  lemma ServeRefines(s: State, r: Request)
    requires Boundary(s)
    ensures AbstractStep(Abstraction(s), r, Abstraction(Serve(s, r)))
  {
    RequestSteps(s, r);
    var s' := Serve(s, r);
    match r
    case AddConference =>
      assert Abstraction(s').live == Abstraction(s).live + {|s.objects|};
    case AddMember(_) =>
    case DelConference(id) =>
      LookupIsOldest(s, id);
      if Found(s, id) {
        WithoutAtMembers(s.listed, Position(s, id));
        assert Abstraction(s').live == Abstraction(s).live - {Lookup(s, id)};
        assert IsOldest(Abstraction(s).live, id, Lookup(s, id));
      }
  }

  ghost predicate AbstractRun(a: Abstract, requests: seq<Request>, a': Abstract)
    decreases |requests|
  {
    if requests == [] then a' == a
    else exists b :: AbstractStep(a, requests[0], b) && AbstractRun(b, requests[1..], a')
  }

  /** Every run of requests is a run of the set-of-numbers registry, and the list enumerates the set in creation order. */
  lemma {:induction false} RunRefines(s: State, requests: seq<Request>)
    requires Boundary(s)
    ensures AbstractRun(Abstraction(s), requests, Abstraction(ServeAll(s, requests)))
    ensures InOrder(ServeAll(s, requests).listed)
    decreases |requests|
  {
    if requests != [] {
      ServeRefines(s, requests[0]);
      RunRefines(Serve(s, requests[0]), requests[1..]);
    }
  }

  /** Deleting by id exposes the next oldest conference with the same id. */
  lemma DeleteExposesNext(s: State, id: int)
    requires Boundary(s) && Found(s, id)
    ensures var s' := Serve(s, DelConference(id));
            var others := Abstraction(s).live - {Lookup(s, id)};
            && Abstraction(s').live == others
            && (Found(s', id) <==> HasId(others, id))
            && (Found(s', id) ==> IsOldest(others, id, Lookup(s', id)) && Lookup(s', id) > Lookup(s, id))
  {
    var s' := Serve(s, DelConference(id));
    RequestSteps(s, DelConference(id));
    WithoutAtMembers(s.listed, Position(s, id));
    assert Abstraction(s').live == Abstraction(s).live - {Lookup(s, id)};
    LookupIsOldest(s, id);
    LookupIsOldest(s', id);
  }

  // ---------- Counting ----------

  function Creations(requests: seq<Request>): nat
    decreases |requests|
  {
    if requests == [] then 0 else (if requests[0].AddConference? then 1 else 0) + Creations(requests[1..])
  }

  /** Deletions that found a conference. */
  ghost function EffectiveDeletions(s: State, requests: seq<Request>): nat
    requires Boundary(s)
    decreases |requests|
  {
    if requests == [] then 0 else
    (if requests[0].DelConference? && Found(s, requests[0].id) then 1 else 0)
    + EffectiveDeletions(Serve(s, requests[0]), requests[1..])
  }

  lemma {:induction false} CountIsCreationsMinusDeletions(s: State, requests: seq<Request>)
    requires Boundary(s)
    ensures var s' := ServeAll(s, requests);
            && |s'.listed| + EffectiveDeletions(s, requests) == |s.listed| + Creations(requests)
            && |s'.objects| == |s.objects| + Creations(requests)
    decreases |requests|
  {
    if requests != [] {
      RequestSteps(s, requests[0]);
      CountIsCreationsMinusDeletions(Serve(s, requests[0]), requests[1..]);
    }
  }

  // ---------- Ids ----------

  lemma WindowOfIds(i: nat, j: nat)
    requires i < j < i + 1024
    ensures i % 1024 != j % 1024
  {
  }

  /** The part of the invariant about ids and list order, which no step endangers, overlap or not. */
  predicate Numbered(s: State) {
    && WellFormed(s) && InOrder(s.listed) && s.nextId == |s.objects| % ID_RANGE
    && forall k :: 0 <= k < |s.objects| ==> s.objects[k].id == k % ID_RANGE
  }

  lemma CreateKeepsNumbered(s: State)
    requires Numbered(s)
    ensures Numbered(Apply(s, Create))
  {
    NextIdStep(|s.objects|);
  }

  lemma UnlistKeepsNumbered(s: State, id: int)
    requires Numbered(s)
    ensures Numbered(Apply(s, Unlist(id)))
  {
    hide WithoutAt;
    if Found(s, id) {
      WithoutAtMembers(s.listed, Position(s, id));
      var s' := Apply(s, Unlist(id));
      forall i | 0 <= i < |s'.listed| ensures s'.listed[i] < |s.objects| {
        assert s'.listed[i] in s'.listed;
      }
    }
  }

  lemma StepKeepsNumbered(s: State, a: Action)
    requires Numbered(s) && Enabled(s, a)
    ensures Numbered(Apply(s, a))
  {
    match a
    case Create => CreateKeepsNumbered(s);
    case Unlist(id) => UnlistKeepsNumbered(s, id);
    case _ =>
  }

  lemma {:induction false} RunKeepsNumbered(s: State, run: seq<Action>)
    requires Numbered(s) && ValidRun(s, run)
    ensures Numbered(After(s, run))
    decreases |run|
  {
    if run != [] {
      StepKeepsNumbered(s, run[0]);
      RunKeepsNumbered(Apply(s, run[0]), run[1..]);
    }
  }

  /** Over every run the k-th conference has id k mod 1024, and any 1024 consecutive ones have distinct ids. */
  lemma IdsOfRun(run: seq<Action>)
    requires ValidRun(START, run)
    ensures var s := After(START, run);
            && Numbered(s)
            && (forall k :: 0 <= k < |s.objects| ==> s.objects[k].id == k % 1024)
            && (forall i, j :: 0 <= i < j < |s.objects| && j < i + 1024 ==> s.objects[i].id != s.objects[j].id)
  {
    RunKeepsNumbered(START, run);
    var s := After(START, run);
    forall i, j | 0 <= i < j < |s.objects| && j < i + 1024 ensures s.objects[i].id != s.objects[j].id {
      WindowOfIds(i, j);
    }
  }

  predicate DistinctLiveIds(s: State)
    requires WellFormed(s)
  {
    forall i, j :: 0 <= i < j < |s.listed| ==> s.objects[s.listed[i]].id != s.objects[s.listed[j]].id
  }

  /** Live ids are distinct exactly when no two live creation numbers lie a multiple of 1024 apart. */
  lemma LiveIdsDistinctIff(s: State)
    requires Numbered(s)
    ensures DistinctLiveIds(s) <==>
            forall i, j :: 0 <= i < j < |s.listed| ==> (s.listed[j] - s.listed[i]) % 1024 != 0
  {
    forall i, j | 0 <= i < j < |s.listed|
      ensures s.objects[s.listed[i]].id == s.objects[s.listed[j]].id <==> (s.listed[j] - s.listed[i]) % 1024 == 0
    {
      SameRemainderIff(s.listed[i], s.listed[j]);
    }
  }

  lemma SameRemainderIff(i: nat, j: nat)
    ensures i % 1024 == j % 1024 <==> (j - i) % 1024 == 0
  {
  }

  /** So it is as long as every live conference is among the last 1024 created. */
  lemma LiveIdsDistinct(s: State)
    requires Numbered(s)
    requires forall i :: 0 <= i < |s.listed| ==> s.listed[i] + 1024 >= |s.objects|
    ensures DistinctLiveIds(s)
  {
    forall i, j | 0 <= i < j < |s.listed| ensures s.objects[s.listed[i]].id != s.objects[s.listed[j]].id {
      WindowOfIds(s.listed[i], s.listed[j]);
    }
  }

  lemma {:induction false} OnlyCreations(s: State, n: nat)
    requires Boundary(s)
    ensures var s' := ServeAll(s, seq(n, _ => AddConference));
            |s'.objects| == |s.objects| + n && s'.listed == s.listed + seq(n, i => |s.objects| + i)
    decreases n
  {
    var requests := seq(n, _ => AddConference);
    if n > 0 {
      assert requests[1..] == seq(n - 1, _ => AddConference);
      RequestSteps(s, AddConference);
      OnlyCreations(Serve(s, AddConference), n - 1);
    }
  }

  /** Beyond that the ids repeat: 1025 creations leave two live conferences with id 0. */
  lemma IdsRepeat()
    ensures var s := ServeAll(START, seq(1025, _ => AddConference));
            |s.listed| == 1025 && s.listed[0] == 0 && s.listed[1024] == 1024
            && |s.objects| == 1025 && s.objects[0].id == s.objects[1024].id == 0
  {
    OnlyCreations(START, 1025);
  }
}
