/**
  The classes of mcu/mcu: Conference with its inherited reference count, Server with its list
  of conferences, and the request handlers, each tied to a step of the lifetime machine.
  `conference_destroy` is modelled by intent: the pointer found is the one erased and released.
 */
module ConferenceServer {
  import opened Lifetimes
  import opened Lists
  import opened Registry

  class Conference {
    const id: int
    var refs: int
    /** How often the destructor ran. */
    var deletions: nat
    ghost var handles: nat
    ghost var inFlight: nat

    constructor (id: int)
      ensures Snapshot() == Conf(id, 1, 0, 0, 0)
    {
      this.id, refs, deletions, handles, inFlight := id, 1, 0, 0, 0;
    }

    ghost function Snapshot(): Conf
      reads this
    {
      Conf(id, refs, handles, inFlight, deletions)
    }

    method AddRef()
      modifies this
      ensures Snapshot() == Lifetimes.AddRef(old(Snapshot()))
    {
      refs := refs + 1;
      handles := handles + 1;
    }

    /** Decrement under the lock, test and delete after it. */
    method Release()
      requires handles > 0
      modifies this
      ensures Snapshot() == Tested(Decremented(old(Snapshot())))
    {
      refs := refs - 1;
      handles, inFlight := handles - 1, inFlight + 1;
      assert Snapshot() == Decremented(old(Snapshot()));
      if refs == 0 {
        deletions := deletions + 1;
      }
      inFlight := inFlight - 1;
    }
  }

  ghost function Snapshots(cs: seq<Conference>): (r: seq<Conf>)
    reads cs
    ensures |r| == |cs| && forall i :: 0 <= i < |cs| ==> r[i] == cs[i].Snapshot()
  {
    if cs == [] then [] else Snapshots(cs[..|cs| - 1]) + [cs[|cs| - 1].Snapshot()]
  }

  class Server {
    var conferences: seq<Conference>
    var nextConfId: nat
    /** Every conference ever created, and the creation numbers of the listed ones. */
    ghost var all: seq<Conference>
    ghost var numbers: seq<nat>

    ghost predicate Valid()
      reads this, all
    {
      && |numbers| == |conferences|
      && (forall i :: 0 <= i < |numbers| ==> numbers[i] < |all| && conferences[i] == all[numbers[i]])
      && (forall i, j :: 0 <= i < j < |all| ==> all[i] != all[j])
    }

    ghost function View(): (s: State)
      requires Valid()
      reads this, all
      ensures WellFormed(s)
    {
      State(Snapshots(all), numbers, nextConfId)
    }

    constructor ()
      ensures Valid() && View() == START
    {
      conferences, nextConfId, all, numbers := [], 0, [], [];
    }

    method NextId() returns (id: nat)
      modifies `nextConfId
      ensures id == old(nextConfId) && nextConfId == (id + 1) % 1024
    {
      id := nextConfId;
      nextConfId := nextConfId + 1;
      nextConfId := nextConfId % (MAX_CONF_ID + 1);
    }

    method ConferenceCreate() returns (id: int)
      requires Valid()
      modifies this
      ensures Valid() && View() == Apply(old(View()), Create) && id == old(View()).nextId
      ensures Numbered(old(View())) ==> id == |old(View()).objects| % 1024
      ensures |all| == |old(all)| + 1 && all[..|old(all)|] == old(all) && fresh(all[|old(all)|])
    {
      hide Snapshots;
      id := NextId();
      var conf := new Conference(id);
      Append(conf);
      assert Snapshots(all) == old(Snapshots(all)) + [conf.Snapshot()];
    }

    method Append(conf: Conference)
      requires Valid() && conf !in all
      modifies `conferences, `numbers, `all
      ensures Valid() && all == old(all) + [conf] && numbers == old(numbers) + [|old(all)|]
    {
      conferences := conferences + [conf];
      numbers := numbers + [|all|];
      all := all + [conf];
    }

    /** The search loop shared by the lookups: the position of the first conference with the id. */
    method Search(id: int) returns (it: nat)
      requires Valid()
      ensures it == Position(View(), id)
    {
      it := 0;
      while it < |conferences| && conferences[it].id != id
        invariant it <= |conferences|
        invariant PositionFrom(View(), id, it) == Position(View(), id)
      {
        it := it + 1;
      }
    }

    /** One object changed: the view changes at its creation number only. */
    twostate lemma ObjectChanged(o: nat)
      requires old(Valid()) && Valid() && all == old(all) && o < |all|
      requires forall k :: 0 <= k < |all| && k != o ==> all[k].Snapshot() == old(all[k].Snapshot())
      ensures Snapshots(all) == old(Snapshots(all))[o := all[o].Snapshot()]
    {
    }

    method Erase(it: nat)
      requires Valid() && it < |conferences|
      modifies `conferences, `numbers
      ensures Valid() && numbers == WithoutAt(old(numbers), it)
    {
      conferences := WithoutAt(conferences, it);
      numbers := WithoutAt(numbers, it);
    }

    method ConferenceDestroy(id: int)
      requires Valid()
      modifies this, all
      ensures Valid() && all == old(all)
      ensures View() == Destroyed(old(View()), id)
    {
      hide Snapshots, PositionFrom, WithoutAt;
      var it := Search(id);
      if it < |conferences| {
        var conf := conferences[it];
        ghost var o := numbers[it];
        Erase(it);
        conf.handles := conf.handles + 1;
        conf.Release();
        ObjectChanged(o);
      }
    }

    method GetConference(id: int) returns (conf: Conference?)
      requires Valid()
      modifies all
      ensures Valid() && View() == Apply(old(View()), Get(id))
      ensures if Found(old(View()), id) then conf == all[Lookup(old(View()), id)] && conf.handles > 0
              else conf == null
    {
      hide Snapshots, PositionFrom;
      conf := null;
      var it := Search(id);
      if it < |conferences| {
        conf := conferences[it];
        conf.AddRef();
        ObjectChanged(numbers[it]);
      }
    }

    /** The ids of the live conferences in creation order. */
    method ConferenceList() returns (ids: seq<int>)
      requires Valid()
      ensures |ids| == |View().listed|
      ensures forall i :: 0 <= i < |ids| ==> ids[i] == View().objects[View().listed[i]].id
    {
      ids := [];
      var it := 0;
      while it < |conferences|
        invariant it == |ids| <= |conferences|
        invariant forall i :: 0 <= i < |ids| ==> ids[i] == View().objects[View().listed[i]].id
      {
        ids := ids + [conferences[it].id];
        it := it + 1;
      }
    }

    method GetConferenceCount() returns (n: nat)
      requires Valid()
      ensures n == |View().listed|
    {
      n := |conferences|;
    }
  }

  /** A destroy by id: unlist, then release in its two steps. */
  function Destroyed(s: State, id: int): State
    requires WellFormed(s)
  {
    if !Found(s, id) then s else
    var o := Lookup(s, id);
    var c := s.objects[o];
    s.(objects := s.objects[o := Tested(Decremented(c.(handles := c.handles + 1)))],
       listed := WithoutAt(s.listed, Position(s, id)))
  }

  // ---------- Request handlers ----------

  lemma DestroyedAtBoundary(s: State, id: int)
    requires Boundary(s)
    ensures Destroyed(s, id) == Serve(s, DelConference(id))
  {
    RequestSteps(s, DelConference(id));
    if Found(s, id) { assert Conserved(s.objects[Lookup(s, id)], true); }
  }

  method HandleAddConference(server: Server) returns (confid: int)
    requires server.Valid() && Boundary(server.View())
    modifies server
    ensures server.Valid() && server.View() == Serve(old(server.View()), AddConference)
    ensures confid == |old(server.View()).objects| % 1024
    ensures |server.all| == |old(server.all)| + 1 && server.all[..|old(server.all)|] == old(server.all)
    ensures fresh(server.all[|old(server.all)|])
  {
    RequestSteps(server.View(), AddConference);
    confid := server.ConferenceCreate();
  }

  method HandleDelConference(server: Server, id: int)
    requires server.Valid() && Boundary(server.View())
    modifies server, server.all
    ensures server.Valid() && server.View() == Serve(old(server.View()), DelConference(id))
    ensures server.all == old(server.all)
  {
    DestroyedAtBoundary(server.View(), id);
    server.ConferenceDestroy(id);
  }

  /** The handler gets the conference and releases it again. */
  method HandleAddMember(server: Server, id: int)
    requires server.Valid() && Boundary(server.View())
    modifies server.all
    ensures server.Valid() && server.View() == Serve(old(server.View()), AddMember(id))
    ensures server.View() == old(server.View())
  {
    hide Snapshots, Position, PositionFrom, Boundary, Serve, Found;
    ghost var s := server.View();
    MemberRequest(s, id);
    var conf := server.GetConference(id);
    if conf != null {
      ghost var o := Lookup(s, id);
      label got:
      conf.Release();
      server.ObjectChanged@got(o);
    }
  }

  /** The reference taken is given back with the list's still there, so the object is as it was. */
  lemma MemberRequest(s: State, id: int)
    requires Boundary(s)
    ensures Serve(s, AddMember(id)) == s
    ensures Found(s, id) ==> var c := s.objects[Lookup(s, id)]; Tested(Decremented(AddRef(c))) == c
  {
    RequestSteps(s, AddMember(id));
    if Found(s, id) { assert Conserved(s.objects[Lookup(s, id)], true); }
  }

  method Handle(server: Server, r: Request)
    requires server.Valid() && Boundary(server.View())
    modifies server, server.all
    ensures server.Valid() && server.View() == Serve(old(server.View()), r)
    ensures forall i :: 0 <= i < |server.all| ==> server.all[i] in old(server.all) || fresh(server.all[i])
  {
    hide Serve, Boundary, Snapshots;
    match r
    case AddConference =>
      var id := HandleAddConference(server);
      assert server.all == server.all[..|old(server.all)|] + [server.all[|old(server.all)|]];
    case DelConference(id) => HandleDelConference(server, id);
    case AddMember(id) => HandleAddMember(server, id);
  }

  lemma BoundaryCounts(server: Server, k: nat)
    requires server.Valid() && Boundary(server.View()) && k < |server.all|
    ensures var c := server.all[k];
            if k in server.numbers then c.refs == 1 && c.deletions == 0 else c.refs == 0 && c.deletions == 1
  {
    assert Conserved(server.View().objects[k], k in server.numbers);
  }

  /** The accept loop serves one request at a time; between requests a conference is listed with one reference or deleted. */
  method Run(server: Server, requests: seq<Request>)
    requires server.Valid() && Boundary(server.View())
    modifies server, server.all
    ensures server.Valid() && server.View() == ServeAll(old(server.View()), requests)
    ensures forall k :: 0 <= k < |server.all| ==>
              if k in server.numbers then server.all[k].refs == 1 && server.all[k].deletions == 0
              else server.all[k].refs == 0 && server.all[k].deletions == 1
  {
    hide Serve, Boundary, Snapshots;
    for n := 0 to |requests|
      invariant server.Valid() && Boundary(server.View())
      invariant forall i :: 0 <= i < |server.all| ==> server.all[i] in old(server.all) || fresh(server.all[i])
      invariant ServeAll(server.View(), requests[n..]) == ServeAll(old(server.View()), requests)
    {
      assert requests[n..][1..] == requests[n + 1..];
      Handle(server, requests[n]);
    }
    forall k | 0 <= k < |server.all|
      ensures if k in server.numbers then server.all[k].refs == 1 && server.all[k].deletions == 0
              else server.all[k].refs == 0 && server.all[k].deletions == 1
    {
      BoundaryCounts(server, k);
    }
  }
}
