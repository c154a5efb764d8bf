/** The member list of a conference (mcu/mcu/Conference.cpp): ids count up and are never given out again. */
module Members {
  import Lists

  /** Ids of the members in list order, and the id counter. */
  datatype Roster = Roster(ids: seq<int>, next: int)

  datatype MemberOp = CreateMember | DestroyMember(id: int)

  const EMPTY: Roster := Roster([], 0)

  /** Position of the first member with the id, or the length of the list. */
  function IndexFrom(ids: seq<int>, id: int, i: nat): (p: nat)
    requires i <= |ids|
    ensures i <= p <= |ids|
    ensures p < |ids| ==> ids[p] == id
    ensures id !in ids[i..p]
    decreases |ids| - i
  {
    if i == |ids| || ids[i] == id then i else IndexFrom(ids, id, i + 1)
  }

  function Step(m: Roster, op: MemberOp): Roster {
    match op
    case CreateMember => Roster(m.ids + [m.next], m.next + 1)
    case DestroyMember(id) =>
      var p := IndexFrom(m.ids, id, 0);
      if p < |m.ids| then m.(ids := Lists.WithoutAt(m.ids, p)) else m
  }

  function After(m: Roster, run: seq<MemberOp>): Roster
    decreases |run|
  {
    if run == [] then m else After(Step(m, run[0]), run[1..])
  }

  function Creations(run: seq<MemberOp>): nat
    decreases |run|
  {
    if run == [] then 0 else (if run[0].CreateMember? then 1 else 0) + Creations(run[1..])
  }

  predicate Increasing(ids: seq<int>) {
    forall i, j :: 0 <= i < j < |ids| ==> ids[i] < ids[j]
  }

  predicate Inv(m: Roster) {
    && 0 <= m.next && Increasing(m.ids)
    && forall i :: 0 <= i < |m.ids| ==> 0 <= m.ids[i] < m.next
  }

  /** Destroy removes exactly the named member; the rest keep their order. */
  lemma DestroyExact(m: Roster, id: int)
    requires Inv(m)
    ensures var m' := Step(m, DestroyMember(id));
            && Increasing(m'.ids) && m'.next == m.next
            && (forall x :: x in m'.ids <==> x in m.ids && x != id)
  {
    var p := IndexFrom(m.ids, id, 0);
    assert m.ids[0..p] == m.ids[..p];
    if p < |m.ids| {
      Lists.WithoutAtOfDistinct(m.ids, p);
    }
  }

  lemma StepKeepsInv(m: Roster, op: MemberOp)
    requires Inv(m)
    ensures Inv(Step(m, op))
  {
    if op.DestroyMember? {
      DestroyExact(m, op.id);
      var m' := Step(m, op);
      forall i | 0 <= i < |m'.ids| ensures 0 <= m'.ids[i] < m'.next {
        assert m'.ids[i] in m'.ids;
      }
    }
  }

  /**
    Over every run: ids increase along the list, the counter is the number of members created
    (so it stays a C `int` below 2^31 creations), and an id that has left the list never returns.
   */
  lemma {:induction false} RunKeepsOrder(m: Roster, run: seq<MemberOp>)
    requires Inv(m)
    ensures var m' := After(m, run);
            && Inv(m') && m'.next == m.next + Creations(run)
            && (forall id :: 0 <= id < m.next && id !in m.ids ==> id !in m'.ids)
            && (forall id :: id in m'.ids ==> id in m.ids || m.next <= id < m'.next)
    decreases |run|
  {
    if run != [] {
      var m1 := Step(m, run[0]);
      StepKeepsInv(m, run[0]);
      if run[0].DestroyMember? { DestroyExact(m, run[0].id); }
      RunKeepsOrder(m1, run[1..]);
    }
  }

  /** From a new conference: ids count from 0, and the counter is the number of members created. */
  lemma RunFromEmpty(run: seq<MemberOp>)
    ensures var m := After(EMPTY, run);
            && m.next == Creations(run) && Increasing(m.ids)
            && forall i :: 0 <= i < |m.ids| ==> 0 <= m.ids[i] < Creations(run)
    ensures Step(EMPTY, CreateMember) == Roster([0], 1)
  {
    RunKeepsOrder(EMPTY, run);
  }

  // ---------- The classes ----------

  /** A member with its inherited reference count and how often its destructor ran. */
  class Member {
    const confId: int
    const memberId: int
    var refs: int
    var deletions: nat

    constructor (confId: int, memberId: int)
      ensures this.confId == confId && this.memberId == memberId && refs == 1 && deletions == 0
    {
      this.confId, this.memberId, refs, deletions := confId, memberId, 1, 0;
    }

    method Release()
      modifies this
      ensures refs == old(refs) - 1 && deletions == old(deletions) + (if refs == 0 then 1 else 0)
    {
      refs := refs - 1;
      if refs == 0 {
        deletions := deletions + 1;
      }
    }
  }

  function Ids(members: seq<Member>): (ids: seq<int>)
    ensures |ids| == |members| && forall i :: 0 <= i < |members| ==> ids[i] == members[i].memberId
  {
    seq(|members|, i requires 0 <= i < |members| => members[i].memberId)
  }

  class MemberList {
    const confId: int
    var members: seq<Member>
    var nextMemberId: int

    /** Listed members are distinct live objects, and the list holds the only reference to each. */
    ghost predicate Valid()
      reads this, members
    {
      && (forall i, j :: 0 <= i < j < |members| ==> members[i] != members[j])
      && (forall i :: 0 <= i < |members| ==> members[i].refs == 1 && members[i].deletions == 0
                                             && members[i].confId == confId)
    }

    ghost function View(): Roster
      reads this
    {
      Roster(Ids(members), nextMemberId)
    }

    constructor (confId: int)
      ensures Valid() && View() == EMPTY && nextMemberId == 0 && this.confId == confId
    {
      this.confId, members, nextMemberId := confId, [], 0;
    }

    /** The counter is a C `int`; past its maximum the increment is undefined. */
    method MemberCreate() returns (id: int)
      requires Valid() && nextMemberId < 0x7fff_ffff
      modifies this
      ensures Valid() && View() == Step(old(View()), CreateMember) && id == old(nextMemberId)
      ensures |members| == |old(members)| + 1 && members[..|old(members)|] == old(members)
      ensures fresh(members[|old(members)|])
    {
      id := nextMemberId;
      nextMemberId := nextMemberId + 1;
      var member := new Member(confId, id);
      members := members + [member];
    }

    /** The search loop: the position of the first member with the id. */
    method Search(id: int) returns (it: nat)
      ensures it == IndexFrom(Ids(members), id, 0)
    {
      it := 0;
      while it < |members| && members[it].memberId != id
        invariant it <= |members|
        invariant IndexFrom(Ids(members), id, it) == IndexFrom(Ids(members), id, 0)
      {
        it := it + 1;
      }
    }

    /** The member found leaves the list and is released, which deletes it, once; no other object changes. */
    method MemberDestroy(id: int)
      requires Valid()
      modifies this, members
      ensures Valid() && View() == Step(old(View()), DestroyMember(id))
      ensures forall m :: m in old(members) ==>
                if m in members then m.refs == 1 && m.deletions == 0
                else m.memberId == id && m.refs == 0 && m.deletions == 1
    {
      hide Ids, IndexFrom;
      var it := Search(id);
      if it < |members| {
        var member := members[it];
        Lists.WithoutAtOfDistinct(members, it);
        members := Lists.WithoutAt(members, it);
        member.Release();
        assert Ids(members) == Lists.WithoutAt(old(Ids(members)), it);
      }
    }

    method MemberDescs() returns (descs: seq<(int, int)>)
      requires Valid()
      ensures |descs| == |View().ids| && forall i :: 0 <= i < |descs| ==> descs[i] == (confId, View().ids[i])
    {
      descs := [];
      var it := 0;
      while it < |members|
        invariant it == |descs| <= |members|
        invariant forall i :: 0 <= i < |descs| ==> descs[i] == (confId, View().ids[i])
      {
        descs := descs + [(members[it].confId, members[it].memberId)];
        it := it + 1;
      }
    }
  }
}
