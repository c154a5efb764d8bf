/** Taking an element out of a list, as `std::list::erase` does, and regrouping concatenations. */
module Lists {

  lemma Regroup<T>(a: seq<T>, b: seq<T>, c: seq<T>)
    ensures (a + b) + c == a + (b + c)
  {
  }

  lemma AppendNothing<T>(a: seq<T>)
    ensures a + [] == a
  {
  }

  function WithoutAt<T>(list: seq<T>, p: nat): (r: seq<T>)
    requires p < |list|
    ensures |r| == |list| - 1
    ensures forall i :: 0 <= i < |r| ==> r[i] == if i < p then list[i] else list[i + 1]
  {
    list[..p] + list[p + 1..]
  }

  /** From a list without repetitions exactly that element goes. */
  lemma WithoutAtOfDistinct<T>(list: seq<T>, p: nat)
    requires p < |list| && forall i, j :: 0 <= i < j < |list| ==> list[i] != list[j]
    ensures forall x :: x in WithoutAt(list, p) <==> x in list && x != list[p]
  {
    var rest := WithoutAt(list, p);
    forall x | x in list && x != list[p] ensures x in rest {
      var i :| 0 <= i < |list| && list[i] == x;
      assert rest[if i < p then i else i - 1] == x;
    }
    forall x | x in rest ensures x in list && x != list[p] {
      var i :| 0 <= i < |rest| && rest[i] == x;
      assert list[if i < p then i else i + 1] == x;
    }
  }
}
