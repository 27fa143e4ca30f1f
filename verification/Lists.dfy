/** Linked lists as sequences: listing each thing once, finding it, and taking it out. */
module Lists {

  /** Nothing is listed twice.  The trigger keeps the pairs out of proofs that do not ask for one. */
  ghost predicate Distinct<T>(q: seq<T>) {
    forall i, j {:trigger Differ(q, i, j)} :: Differ(q, i, j)
  }

  ghost predicate Differ<T>(q: seq<T>, i: int, j: int) {
    0 <= i < j < |q| ==> q[i] != q[j]
  }

  lemma DistinctIndex<T>(q: seq<T>, i: nat, j: nat)
    requires Distinct(q) && i < |q| && j < |q| && q[i] == q[j]
    ensures i == j
  {
    assert Differ(q, i, j) && Differ(q, j, i);
  }

  lemma DistinctTail<T>(q: seq<T>)
    requires Distinct(q) && q != []
    ensures Distinct(q[1..]) && q[0] !in q[1..]
  {
    forall i, j ensures Differ(q[1..], i, j) {
      assert Differ(q, i + 1, j + 1);
    }
    forall x | x in q[1..] ensures x != q[0] {
      var i :| 0 <= i < |q| - 1 && q[1..][i] == x;
      assert Differ(q, 0, i + 1);
    }
  }

  lemma DistinctWithout<T>(q: seq<T>, k: nat)
    requires Distinct(q) && k < |q|
    ensures Distinct(q[..k] + q[k + 1..]) && q[k] !in q[..k] + q[k + 1..]
  {
    var r := q[..k] + q[k + 1..];
    forall i, j ensures Differ(r, i, j) {
      assert Differ(q, if i < k then i else i + 1, if j < k then j else j + 1);
    }
    forall x | x in r ensures x != q[k] {
      var i :| 0 <= i < |r| && r[i] == x;
      assert Differ(q, i, k) && Differ(q, k, i + 1);
    }
  }

  lemma DistinctSnoc<T>(q: seq<T>, t: T)
    requires Distinct(q) && t !in q
    ensures Distinct(q + [t])
  {
    forall i, j ensures Differ(q + [t], i, j) {
      assert Differ(q, i, j);
    }
  }

  lemma DistinctCons<T>(t: T, q: seq<T>)
    requires Distinct(q) && t !in q
    ensures Distinct([t] + q)
  {
    forall i, j ensures Differ([t] + q, i, j) {
      assert Differ(q, i - 1, j - 1);
    }
  }

  function IndexOf<T(==)>(q: seq<T>, t: T): (i: nat)
    requires t in q
    ensures i < |q| && q[i] == t
  {
    if q[0] == t then 0 else 1 + IndexOf(q[1..], t)
  }

  lemma IndexUnique<T>(q: seq<T>, i: nat)
    requires Distinct(q) && i < |q|
    ensures IndexOf(q, q[i]) == i
  {
    DistinctIndex(q, IndexOf(q, q[i]), i);
  }

  /** The list with the first `x`, if there is one, taken out. */
  function RemoveFirst<T(==)>(q: seq<T>, x: T): (r: seq<T>)
    ensures x !in q ==> r == q
    ensures x in q ==> |r| == |q| - 1
  {
    if q == [] then [] else if q[0] == x then q[1..] else [q[0]] + RemoveFirst(q[1..], x)
  }

  lemma {:induction false} RemoveFirstAt<T>(q: seq<T>, i: nat)
    requires i < |q| && forall j | 0 <= j < i :: q[j] != q[i]
    ensures RemoveFirst(q, q[i]) == q[..i] + q[i + 1..]
    decreases i
  {
    if i > 0 {
      RemoveFirstAt(q[1..], i - 1);
      assert [q[0]] + (q[1..][..i - 1] + q[1..][i..]) == q[..i] + q[i + 1..];
    }
  }

  /** Everything else stays, in its order, and `x` is gone if it was listed once. */
  lemma RemoveKeepsOrder<T>(q: seq<T>, i: nat)
    requires Distinct(q) && i < |q|
    ensures RemoveFirst(q, q[i]) == q[..i] + q[i + 1..]
    ensures Distinct(RemoveFirst(q, q[i])) && q[i] !in RemoveFirst(q, q[i])
  {
    forall j | 0 <= j < i ensures q[j] != q[i] {
      assert Differ(q, j, i);
    }
    RemoveFirstAt(q, i);
    DistinctWithout(q, i);
  }

  lemma {:induction false} RemoveCounts<T>(q: seq<T>, x: T)
    requires x in q
    ensures multiset(RemoveFirst(q, x)) == multiset(q) - multiset{x}
  {
    assert q == [q[0]] + q[1..];
    if q[0] != x {
      RemoveCounts(q[1..], x);
    }
  }
}
