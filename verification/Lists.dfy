/** Lists without repetition, and lists of lists. */
module Lists {

  ghost predicate Distinct<T>(q: seq<T>) {
    forall j, k :: 0 <= j < k < |q| ==> q[j] != q[k]
  }

  function One(b: bool): nat {
    if b then 1 else 0
  }

  /** The list with its first `x` taken out. */
  function Without<T(==)>(q: seq<T>, x: T): (r: seq<T>)
    ensures x !in q ==> r == q
  {
    if |q| == 0 then [] else if q[0] == x then q[1..] else [q[0]] + Without(q[1..], x)
  }

  lemma {:induction false} WithoutIs<T>(q: seq<T>, x: T)
    requires Distinct(q)
    ensures var r := Without(q, x);
            && Distinct(r) && (forall y :: y in r <==> y in q && y != x)
            && |r| == |q| - One(x in q)
  {
    if |q| > 0 {
      assert q == [q[0]] + q[1..] && q[0] !in q[1..];
      if q[0] != x {
        WithoutIs(q[1..], x);
      }
    }
  }

  /** What is before and after the element taken out stays in order. */
  lemma {:induction false} WithoutAt<T>(q: seq<T>, at: nat)
    requires Distinct(q) && at < |q|
    ensures Without(q, q[at]) == q[..at] + q[at + 1..]
  {
    hide Without, Distinct;
    WithoutStep(q, q[at]);
    if at > 0 {
      RestDistinct(q, at);
      WithoutAt(q[1..], at - 1);
      CutRest(q, at);
    }
  }

  lemma WithoutStep<T>(q: seq<T>, x: T)
    requires |q| > 0
    ensures Without(q, x) == if q[0] == x then q[1..] else [q[0]] + Without(q[1..], x)
  {
  }

  lemma RestDistinct<T>(q: seq<T>, at: nat)
    requires Distinct(q) && 0 < at < |q|
    ensures Distinct(q[1..]) && q[0] != q[at] && q[1..][at - 1] == q[at]
  {
  }

  lemma CutRest<T>(q: seq<T>, at: nat)
    requires 0 < at < |q|
    ensures q[..at] + q[at + 1..] == [q[0]] + (q[1..][..at - 1] + q[1..][at..])
  {
  }

  /** Of two elements that are left, the first was the first before. */
  lemma WithoutOrder<T>(q: seq<T>, x: T, j: nat, k: nat) returns (a: nat, b: nat)
    requires Distinct(q) && j < k < |Without(q, x)|
    ensures a < b < |q| && q[a] == Without(q, x)[j] != x && q[b] == Without(q, x)[k] != x
  {
    hide Without;
    a, b := j, k;
    if x in q {
      var at :| 0 <= at < |q| && q[at] == x;
      WithoutAt(q, at);
      a, b := if j < at then j else j + 1, if k < at then k else k + 1;
    }
  }

  lemma {:induction false} WithoutIn<T>(q: seq<T>, x: T)
    ensures forall y :: y in Without(q, x) ==> y in q
  {
    if |q| > 0 && q[0] != x {
      WithoutIn(q[1..], x);
    }
  }

  lemma SnocDistinct<T>(q: seq<T>, x: T)
    requires Distinct(q) && x !in q
    ensures Distinct(q + [x])
  {
  }

  lemma ConsDistinct<T>(q: seq<T>, x: T)
    requires Distinct(q) && x !in q
    ensures Distinct([x] + q) && forall y :: y in [x] + q <==> y == x || y in q
  {
  }

  /** A list without what is at one place. */
  lemma CutOut<T>(q: seq<T>, at: nat)
    requires Distinct(q) && at < |q|
    ensures var r := q[..at] + q[at + 1..];
            && Distinct(r) && (forall y :: y in r <==> y in q && y != q[at])
            && forall k :: 0 <= k < |r| ==> r[k] == q[if k < at then k else k + 1]
  {
    var r := q[..at] + q[at + 1..];
    forall y
      ensures y in r <==> y in q && y != q[at]
    {
      if y in q && y != q[at] {
        var k :| 0 <= k < |q| && q[k] == y;
        assert r[if k < at then k else k - 1] == y;
      }
    }
  }

  /** How many elements all lists have together. */
  function Total<T>(queues: seq<seq<T>>): nat {
    if |queues| == 0 then 0 else |queues[0]| + Total(queues[1..])
  }

  lemma {:induction false} TotalChange<T>(queues: seq<seq<T>>, p: nat, q: seq<T>)
    requires p < |queues|
    ensures Total(queues[p := q]) + |queues[p]| == Total(queues) + |q|
  {
    if p == 0 {
      assert queues[0 := q][1..] == queues[1..];
    } else {
      assert queues[p := q][1..] == queues[1..][p - 1 := q];
      TotalChange(queues[1..], p - 1, q);
    }
  }

  lemma {:induction false} TotalZero<T>(queues: seq<seq<T>>, p: nat)
    requires p < |queues| && Total(queues) == 0
    ensures |queues[p]| == 0
  {
    if p > 0 {
      TotalZero(queues[1..], p - 1);
    }
  }

  /** Two sets that differ at most in whether they have `id`. */
  lemma SizeChange<T>(s: set<T>, t: set<T>, id: T)
    requires forall x :: x != id ==> (x in s <==> x in t)
    ensures |t| + One(id in s) == |s| + One(id in t)
  {
    if id in s && id !in t {
      assert s == t + {id};
    } else if id !in s && id in t {
      assert t == s + {id};
    } else {
      assert s == t;
    }
  }

  /** Some member of a set. */
  lemma Member<T>(s: set<T>) returns (x: T)
    requires |s| > 0
    ensures x in s
  {
    x :| x in s;
  }
}
