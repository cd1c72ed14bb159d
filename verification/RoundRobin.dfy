/** Cyclic choice from a sequence by a counter. */
module RoundRobin {

  /** The items in the order a round-robin index reaches them. */
  function Rotation<T>(items: seq<T>, start: nat): (r: seq<T>)
    requires items != []
    ensures |r| == |items|
  {
    items[start % |items|..] + items[..start % |items|]
  }

  lemma RotationAt<T>(items: seq<T>, start: nat, i: nat)
    requires i < |items|
    ensures Rotation(items, start)[i] == items[(start + i) % |items|]
  {
    var n := |items|;
    var q, m := start / n, start % n;
    assert start + i == n * q + (m + i);
    if m + i < n {
      ModUnique(start + i, n, q, m + i);
    } else {
      assert start + i == n * (q + 1) + (m + i - n) by { Distribute(n, q); }
      ModUnique(start + i, n, q + 1, m + i - n);
    }
  }

  lemma Distribute(n: nat, q: nat)
    ensures n * (q + 1) == n * q + n
  {
  }

  lemma Scale(n: nat, a: nat, b: nat)
    requires a <= b
    ensures n * a <= n * b
  {
  }

  lemma ModUnique(x: nat, n: nat, q: nat, r: nat)
    requires n > 0 && r < n && x == n * q + r
    ensures x % n == r
  {
    var q', r' := x / n, x % n;
    assert x == n * q' + r';
    Distribute(n, q');
    Distribute(n, q);
    if q' < q {
      Scale(n, q' + 1, q);
    } else if q' > q {
      Scale(n, q + 1, q');
    }
  }

  lemma RotationHoldsSame<T>(items: seq<T>, start: nat)
    requires items != []
    ensures multiset(Rotation(items, start)) == multiset(items)
    ensures forall x :: x in Rotation(items, start) <==> x in items
  {
    var m := start % |items|;
    assert items == items[..m] + items[m..];
    assert forall x :: x in items <==> x in multiset(items);
  }

  function Chosen<T>(items: seq<T>, counter: nat): (x: T)
    requires items != []
  {
    items[counter % |items|]
  }

  /** The choices of `|items|` consecutive counter values. */
  function Picks<T>(items: seq<T>, start: nat): (r: seq<T>)
    requires items != []
  {
    seq(|items|, i requires 0 <= i < |items| => Chosen(items, start + i))
  }

  /** They are a permutation of the items: each is chosen exactly once. */
  lemma EachChosenOnce<T>(items: seq<T>, start: nat)
    requires items != []
    ensures multiset(Picks(items, start)) == multiset(items)
  {
    hide Rotation;
    forall i | 0 <= i < |items|
      ensures Picks(items, start)[i] == Rotation(items, start)[i]
    {
      assert Picks(items, start)[i] == Chosen(items, start + i);
      RotationAt(items, start, i);
    }
    assert Picks(items, start) == Rotation(items, start);
    RotationHoldsSame(items, start);
  }
}
