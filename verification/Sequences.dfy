/** Sequences without duplicates or in ascending order, and the sizes of sets. */
module Sequences {

  ghost function Elements<T>(s: seq<T>): set<T> {
    set v | v in s
  }

  ghost predicate NoDuplicates<T>(s: seq<T>) {
    forall v :: v in s ==> multiset(s)[v] == 1
  }

  /** The same, position by position. */
  ghost predicate Distinct<T>(s: seq<T>) {
    forall i, j :: 0 <= i < j < |s| ==> s[i] != s[j]
  }

  lemma {:induction false} DistinctIff<T>(s: seq<T>)
    ensures Distinct(s) <==> NoDuplicates(s)
  {
    if s != [] {
      var init, last := s[..|s| - 1], s[|s| - 1];
      assert s == init + [last];
      DistinctIff(init);
      if Distinct(s) {
        DistinctJoin(init, [last]);
      }
      if NoDuplicates(s) {
        DistinctTake(s, |s| - 1);
      }
    }
  }

  ghost predicate Ascending(s: seq<nat>) {
    forall i, j :: 0 <= i < j < |s| ==> s[i] < s[j]
  }

  lemma ElementsConcat<T>(a: seq<T>, b: seq<T>)
    ensures Elements(a + b) == Elements(a) + Elements(b)
  {
  }

  lemma ElementsSnoc<T>(a: seq<T>, v: T)
    ensures Elements(a + [v]) == Elements(a) + {v}
  {
  }

  lemma ElementsNext<T>(s: seq<T>, i: nat)
    requires i < |s|
    ensures Elements(s[..i + 1]) == Elements(s[..i]) + {s[i]}
  {
    assert s[..i + 1] == s[..i] + [s[i]];
  }

  lemma TakeCounts<T>(s: seq<T>, i: nat)
    requires i < |s|
    ensures multiset(s[..i + 1]) == multiset(s[..i]) + multiset{s[i]}
    ensures multiset(s[..i + 1]) <= multiset(s)
    ensures s[i] in s
  {
    assert s[..i + 1] == s[..i] + [s[i]];
    assert s == s[..i + 1] + s[i + 1..];
  }

  lemma DistinctTake<T>(s: seq<T>, i: nat)
    requires NoDuplicates(s) && i < |s|
    ensures s[i] !in s[..i] && NoDuplicates(s[..i])
  {
    TakeCounts(s, i);
    forall v | v in s[..i]
      ensures multiset(s[..i])[v] == 1
    {
      assert v in s && multiset(s[..i])[v] <= multiset(s[..i + 1])[v] <= multiset(s)[v];
    }
  }

  /** One step of a scan over a sequence without duplicates. */
  lemma ScanStep<T>(s: seq<T>, i: nat)
    requires NoDuplicates(s) && i < |s|
    ensures Elements(s[..i + 1]) == Elements(s[..i]) + {s[i]}
    ensures s[i] !in Elements(s[..i]) && s[i] in Elements(s)
  {
    DistinctTake(s, i);
    assert s[..i + 1] == s[..i] + [s[i]];
  }

  lemma DistinctSplit<T>(a: seq<T>, b: seq<T>)
    requires NoDuplicates(a + b) && b != []
    ensures b[0] !in a && b[0] !in b[1..] && NoDuplicates(b[1..])
    ensures forall v :: v in b ==> v !in a
  {
    assert b == [b[0]] + b[1..];
    forall v
      ensures multiset(a)[v] + multiset([b[0]])[v] + multiset(b[1..])[v] <= 1
    {
      assert multiset(a + b)[v] == multiset(a)[v] + multiset(b)[v];
      assert v in a + b || multiset(a + b)[v] == 0;
    }
  }

  lemma DistinctAppend<T>(a: seq<T>, b: seq<T>)
    requires NoDuplicates(a + b) && b != []
    ensures NoDuplicates(a + [b[0]])
  {
    MoveHead(a, b);
    forall v | v in a + [b[0]]
      ensures multiset(a + [b[0]])[v] == 1
    {
      assert multiset(a + b) == multiset(a + [b[0]]) + multiset(b[1..]);
      assert v in a + b;
    }
  }

  lemma DistinctJoin<T>(a: seq<T>, b: seq<T>)
    requires NoDuplicates(a) && NoDuplicates(b)
    requires forall v :: v in b ==> v !in a
    ensures NoDuplicates(a + b)
  {
  }

  lemma {:induction false} DistinctLength<T>(s: seq<T>)
    requires NoDuplicates(s)
    ensures |Elements(s)| == |s|
  {
    if s != [] {
      var init, last := s[..|s| - 1], s[|s| - 1];
      DistinctTake(s, |s| - 1);
      DistinctLength(init);
      assert Elements(s) == Elements(init) + {last};
    }
  }

  lemma {:induction false} SubsetSize<T>(a: set<T>, b: set<T>)
    requires a <= b
    ensures |a| <= |b|
  {
    if a != {} {
      var x :| x in a;
      SubsetSize(a - {x}, b - {x});
    }
  }

  lemma MoveHead<T>(a: seq<T>, b: seq<T>)
    requires b != []
    ensures (a + [b[0]]) + b[1..] == a + b
  {
    assert b == [b[0]] + b[1..];
  }
}
