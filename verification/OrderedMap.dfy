/** The JavaScript Map: a dictionary that iterates over its keys in insertion order. Setting a key
    that is present keeps its place; deleting it and setting it again moves it to the end. */
module OrderedMaps {
  import opened Sequences

  datatype OrderedMap<V> = OrderedMap(keys: seq<string>, values: map<string, V>) {

    ghost predicate Valid() {
      NoDuplicates(keys) && Elements(keys) == values.Keys
    }

    function Put(key: string, value: V): OrderedMap<V> {
      OrderedMap(if key in values then keys else keys + [key], values[key := value])
    }

    function Remove(key: string): OrderedMap<V> {
      Restrict(values.Keys - {key})
    }

    function Restrict(alive: set<string>): OrderedMap<V> {
      OrderedMap(Keep(keys, alive), map k | k in values && k in alive :: values[k])
    }

    lemma PutValid(key: string, value: V)
      requires Valid()
      ensures Put(key, value).Valid()
    {
      if key !in values {
        DistinctJoin(keys, [key]);
      }
    }

    lemma RestrictValid(alive: set<string>)
      requires Valid()
      ensures Restrict(alive).Valid() && Restrict(alive).values.Keys == values.Keys * alive
      ensures |Restrict(alive).keys| <= |keys|
    {
      KeepExact(keys, alive);
    }

    lemma RestrictTwice(a: set<string>, b: set<string>)
      ensures Restrict(a).Restrict(b) == Restrict(a * b)
    {
      KeepTwice(keys, a, b);
    }

    lemma PutBack(key: string)
      requires key in values
      ensures Remove(key).Put(key, values[key]).values == values
    {
    }

    /** Deleting a key and setting it again with its value moves it to the end. */
    lemma Refresh(key: string)
      requires Valid() && key in values
      ensures Remove(key).Put(key, values[key]) == OrderedMap(Keep(keys, values.Keys - {key}) + [key], values)
      ensures OrderedMap(Keep(keys, values.Keys - {key}) + [key], values).Valid()
      ensures key !in Keep(keys, values.Keys - {key})
      ensures |Keep(keys, values.Keys - {key})| + 1 == |keys|
    {
      var removed := Remove(key);
      RestrictValid(values.Keys - {key});
      assert key !in Elements(removed.keys);
      removed.PutValid(key, values[key]);
      PutBack(key);
      Size();
      removed.Put(key, values[key]).Size();
    }

    /** Dropping one more key. */
    lemma RemoveOneMore(dropped: set<string>, key: string)
      requires Valid() && key in values && key !in dropped
      ensures Restrict(values.Keys - dropped).Remove(key) == Restrict(values.Keys - (dropped + {key}))
      ensures Restrict(values.Keys - (dropped + {key})).Valid()
    {
      var m := Restrict(values.Keys - dropped);
      RestrictValid(values.Keys - dropped);
      RestrictValid(values.Keys - (dropped + {key}));
      RestrictTwice(values.Keys - dropped, m.values.Keys - {key});
      assert (values.Keys - dropped) * (m.values.Keys - {key}) == values.Keys - (dropped + {key});
    }

    lemma RestrictAll()
      requires Valid()
      ensures Restrict(values.Keys) == this
    {
      KeepAll(keys, values.Keys);
    }

    lemma Size()
      requires Valid()
      ensures |keys| == |values.Keys|
    {
      DistinctLength(keys);
    }
  }

  /** The elements of `keys` that are in `alive`, in the same order. */
  function Keep(keys: seq<string>, alive: set<string>): seq<string> {
    if keys == [] then []
    else
      var last := keys[|keys| - 1];
      Keep(keys[..|keys| - 1], alive) + if last in alive then [last] else []
  }

  lemma {:induction false} KeepExact(keys: seq<string>, alive: set<string>)
    ensures Elements(Keep(keys, alive)) == Elements(keys) * alive
    ensures |Keep(keys, alive)| <= |keys|
    ensures NoDuplicates(keys) ==> NoDuplicates(Keep(keys, alive))
  {
    if keys != [] {
      var init, last := keys[..|keys| - 1], keys[|keys| - 1];
      KeepExact(init, alive);
      assert keys == init + [last];
      ElementsConcat(init, [last]);
      ElementsConcat(Keep(init, alive), if last in alive then [last] else []);
      if NoDuplicates(keys) {
        DistinctTake(keys, |keys| - 1);
        assert last !in Elements(Keep(init, alive));
        DistinctJoin(Keep(init, alive), [last]);
      }
    }
  }

  lemma {:induction false} KeepTwice(keys: seq<string>, a: set<string>, b: set<string>)
    ensures Keep(Keep(keys, a), b) == Keep(keys, a * b)
  {
    if keys != [] {
      var init, last := keys[..|keys| - 1], keys[|keys| - 1];
      KeepTwice(init, a, b);
      assert (Keep(init, a) + [last])[..|Keep(init, a)|] == Keep(init, a);
      assert Keep(init, a) + [] == Keep(init, a);
    }
  }

  lemma {:induction false} KeepAll(keys: seq<string>, alive: set<string>)
    requires Elements(keys) <= alive
    ensures Keep(keys, alive) == keys
  {
    if keys != [] {
      var init, last := keys[..|keys| - 1], keys[|keys| - 1];
      assert keys == init + [last] && Elements(keys) == Elements(init) + {last};
      KeepAll(init, alive);
    }
  }

  lemma ScanDropped(keys: seq<string>, i: nat, alive: set<string>)
    requires NoDuplicates(keys) && i < |keys|
    ensures keys[i] in Elements(keys) && keys[i] !in Elements(keys[..i]) - alive
    ensures keys[i] in alive ==> Elements(keys[..i + 1]) - alive == Elements(keys[..i]) - alive
    ensures keys[i] !in alive ==> Elements(keys[..i + 1]) - alive == Elements(keys[..i]) - alive + {keys[i]}
  {
    ScanStep(keys, i);
  }

  lemma DroppedNone<V>(m: OrderedMap<V>, alive: set<string>)
    requires m.Valid()
    ensures Elements(m.keys[..0]) - alive == {}
    ensures m.Restrict(m.values.Keys - (Elements(m.keys[..0]) - alive)) == m
  {
    m.RestrictAll();
    assert m.values.Keys - (Elements(m.keys[..0]) - alive) == m.values.Keys;
  }

  lemma DroppedAll<V>(m: OrderedMap<V>, alive: set<string>)
    requires m.Valid()
    ensures Elements(m.keys[..|m.keys|]) - alive == m.values.Keys - alive
    ensures m.Restrict(m.values.Keys - (Elements(m.keys[..|m.keys|]) - alive)) == m.Restrict(alive)
  {
    assert m.keys[..|m.keys|] == m.keys;
    RestrictSame(m, m.values.Keys - (m.values.Keys - alive), alive);
  }

  lemma {:induction false} KeepSame(keys: seq<string>, a: set<string>, b: set<string>)
    requires forall k :: k in keys ==> (k in a <==> k in b)
    ensures Keep(keys, a) == Keep(keys, b)
  {
    if keys != [] {
      KeepSame(keys[..|keys| - 1], a, b);
    }
  }

  lemma RestrictSame<V>(m: OrderedMap<V>, a: set<string>, b: set<string>)
    requires m.Valid() && m.values.Keys * a == m.values.Keys * b
    ensures m.Restrict(a) == m.Restrict(b)
  {
    forall k | k in m.keys
      ensures k in a <==> k in b
    {
      assert k in m.values.Keys;
      assert k in m.values.Keys * a <==> k in m.values.Keys * b;
    }
    KeepSame(m.keys, a, b);
    forall k | k in m.values
      ensures k in a <==> k in b
    {
      assert k in m.values.Keys * a <==> k in m.values.Keys * b;
    }
  }

  /** The keys a scan has deleted after its first `i` keys. */
  ghost function Dropped<V>(m: OrderedMap<V>, i: nat, alive: set<string>): set<string>
    requires i <= |m.keys|
  {
    Elements(m.keys[..i]) - alive
  }

  lemma ScanOne<V>(m: OrderedMap<V>, alive: set<string>, i: nat, kept: OrderedMap<V>)
    requires m.Valid() && i < |m.keys| && kept == m.Restrict(m.values.Keys - Dropped(m, i, alive))
    ensures (if m.keys[i] in alive then kept else kept.Remove(m.keys[i])) ==
            m.Restrict(m.values.Keys - Dropped(m, i + 1, alive))
    ensures |Dropped(m, i + 1, alive)| == |Dropped(m, i, alive)| + if m.keys[i] in alive then 0 else 1
  {
    ScanDropped(m.keys, i, alive);
    if m.keys[i] !in alive {
      m.RemoveOneMore(Dropped(m, i, alive), m.keys[i]);
    }
  }

  /** Scans all keys, as a for-of loop over the map does, and deletes those not in `alive`. */
  method ScanDelete<V>(m: OrderedMap<V>, alive: set<string>) returns (kept: OrderedMap<V>, removed: nat)
    requires m.Valid()
    ensures kept == m.Restrict(alive)
    ensures removed == |m.values.Keys - alive|
  {
    kept, removed := m, 0;
    DroppedNone(m, alive);
    for i := 0 to |m.keys|
      invariant kept == m.Restrict(m.values.Keys - Dropped(m, i, alive))
      invariant removed == |Dropped(m, i, alive)|
    {
      ScanOne(m, alive, i, kept);
      if m.keys[i] !in alive {
        kept := kept.Remove(m.keys[i]);
        removed := removed + 1;
      }
    }
    DroppedAll(m, alive);
  }
}
