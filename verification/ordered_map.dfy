/**
 Insertion-ordered dictionaries, the model of Python's `dict` and
 `collections.OrderedDict`: assigning to a key that is already present keeps
 the key where it is and replaces its value, assigning to a new key appends it.
 */
module OrderedMap {
  import opened Wrappers

  /** The entries of a dictionary in iteration order. */
  type Assoc<V> = seq<(string, V)>

  function Keys<V>(m: Assoc<V>): (ks: seq<string>)
    ensures |ks| == |m|
    ensures forall i :: 0 <= i < |m| ==> ks[i] == m[i].0
  {
    seq(|m|, i requires 0 <= i < |m| => m[i].0)
  }

  /** `d.values()`, in iteration order. */
  function Values<V>(m: Assoc<V>): (vs: seq<V>)
    ensures |vs| == |m|
    ensures forall i :: 0 <= i < |m| ==> vs[i] == m[i].1
  {
    seq(|m|, i requires 0 <= i < |m| => m[i].1)
  }

  predicate Distinct(ks: seq<string>) {
    forall i, j :: 0 <= i < j < |ks| ==> ks[i] != ks[j]
  }

  /** Taking the first entry off keeps the keys distinct, and none of the
      remaining keys is the first one. */
  lemma DistinctTail<V>(m: Assoc<V>)
    requires |m| > 0 && Distinct(Keys(m))
    ensures Distinct(Keys(m[1..]))
    ensures m[0].0 !in Keys(m[1..])
  {
    var ks := Keys(m);
    assert Keys(m[1..]) == ks[1..];
    forall j | 0 <= j < |m| - 1 ensures ks[1..][j] != m[0].0 {
      assert ks[1..][j] == ks[j + 1] && ks[0] == m[0].0;
    }
  }

  /** `d.get(k)`. */
  function Get<V>(m: Assoc<V>, k: string): (r: Option<V>)
    ensures r.Some? <==> k in Keys(m)
  {
    if |m| == 0 then None
    else if m[0].0 == k then Some(m[0].1)
    else Get(m[1..], k)
  }

  /** `d[k] = v`. */
  function Put<V>(m: Assoc<V>, k: string, v: V): (r: Assoc<V>)
    ensures |r| == if k in Keys(m) then |m| else |m| + 1
  {
    if |m| == 0 then [(k, v)]
    else if m[0].0 == k then [(k, v)] + m[1..]
    else [m[0]] + Put(m[1..], k, v)
  }

  /** After `d[k] = v`, `d[k]` is `v` and every other key reads as before. */
  lemma {:induction false} PutGet<V>(m: Assoc<V>, k: string, v: V, k': string)
    ensures Get(Put(m, k, v), k') == if k' == k then Some(v) else Get(m, k')
  {
    if |m| > 0 && m[0].0 != k {
      PutGet(m[1..], k, v, k');
    }
  }

  /** `d[k] = v` keeps an existing key in place and appends a new one. */
  lemma {:induction false} PutKeys<V>(m: Assoc<V>, k: string, v: V)
    ensures Keys(Put(m, k, v)) == if k in Keys(m) then Keys(m) else Keys(m) + [k]
  {
    if |m| > 0 {
      KeysCons(m);
      if m[0].0 != k {
        PutKeys(m[1..], k, v);
        KeysCons(Put(m, k, v));
        assert Put(m, k, v)[1..] == Put(m[1..], k, v);
      }
    }
  }

  /** After `d[k] = v` each entry is either the new pair or the entry that
      was at the same position. */
  lemma {:induction false} PutEntries<V>(m: Assoc<V>, k: string, v: V)
    ensures forall i :: 0 <= i < |Put(m, k, v)| ==>
      Put(m, k, v)[i] == (k, v) || (i < |m| && Put(m, k, v)[i] == m[i])
  {
    if |m| > 0 && m[0].0 != k {
      PutEntries(m[1..], k, v);
      var r := Put(m, k, v);
      assert r == [m[0]] + Put(m[1..], k, v);
      assert forall i :: 1 <= i < |r| ==> r[i] == Put(m[1..], k, v)[i - 1];
    }
  }

  /** Assigning a key that is not there yet appends exactly one entry. */
  lemma {:induction false} PutNew<V>(m: Assoc<V>, k: string, v: V)
    requires k !in Keys(m)
    ensures Put(m, k, v) == m + [(k, v)]
  {
    if |m| > 0 {
      assert m[0].0 == Keys(m)[0];
      assert Keys(m[1..]) == Keys(m)[1..];
      PutNew(m[1..], k, v);
      assert [m[0]] + (m[1..] + [(k, v)]) == m + [(k, v)];
    }
  }

  /** The first key, then the keys of the rest. */
  lemma KeysCons<V>(m: Assoc<V>)
    requires |m| > 0
    ensures Keys(m) == [m[0].0] + Keys(m[1..])
  {
  }

  /** The keys of all but the last pair, then the last key. */
  lemma KeysInit<V>(kvs: Assoc<V>)
    requires |kvs| > 0
    ensures Keys(kvs) == Keys(kvs[..|kvs| - 1]) + [kvs[|kvs| - 1].0]
  {
  }

  /** Assign the pairs of `kvs` one after the other, left to right. */
  function PutAll<V>(m: Assoc<V>, kvs: Assoc<V>): Assoc<V>
  {
    if |kvs| == 0 then m
    else Put(PutAll(m, kvs[..|kvs| - 1]), kvs[|kvs| - 1].0, kvs[|kvs| - 1].1)
  }

  /** Reference definition of the resulting key order: `ks` followed by each
      key of `more` that is not already there, at its first occurrence. */
  function AppendNew(ks: seq<string>, more: seq<string>): seq<string>
    decreases |more|
  {
    if |more| == 0 then ks
    else AppendNew(if more[0] in ks then ks else ks + [more[0]], more[1..])
  }

  /** Reference definition of the surviving value: the value of the LAST pair
      of `kvs` with key `k`. */
  function LastValue<V>(kvs: Assoc<V>, k: string): (r: Option<V>)
    ensures r.Some? <==> k in Keys(kvs)
    ensures r.Some? ==>
      exists i :: 0 <= i < |kvs| && kvs[i] == (k, r.value)
        && forall j :: i < j < |kvs| ==> kvs[j].0 != k
  {
    if |kvs| == 0 then None
    else if kvs[|kvs| - 1].0 == k then Some(kvs[|kvs| - 1].1)
    else
      var r := LastValue(kvs[..|kvs| - 1], k);
      assert Keys(kvs) == Keys(kvs[..|kvs| - 1]) + [kvs[|kvs| - 1].0];
      r
  }

  lemma {:induction false} AppendNewSnoc(ks: seq<string>, more: seq<string>, x: string)
    ensures AppendNew(ks, more + [x]) ==
      var a := AppendNew(ks, more); if x in a then a else a + [x]
    decreases |more|
  {
    if |more| == 0 {
      assert AppendNew(ks, [x]) == AppendNew(if x in ks then ks else ks + [x], []);
    } else {
      assert (more + [x])[1..] == more[1..] + [x];
      AppendNewSnoc(if more[0] in ks then ks else ks + [more[0]], more[1..], x);
    }
  }

  /** Key order after a run of assignments: old keys stay where they were and
      new keys follow in order of first assignment. */
  lemma {:induction false} PutAllKeys<V>(m: Assoc<V>, kvs: Assoc<V>)
    ensures Keys(PutAll(m, kvs)) == AppendNew(Keys(m), Keys(kvs))
  {
    if |kvs| > 0 {
      var init, last := kvs[..|kvs| - 1], kvs[|kvs| - 1];
      var before := PutAll(m, init);
      assert PutAll(m, kvs) == Put(before, last.0, last.1);
      PutAllKeys(m, init);
      PutKeys(before, last.0, last.1);
      KeysInit(kvs);
      AppendNewSnoc(Keys(m), Keys(init), last.0);
    }
  }

  /** Value after a run of assignments: the last one assigned to the key wins,
      and keys never assigned keep their old value. */
  lemma {:induction false} PutAllGet<V>(m: Assoc<V>, kvs: Assoc<V>, k: string)
    ensures Get(PutAll(m, kvs), k) == if k in Keys(kvs) then LastValue(kvs, k) else Get(m, k)
  {
    if |kvs| > 0 {
      var init, last := kvs[..|kvs| - 1], kvs[|kvs| - 1];
      var before := PutAll(m, init);
      assert PutAll(m, kvs) == Put(before, last.0, last.1);
      PutGet(before, last.0, last.1, k);
      KeysInit(kvs);
      if k != last.0 {
        PutAllGet(m, init, k);
        assert LastValue(kvs, k) == LastValue(init, k);
      }
    }
  }

  /** Assignments keep the keys of a dictionary distinct. */
  lemma {:induction false} PutAllDistinct<V>(m: Assoc<V>, kvs: Assoc<V>)
    requires Distinct(Keys(m))
    ensures Distinct(Keys(PutAll(m, kvs)))
  {
    if |kvs| > 0 {
      PutAllDistinct(m, kvs[..|kvs| - 1]);
      PutKeys(PutAll(m, kvs[..|kvs| - 1]), kvs[|kvs| - 1].0, kvs[|kvs| - 1].1);
    }
  }

  /** Every entry after the assignments is an entry that was there before or
      one of the assigned pairs. */
  lemma {:induction false} PutAllFrom<V>(m: Assoc<V>, kvs: Assoc<V>)
    ensures forall e :: e in PutAll(m, kvs) ==> e in m || e in kvs
  {
    if |kvs| > 0 {
      var init := kvs[..|kvs| - 1];
      var p := PutAll(m, init);
      PutAllFrom(m, init);
      PutEntries(p, kvs[|kvs| - 1].0, kvs[|kvs| - 1].1);
      forall e | e in PutAll(m, kvs)
        ensures e in m || e in kvs
      {
        var i :| 0 <= i < |PutAll(m, kvs)| && PutAll(m, kvs)[i] == e;
        if e != kvs[|kvs| - 1] {
          assert e in p;
          if e in init {
            var j :| 0 <= j < |init| && init[j] == e;
            assert kvs[j] == e;
          }
        }
      }
    }
  }

  /** Filling an empty dictionary from pairs with distinct keys reproduces the
      pairs in order. */
  lemma {:induction false} PutAllFresh<V>(kvs: Assoc<V>)
    requires Distinct(Keys(kvs))
    ensures PutAll([], kvs) == kvs
  {
    if |kvs| > 0 {
      var init := kvs[..|kvs| - 1];
      KeysInit(kvs);
      assert Keys(init) == Keys(kvs)[..|kvs| - 1];
      PutAllFresh(init);
      PutNew(init, kvs[|kvs| - 1].0, kvs[|kvs| - 1].1);
      assert init + [kvs[|kvs| - 1]] == kvs;
    }
  }

  /** With distinct keys, an entry is what `get` returns for its key. */
  lemma {:induction false} GetAt<V>(m: Assoc<V>, i: nat)
    requires Distinct(Keys(m)) && i < |m|
    ensures Get(m, m[i].0) == Some(m[i].1)
  {
    if i > 0 {
      assert Keys(m[1..]) == Keys(m)[1..];
      assert m[1..][i - 1] == m[i];
      GetAt(m[1..], i - 1);
    }
  }

  /** With distinct keys, an entry is also the last pair for its key. */
  lemma {:induction false} LastValueAt<V>(m: Assoc<V>, i: nat)
    requires Distinct(Keys(m)) && i < |m|
    ensures LastValue(m, m[i].0) == Some(m[i].1)
  {
    var init := m[..|m| - 1];
    if i < |init| {
      assert Keys(init) == Keys(m)[..|m| - 1];
      assert init[i] == m[i];
      LastValueAt(init, i);
    }
  }

  /** With distinct keys, the last pair for a key is the only one. */
  lemma LastValueIsGet<V>(m: Assoc<V>, k: string)
    requires Distinct(Keys(m))
    ensures LastValue(m, k) == Get(m, k)
  {
    if k in Keys(m) {
      var i :| 0 <= i < |m| && Keys(m)[i] == k;
      GetAt(m, i);
      LastValueAt(m, i);
    }
  }

  /** Two dictionaries with distinct keys in the same order and the same
      value for every key are the same dictionary. */
  lemma Extensionality<V>(a: Assoc<V>, b: Assoc<V>)
    requires Distinct(Keys(a)) && Keys(a) == Keys(b)
    requires forall k :: Get(a, k) == Get(b, k)
    ensures a == b
  {
    forall i | 0 <= i < |a|
      ensures a[i] == b[i]
    {
      GetAt(a, i);
      GetAt(b, i);
    }
  }

  /** Keys already present are not appended again. */
  lemma {:induction false} AppendNewPresent(ks: seq<string>, more: seq<string>)
    requires forall i :: 0 <= i < |more| ==> more[i] in ks
    ensures AppendNew(ks, more) == ks
    decreases |more|
  {
    if |more| > 0 {
      AppendNewPresent(ks, more[1..]);
    }
  }

  lemma {:induction false} AppendNewContains(ks: seq<string>, more: seq<string>)
    ensures forall x :: x in ks ==> x in AppendNew(ks, more)
    ensures forall i :: 0 <= i < |more| ==> more[i] in AppendNew(ks, more)
    decreases |more|
  {
    if |more| > 0 {
      var ks' := if more[0] in ks then ks else ks + [more[0]];
      AppendNewContains(ks', more[1..]);
      assert forall i :: 1 <= i < |more| ==> more[i] == more[1..][i - 1];
    }
  }

  /** Assigning the same pairs twice is the same as assigning them once. */
  lemma PutAllTwice<V>(m: Assoc<V>, kvs: Assoc<V>)
    requires Distinct(Keys(m))
    ensures PutAll(PutAll(m, kvs), kvs) == PutAll(m, kvs)
  {
    var once := PutAll(m, kvs);
    var twice := PutAll(once, kvs);
    PutAllKeys(m, kvs);
    PutAllKeys(once, kvs);
    AppendNewContains(Keys(m), Keys(kvs));
    AppendNewPresent(Keys(once), Keys(kvs));
    PutAllDistinct(m, kvs);
    forall k
      ensures Get(twice, k) == Get(once, k)
    {
      PutAllGet(once, kvs, k);
      PutAllGet(m, kvs, k);
    }
    Extensionality(once, twice);
  }
}
