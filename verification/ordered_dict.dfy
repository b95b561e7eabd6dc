/** Python's dict: a finite map that remembers the order in which keys were
    first inserted (the order `for k in d` and `d.keys()` visit them). It is
    kept as an association list, the keys in insertion order and the value
    of each key at the same position. The library container relies on this
    order for its dimensions, properties and extra attributes. */
module OrderedDict {
  import opened PyResult

  /** keys lists every key once, in insertion order; vals[i] is the value
      stored under keys[i]. */
  datatype ODict<K, V> = ODict(keys: seq<K>, vals: seq<V>)

  /** No element is listed twice. */
  predicate Distinct<K(==,!new)>(s: seq<K>)
  {
    forall i, j :: 0 <= i < j < |s| ==> s[i] != s[j]
  }

  /** The dict invariant: one value per key, and no key listed twice. */
  predicate Valid<K(==,!new), V>(d: ODict<K, V>)
  {
    |d.keys| == |d.vals| && Distinct(d.keys)
  }

  /** dict() */
  function Empty<K(==,!new), V>(): (d: ODict<K, V>)
    ensures Valid(d) && |d.keys| == 0
  {
    ODict([], [])
  }

  /** The position of the first occurrence of k in s. */
  function IndexOf<K(==,!new)>(s: seq<K>, k: K): (i: nat)
    requires k in s
    ensures i < |s| && s[i] == k
    ensures forall j :: 0 <= j < i ==> s[j] != k
    decreases |s|
  {
    if s[0] == k then 0 else 1 + IndexOf(s[1..], k)
  }

  /** In a list without repeats, the element at position i is found at i. */
  lemma {:induction false} IndexOfDistinct<K(!new)>(s: seq<K>, i: nat)
    requires Distinct(s) && i < |s|
    ensures IndexOf(s, s[i]) == i
  {
  }

  /** d[k] for a key that is present. */
  function Get<K(==,!new), V>(d: ODict<K, V>, k: K): (v: V)
    requires Valid(d) && k in d.keys
    ensures forall i :: 0 <= i < |d.keys| && d.keys[i] == k ==> v == d.vals[i]
  {
    d.vals[IndexOf(d.keys, k)]
  }

  /** The value at position i is the one stored under the i-th key. */
  lemma {:induction false} GetAt<K(!new), V>(d: ODict<K, V>, i: nat)
    requires Valid(d) && i < |d.keys|
    ensures Get(d, d.keys[i]) == d.vals[i]
  {
  }

  /** d[k] = v: an existing key keeps its position and gets the new value;
      a new key is appended at the end. */
  function Put<K(==,!new), V>(d: ODict<K, V>, k: K, v: V): (r: ODict<K, V>)
    requires Valid(d)
    ensures Valid(r) && k in r.keys && Get(r, k) == v
    ensures k in d.keys ==> r.keys == d.keys
    ensures k !in d.keys ==> r.keys == d.keys + [k] && r.vals == d.vals + [v]
    ensures forall i :: 0 <= i < |d.keys| && d.keys[i] != k ==> r.vals[i] == d.vals[i]
  {
    if k in d.keys then ODict(d.keys, d.vals[IndexOf(d.keys, k) := v])
    else ODict(d.keys + [k], d.vals + [v])
  }

  /** Putting an absent key appends it, wherever the dict came from. */
  lemma {:induction false} PutNew<K(!new), V>(d: ODict<K, V>, k: K, v: V)
    requires Valid(d) && k !in d.keys
    ensures Put(d, k, v) == ODict(d.keys + [k], d.vals + [v])
  {
  }

  /** for i in range(len(ks)): d[ks[i]] = vs[i] — the pairs put in one at a
      time, so a repeated key keeps its first position and its last value. */
  function PutAll<K(==,!new), V>(d: ODict<K, V>, ks: seq<K>, vs: seq<V>): (r: ODict<K, V>)
    requires Valid(d) && |ks| == |vs|
    ensures Valid(r)
    ensures forall i :: 0 <= i < |ks| ==> ks[i] in r.keys
    ensures forall i :: 0 <= i < |d.keys| ==> d.keys[i] in r.keys
    ensures forall j :: 0 <= j < |r.vals| ==> r.vals[j] in d.vals || r.vals[j] in vs
    decreases |ks|
  {
    if |ks| == 0 then d
    else
      var r := PutAll(Put(d, ks[0], vs[0]), ks[1..], vs[1..]);
      assert forall i :: 1 <= i < |ks| ==> ks[i] == ks[1..][i - 1];
      assert forall v :: v in vs[1..] ==> v in vs;
      r
  }

  /** {ks[i]: vs[i] for i in range(len(ks))} */
  function FromList<K(==,!new), V>(ks: seq<K>, vs: seq<V>): (r: ODict<K, V>)
    requires |ks| == |vs|
    ensures Valid(r)
    ensures forall i :: 0 <= i < |ks| ==> ks[i] in r.keys
    ensures forall j :: 0 <= j < |r.vals| ==> r.vals[j] in vs
  {
    PutAll(Empty(), ks, vs)
  }

  /** Putting keys that are all new appends them in order. */
  lemma {:induction false} PutAllFresh<K(!new), V>(d: ODict<K, V>, ks: seq<K>, vs: seq<V>)
    requires Valid(d) && |ks| == |vs| && Distinct(d.keys + ks)
    ensures PutAll(d, ks, vs) == ODict(d.keys + ks, d.vals + vs)
    decreases |ks|
  {
    if |ks| > 0 {
      var k := ks[0];
      assert k !in d.keys by {
        assert (d.keys + ks)[|d.keys|] == k;
        forall i | 0 <= i < |d.keys|
          ensures d.keys[i] != k
        {
          assert (d.keys + ks)[i] == d.keys[i];
        }
      }
      var e := ODict(d.keys + [k], d.vals + [vs[0]]);
      PutNew(d, k, vs[0]);
      assert d.keys + ks == e.keys + ks[1..];
      assert d.vals + vs == e.vals + vs[1..];
      PutAllFresh(e, ks[1..], vs[1..]);
    }
  }

  /** With no key repeated, the dict lists the pairs exactly as given. */
  lemma {:induction false} FromListDistinct<K(!new), V>(ks: seq<K>, vs: seq<V>)
    requires |ks| == |vs| && Distinct(ks)
    ensures FromList(ks, vs) == ODict(ks, vs)
  {
    assert [] + ks == ks;
    assert [] + vs == vs;
    PutAllFresh(Empty(), ks, vs);
  }

  /** for k in d: e[k] = d[k], starting from an empty e, rebuilds d exactly:
      the same keys, in the same order, with the same values. */
  lemma {:induction false} FromListRebuilds<K(!new), V>(d: ODict<K, V>)
    requires Valid(d)
    ensures FromList(d.keys, d.vals) == d
  {
    FromListDistinct(d.keys, d.vals);
  }

  /** A prefix of a list without repeats has none, and misses the element
      that follows it. */
  lemma {:induction false} DistinctPrefix<K(!new)>(s: seq<K>, n: nat)
    requires Distinct(s) && n < |s|
    ensures Distinct(s[..n]) && s[n] !in s[..n]
  {
  }

  /** The dict without the keys in s, the others in their old order with
      their old values. */
  function Omit<K(==,!new), V>(d: ODict<K, V>, s: set<K>): (r: ODict<K, V>)
    requires |d.keys| == |d.vals|
    ensures |r.keys| == |r.vals| <= |d.keys|
    decreases |d.keys|
  {
    if |d.keys| == 0 then d
    else
      var rest := Omit(ODict(d.keys[1..], d.vals[1..]), s);
      if d.keys[0] in s then rest
      else ODict([d.keys[0]] + rest.keys, [d.vals[0]] + rest.vals)
  }

  /** Omit keeps exactly the keys outside s, and adds no repeat. */
  lemma {:induction false} OmitMembers<K(!new), V>(d: ODict<K, V>, s: set<K>)
    requires |d.keys| == |d.vals|
    ensures forall k :: k in Omit(d, s).keys <==> k in d.keys && k !in s
    ensures Distinct(d.keys) ==> Distinct(Omit(d, s).keys)
    decreases |d.keys|
  {
    if |d.keys| > 0 {
      var tail := ODict(d.keys[1..], d.vals[1..]);
      OmitMembers(tail, s);
      assert d.keys == [d.keys[0]] + tail.keys;
    }
  }

  /** The keys Omit keeps keep their values. */
  lemma {:induction false} OmitKeeps<K(!new), V>(d: ODict<K, V>, s: set<K>, k: K)
    requires Valid(d) && k in d.keys && k !in s
    ensures Valid(Omit(d, s)) && k in Omit(d, s).keys && Get(Omit(d, s), k) == Get(d, k)
    decreases |d.keys|
  {
    var tail := ODict(d.keys[1..], d.vals[1..]);
    OmitMembers(d, s);
    OmitMembers(tail, s);
    if d.keys[0] != k {
      assert k in tail.keys by {
        assert d.keys == [d.keys[0]] + d.keys[1..];
      }
      OmitKeeps(tail, s, k);
      var i := IndexOf(tail.keys, k);
      assert d.keys[i + 1] == k;
    }
  }

  /** Omitting keys no entry has changes nothing. */
  lemma {:induction false} OmitNothing<K(!new), V>(d: ODict<K, V>, s: set<K>)
    requires |d.keys| == |d.vals| && forall i :: 0 <= i < |d.keys| ==> d.keys[i] !in s
    ensures Omit(d, s) == d
    decreases |d.keys|
  {
    if |d.keys| > 0 {
      OmitNothing(ODict(d.keys[1..], d.vals[1..]), s);
      assert d.keys == [d.keys[0]] + d.keys[1..];
      assert d.vals == [d.vals[0]] + d.vals[1..];
    }
  }

  /** Omitting a then b is omitting both at once. */
  lemma {:induction false} OmitTwice<K(!new), V>(d: ODict<K, V>, a: set<K>, b: set<K>)
    requires |d.keys| == |d.vals|
    ensures Omit(Omit(d, a), b) == Omit(d, a + b)
    decreases |d.keys|
  {
    if |d.keys| > 0 {
      OmitTwice(ODict(d.keys[1..], d.vals[1..]), a, b);
      var rest := Omit(ODict(d.keys[1..], d.vals[1..]), a);
      if d.keys[0] !in a {
        var front := ODict([d.keys[0]] + rest.keys, [d.vals[0]] + rest.vals);
        assert front.keys[1..] == rest.keys && front.vals[1..] == rest.vals;
      }
    }
  }

  /** d.pop(k): KeyError when k is absent; otherwise the dict without k,
      the remaining keys in their old order with their old values. */
  function Pop<V>(d: ODict<string, V>, k: string): (r: Result<ODict<string, V>>)
    requires Valid(d)
    ensures r.Fail? <==> k !in d.keys
    ensures r.Fail? ==> r.error == KeyError(k)
    ensures r.Ok? ==> && Valid(r.value)
                      && (forall j :: j in r.value.keys <==> j in d.keys && j != k)
                      && (forall j :: j in r.value.keys ==> Get(r.value, j) == Get(d, j))
    ensures r.Ok? ==> r.value == Omit(d, {k})
  {
    if k !in d.keys then Fail(KeyError(k))
    else
      var r := Omit(d, {k});
      OmitMembers(d, {k});
      assert forall j :: j in r.keys ==> Get(r, j) == Get(d, j) by {
        forall j | j in r.keys
          ensures Get(r, j) == Get(d, j)
        {
          OmitKeeps(d, {k}, j);
        }
      }
      Ok(r)
  }
}
