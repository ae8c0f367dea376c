/**
 * The JavaScript plain objects the tree keeps its children in. Objects keyed by
 * names (groups, books) enumerate their keys in insertion order; objects keyed
 * by chapter or verse numbers enumerate them in ascending numeric order.
 */
module Dict {

  datatype RawDict<V> = RawDict(order: seq<string>, entries: map<string, V>)

  predicate Distinct(s: seq<string>)
  {
    forall i, j :: 0 <= i < j < |s| ==> s[i] != s[j]
  }

  /**
   * The keys listed in `order` are distinct and are exactly the keys of `entries`;
   * stated one key at a time, from the last one listed.
   */
  predicate Wf<V>(order: seq<string>, entries: map<string, V>)
  {
    if order == [] then entries == map[]
    else
      var k := order[|order| - 1];
      k in entries && k !in order[..|order| - 1] && Wf(order[..|order| - 1], entries - {k})
  }

  lemma {:induction false} WfMembers<V>(order: seq<string>, entries: map<string, V>)
    requires Wf(order, entries)
    ensures Distinct(order) && forall k :: k in entries <==> k in order
  {
    if order != [] {
      var init := order[..|order| - 1];
      var k := order[|order| - 1];
      WfMembers(init, entries - {k});
      assert order == init + [k];
      assert forall j :: j in order <==> j in init || j == k;
    } else {
      assert forall k :: k !in entries;
    }
  }

  lemma {:induction false} MembersWf<V>(order: seq<string>, entries: map<string, V>)
    requires Distinct(order) && forall k :: k in entries <==> k in order
    ensures Wf(order, entries)
  {
    if order != [] {
      var init := order[..|order| - 1];
      var k := order[|order| - 1];
      assert forall j :: j in order <==> j in init || j == k;
      MembersWf(init, entries - {k});
    } else {
      assert entries.Keys == {};
    }
  }

  /** A name-keyed object: its keys without repetition, in enumeration order, and its entries. */
  type Dict<V> = d: RawDict<V> | Wf(d.order, d.entries)
    witness RawDict([], map[])

  /** The order lists each key of the object once. */
  lemma Members<V>(d: Dict<V>)
    ensures Distinct(d.order) && forall k :: k in d.entries <==> k in d.order
  {
    WfMembers(d.order, d.entries);
  }

  function Empty<V>(): (d: Dict<V>)
    ensures d.order == [] && d.entries == map[]
  {
    RawDict([], map[])
  }

  /** The order `obj[k] = v` leaves: a new key goes to the end, an existing key keeps its place. */
  function PutOrder<V>(d: Dict<V>, k: string): seq<string>
  {
    if k in d.entries then d.order else d.order + [k]
  }

  lemma PutWf<V>(d: Dict<V>, k: string, v: V)
    ensures Wf(PutOrder(d, k), d.entries[k := v])
  {
    Members(d);
    var order := PutOrder(d, k);
    assert forall j :: j in order <==> j in d.order || j == k;
    MembersWf(order, d.entries[k := v]);
  }

  /** `obj[k] = v`. */
  function Put<V>(d: Dict<V>, k: string, v: V): (r: Dict<V>)
    ensures r.entries == d.entries[k := v]
    ensures r.order == if k in d.entries then d.order else d.order + [k]
  {
    PutWf(d, k, v);
    RawDict(PutOrder(d, k), d.entries[k := v])
  }

  /** Putting back the value a key already has changes nothing. */
  lemma PutSame<V>(d: Dict<V>, k: string)
    requires k in d.entries
    ensures Put(d, k, d.entries[k]) == d
  {
    assert d.entries[k := d.entries[k]] == d.entries;
  }

  /** `Object.fromEntries(pairs)`: the pairs are put in turn. */
  function FromEntries<V>(pairs: seq<(string, V)>): Dict<V>
  {
    if pairs == [] then Empty()
    else
      var n := |pairs| - 1;
      Put(FromEntries(pairs[..n]), pairs[n].0, pairs[n].1)
  }

  /** The keys of a list of entries, in their order. */
  function KeysOf<V>(pairs: seq<(string, V)>): (keys: seq<string>)
    ensures |keys| == |pairs| && forall i :: 0 <= i < |pairs| ==> keys[i] == pairs[i].0
  {
    seq(|pairs|, i requires 0 <= i < |pairs| => pairs[i].0)
  }

  lemma KeysOfPrefix<V>(pairs: seq<(string, V)>, n: nat)
    requires n <= |pairs|
    ensures KeysOf(pairs[..n]) == KeysOf(pairs)[..n]
  {
    assert KeysOf(pairs[..n]) == KeysOf(pairs)[..n];
  }

  /** Entries with distinct keys are enumerated in the order they were listed. */
  lemma {:induction false} FromEntriesOrder<V>(pairs: seq<(string, V)>)
    requires Distinct(KeysOf(pairs))
    ensures FromEntries(pairs).order == KeysOf(pairs)
  {
    if pairs != [] {
      var n := |pairs| - 1;
      KeysOfPrefix(pairs, n);
      FromEntriesOrder(pairs[..n]);
      Members(FromEntries(pairs[..n]));
    }
  }

  /** Entries with distinct keys each end up under their key. */
  lemma {:induction false} FromEntriesEntry<V>(pairs: seq<(string, V)>, j: nat)
    requires Distinct(KeysOf(pairs)) && j < |pairs|
    ensures pairs[j].0 in FromEntries(pairs).entries
    ensures FromEntries(pairs).entries[pairs[j].0] == pairs[j].1
  {
    var n := |pairs| - 1;
    if j < n {
      KeysOfPrefix(pairs, n);
      assert Distinct(KeysOf(pairs)[..n]);
      FromEntriesEntry(pairs[..n], j);
      assert KeysOf(pairs)[j] != KeysOf(pairs)[n];
    }
  }

  /** The keys of `s` that `m` does not have yet, in their order. */
  function NewKeys<V>(m: map<string, V>, s: seq<string>): (r: seq<string>)
    ensures Distinct(s) ==> Distinct(r)
    ensures forall k :: k in r <==> k in s && k !in m
  {
    if s == [] then []
    else
      var init := s[..|s| - 1];
      var k := s[|s| - 1];
      assert forall j :: j in s <==> j in init || j == k;
      var r := NewKeys(m, init);
      if k in m then r else r + [k]
  }

  /** `{...a, ...b}`: `b`'s entries win, `a`'s keys keep their places, new keys follow in `b`'s order. */
  function Spread<V>(a: Dict<V>, b: Dict<V>): (r: Dict<V>)
    ensures r.entries == a.entries + b.entries
    ensures r.order == a.order + NewKeys(a.entries, b.order)
  {
    Members(a);
    Members(b);
    var added := NewKeys(a.entries, b.order);
    var order := a.order + added;
    assert Distinct(order) by {
      forall i, j | 0 <= i < j < |order| ensures order[i] != order[j] {
        if j >= |a.order| {
          assert order[j] in added;
          if i >= |a.order| {
            assert order[i] == added[i - |a.order|];
          }
        }
      }
    }
    MembersWf(order, a.entries + b.entries);
    RawDict(order, a.entries + b.entries)
  }

  /** No key is new when `m` has them all. */
  lemma {:induction false} NewKeysNone<V>(m: map<string, V>, s: seq<string>)
    requires forall k :: k in s ==> k in m
    ensures NewKeys(m, s) == []
  {
    if s != [] {
      NewKeysNone(m, s[..|s| - 1]);
    }
  }

  /** Spreading in entries whose keys are all present already leaves the order as it was. */
  lemma SpreadKeepsOrder<V>(a: Dict<V>, b: Dict<V>)
    requires b.entries.Keys <= a.entries.Keys
    ensures Spread(a, b).order == a.order
  {
    Members(b);
    NewKeysNone(a.entries, b.order);
  }

  /** The position of a key in the enumeration order. */
  function IndexOf(s: seq<string>, k: string): (i: nat)
    requires k in s
    ensures i < |s| && s[i] == k
    ensures forall j :: 0 <= j < i ==> s[j] != k
  {
    if s[0] == k then 0 else 1 + IndexOf(s[1..], k)
  }

  lemma PickElement(s: set<int>) returns (x: int)
    requires s != {}
    ensures x in s
  {
    if forall y :: y !in s {
      assert false;
    }
    x :| x in s;
  }

  lemma {:induction false} MinimumExists(s: set<int>)
    requires s != {}
    ensures exists m :: m in s && forall k :: k in s ==> m <= k
    decreases |s|
  {
    var x := PickElement(s);
    var rest := s - {x};
    if forall k :: k !in rest {
      forall k | k in s ensures x <= k {
        assert k == x || k in rest;
      }
    } else {
      var y :| y in rest;
      assert |rest| < |s|;
      MinimumExists(rest);
      var m :| m in rest && forall k :: k in rest ==> m <= k;
      var least := if x < m then x else m;
      forall k | k in s ensures least <= k {
        assert k == x || k in rest;
      }
      assert least in s;
    }
  }

  /** The least element of a non-empty set of integers. */
  function Minimum(s: set<int>): (m: int)
    requires s != {}
    ensures m in s && forall k :: k in s ==> m <= k
  {
    MinimumExists(s);
    var m :| m in s && forall k :: k in s ==> m <= k;
    m
  }

  /** The keys of a number-keyed object in the order JavaScript enumerates them: ascending. */
  function SortedInts(s: set<int>): (r: seq<int>)
    ensures |r| == |s|
    ensures forall k :: k in s <==> k in r
    ensures forall i, j :: 0 <= i < j < |r| ==> r[i] < r[j]
    decreases |s|
  {
    if s == {} then []
    else
      var m := Minimum(s);
      var rest := s - {m};
      var tail := SortedInts(rest);
      assert forall k :: k in s <==> k == m || k in rest;
      [m] + tail
  }
}
