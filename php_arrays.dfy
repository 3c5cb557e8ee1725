/** PHP arrays used as ordered dictionaries, and the array built-ins the
    column manager calls on them: keyed assignment, unset, array_merge,
    array_flip and asort. */
module PhpArrays {

  /** No element occurs twice. */
  ghost predicate Distinct<T>(s: seq<T>)
  {
    forall i, j :: 0 <= i < j < |s| ==> s[i] != s[j]
  }

  /** A non-empty sequence is its front followed by its last element. */
  lemma SplitLast<T>(s: seq<T>)
    requires s != []
    ensures s[..|s| - 1] + [s[|s| - 1]] == s
  {
  }

  /** The front of a repetition-free sequence is repetition-free and misses the last element. */
  lemma DistinctFront<T>(s: seq<T>)
    requires s != [] && Distinct(s)
    ensures Distinct(s[..|s| - 1]) && s[|s| - 1] !in s[..|s| - 1]
  {
  }

  /** A PHP array: its keys in insertion order, and what each key holds. */
  datatype OrderedMap<K, V> = OrderedMap(keys: seq<K>, values: map<K, V>)
  {
    /** Every key is enumerated exactly once. */
    ghost predicate Valid()
    {
      Distinct(keys) && (forall k :: k in values ==> k in keys) && (forall k :: k in keys ==> k in values)
    }
  }

  type Dict<K, V> = m: OrderedMap<K, V> | m.Valid() witness OrderedMap([], map[])

  function Empty<K, V>(): Dict<K, V>
  {
    OrderedMap([], map[])
  }

  /** $m[$k] = $v: an existing key keeps its place, a new key goes last. */
  function Put<K, V>(m: Dict<K, V>, k: K, v: V): Dict<K, V>
  {
    OrderedMap(if k in m.values then m.keys else m.keys + [k], m.values[k := v])
  }

  /** The elements of `s` that are in `pick`, in order. */
  function Keep<K>(s: seq<K>, pick: set<K>): (r: seq<K>)
    ensures forall x :: x in r ==> x in s && x in pick
    ensures forall x :: x in s && x in pick ==> x in r
    ensures Distinct(s) ==> Distinct(r)
  {
    if s == [] then []
    else
      var n := |s| - 1;
      Keep(s[..n], pick) + (if s[n] in pick then [s[n]] else [])
  }

  /** The elements of `s` that are not in `drop`, in order. */
  function Omit<K>(s: seq<K>, drop: set<K>): (r: seq<K>)
    ensures forall x :: x in r ==> x in s && x !in drop
    ensures forall x :: x in s && x !in drop ==> x in r
    ensures Distinct(s) ==> Distinct(r)
  {
    if s == [] then []
    else
      var n := |s| - 1;
      Omit(s[..n], drop) + (if s[n] in drop then [] else [s[n]])
  }

  /** Omitting from a sequence with one more element at the end. */
  lemma OmitSnoc<K>(s: seq<K>, x: K, drop: set<K>)
    ensures Omit(s + [x], drop) == Omit(s, drop) + (if x in drop then [] else [x])
  {
    assert (s + [x])[..|s|] == s;
  }

  /** Of two elements, dropping the first and keeping the second. */
  lemma OmitFirstOfTwo<K>(a: K, b: K, drop: set<K>)
    requires a in drop && b !in drop
    ensures Omit([a, b], drop) == [b]
  {
    assert [a, b][..1] == [a];
    assert [a][..0] == [];
    assert Omit([a], drop) == [];
    assert Omit([a, b], drop) == Omit([a], drop) + [b];
  }

  lemma {:induction false} OmitAppend<K>(a: seq<K>, b: seq<K>, drop: set<K>)
    ensures Omit(a + b, drop) == Omit(a, drop) + Omit(b, drop)
    decreases |b|
  {
    if b == [] {
      assert a + b == a;
    } else {
      var n := |b| - 1;
      var front, x := b[..n], b[n];
      var tail := if x in drop then [] else [x];
      calc {
        Omit(a + b, drop);
        { SplitLast(b); assert a + b == (a + front) + [x]; }
        Omit((a + front) + [x], drop);
        { OmitSnoc(a + front, x, drop); }
        Omit(a + front, drop) + tail;
        { OmitAppend(a, front, drop); }
        Omit(a, drop) + Omit(front, drop) + tail;
        { OmitSnoc(front, x, drop); SplitLast(b); }
        Omit(a, drop) + Omit(b, drop);
      }
    }
  }

  lemma {:induction false} OmitNothing<K>(s: seq<K>, drop: set<K>)
    requires forall x :: x in s ==> x !in drop
    ensures Omit(s, drop) == s
    decreases |s|
  {
    if s != [] {
      var n := |s| - 1;
      var front, x := s[..n], s[n];
      assert x !in drop;
      assert forall y :: y in front ==> y in s;
      calc {
        Omit(s, drop);
        Omit(front, drop) + [x];
        { OmitNothing(front, drop); }
        front + [x];
        { SplitLast(s); }
        s;
      }
    }
  }

  lemma {:induction false} OmitOmit<K>(s: seq<K>, a: set<K>, b: set<K>)
    ensures Omit(Omit(s, a), b) == Omit(s, a + b)
    decreases |s|
  {
    if s != [] {
      var n := |s| - 1;
      OmitOmit(s[..n], a, b);
      OmitAppend(Omit(s[..n], a), if s[n] in a then [] else [s[n]], b);
    }
  }

  /** The keys of `m` outside `drop`, and what they hold. */
  function Without<K, V>(m: Dict<K, V>, drop: set<K>): Dict<K, V>
  {
    OrderedMap(Omit(m.keys, drop), m.values - drop)
  }

  /** unset($m[$k]). */
  function Unset<K, V>(m: Dict<K, V>, k: K): Dict<K, V>
  {
    Without(m, {k})
  }

  /** Unsetting one more key extends the set of removed keys; unsetting a key
      that is absent changes nothing. */
  lemma WithoutOneMore<K, V>(m: Dict<K, V>, drop: set<K>, k: K)
    ensures Without(m, drop + {k}) == if k in Without(m, drop).values then Unset(Without(m, drop), k) else Without(m, drop)
  {
    WithoutWithout(m, drop, {k});
    if k !in Without(m, drop).values {
      UnsetAbsent(Without(m, drop), k);
    }
  }

  /** Removing nothing changes nothing. */
  lemma WithoutNothing<K, V>(m: Dict<K, V>)
    ensures Without(m, {}) == m
  {
    OmitNothing(m.keys, {});
    SubtractNothing(m.values, {});
  }

  /** unset of a key that is not there changes nothing. */
  lemma UnsetAbsent<K, V>(m: Dict<K, V>, k: K)
    requires k !in m.values
    ensures Unset(m, k) == m
  {
    OmitNothing(m.keys, {k});
    SubtractNothing(m.values, {k});
  }

  lemma SubtractNothing<K, V>(m: map<K, V>, drop: set<K>)
    requires forall k :: k in drop ==> k !in m
    ensures m - drop == m
  {
  }

  lemma WithoutWithout<K, V>(m: Dict<K, V>, a: set<K>, b: set<K>)
    ensures Without(Without(m, a), b) == Without(m, a + b)
  {
    OmitOmit(m.keys, a, b);
    SubtractTwice(m.values, a, b);
  }

  lemma SubtractTwice<K, V>(m: map<K, V>, a: set<K>, b: set<K>)
    ensures (m - a) - b == m - (a + b)
  {
  }

  /** $m[$ks[0]] = $from[$ks[0]]; $m[$ks[1]] = ...: keyed assignments in order. */
  function PutAll<K, V>(m: Dict<K, V>, ks: seq<K>, from: map<K, V>): Dict<K, V>
    requires forall k :: k in ks ==> k in from
  {
    if ks == [] then m
    else
      var n := |ks| - 1;
      Put(PutAll(m, ks[..n], from), ks[n], from[ks[n]])
  }

  /** Assigning distinct keys in order keeps the old keys in place and
      appends the new ones in their order. */
  lemma {:induction false} PutAllKeys<K, V>(m: Dict<K, V>, ks: seq<K>, from: map<K, V>)
    requires forall k :: k in ks ==> k in from
    requires Distinct(ks)
    ensures PutAll(m, ks, from).keys == m.keys + Omit(ks, m.values.Keys)
    decreases |ks|
  {
    if ks != [] {
      var n := |ks| - 1;
      var front, x := ks[..n], ks[n];
      DistinctFront(ks);
      assert forall k :: k in front ==> k in ks;
      PutAllKeys(m, front, from);
      PutAllKeysStep(m, front, x, from);
      SplitLast(ks);
    }
  }

  lemma AppendAssoc<T>(a: seq<T>, b: seq<T>, c: seq<T>)
    ensures a + (b + c) == (a + b) + c
  {
  }

  /** The step of PutAllKeys: one more key, new to the list. */
  lemma PutAllKeysStep<K, V>(m: Dict<K, V>, front: seq<K>, x: K, from: map<K, V>)
    requires x in from && forall k :: k in front ==> k in from
    requires x !in front
    requires PutAll(m, front, from).keys == m.keys + Omit(front, m.values.Keys)
    ensures PutAll(m, front + [x], from).keys == m.keys + Omit(front + [x], m.values.Keys)
  {
    var known := m.values.Keys;
    var prev := PutAll(m, front, from);
    PutAllSnoc(m, front, x, from);
    OmitSnoc(front, x, known);
    assert x !in Omit(front, known);
    assert x in prev.values <==> x in m.values by {
      assert x in prev.values <==> x in prev.keys;
      assert x in m.values <==> x in m.keys;
    }
    if x in known {
      assert Omit(front + [x], known) == Omit(front, known);
    } else {
      var before := Omit(front, known);
      assert Omit(front + [x], known) == before + [x];
      AppendAssoc(m.keys, before, [x]);
    }
  }

  /** Assigning keys in order overwrites the value of every one of them. */
  lemma {:induction false} PutAllValues<K, V>(m: Dict<K, V>, ks: seq<K>, from: map<K, V>)
    requires forall k :: k in ks ==> k in from
    ensures PutAll(m, ks, from).values == m.values + map k | k in ks :: from[k]
    decreases |ks|
  {
    if ks != [] {
      var n := |ks| - 1;
      var k := ks[n];
      PutAllValues(m, ks[..n], from);
      SplitLast(ks);
      var before := map x | x in ks[..n] :: from[x];
      assert (map x | x in ks :: from[x]) == before[k := from[k]];
      UnionUpdate(m.values, before, k, from[k]);
    }
  }

  /** The same, key by key: the assigned keys hold their new values and every
      other key keeps its old one. */
  lemma PutAllEntries<K, V>(m: Dict<K, V>, ks: seq<K>, from: map<K, V>)
    requires forall k :: k in ks ==> k in from
    ensures forall k :: k in PutAll(m, ks, from).values <==> k in m.values || k in ks
    ensures forall k :: k in ks ==> PutAll(m, ks, from).values[k] == from[k]
    ensures forall k :: k in m.values && k !in ks ==> PutAll(m, ks, from).values[k] == m.values[k]
  {
    PutAllValues(m, ks, from);
    var r := PutAll(m, ks, from).values;
    var added := map k | k in ks :: from[k];
    assert r == m.values + added;
    forall k ensures k in r <==> k in m.values || k in ks {
    }
    forall k | k in ks ensures r[k] == from[k] {
      assert k in added;
    }
    forall k | k in m.values && k !in ks ensures r[k] == m.values[k] {
      assert k !in added;
    }
  }

  lemma KeepSnoc<K>(s: seq<K>, i: int, pick: set<K>)
    requires 0 <= i < |s|
    ensures Keep(s[..i + 1], pick) == Keep(s[..i], pick) + (if s[i] in pick then [s[i]] else [])
  {
    assert s[..i + 1][..i] == s[..i];
  }

  lemma PutAllSnoc<K, V>(m: Dict<K, V>, ks: seq<K>, k: K, from: map<K, V>)
    requires k in from && forall x :: x in ks ==> x in from
    ensures PutAll(m, ks + [k], from) == Put(PutAll(m, ks, from), k, from[k])
  {
    assert (ks + [k])[..|ks|] == ks;
  }

  lemma UnionUpdate<K, V>(a: map<K, V>, b: map<K, V>, k: K, v: V)
    ensures (a + b)[k := v] == a + b[k := v]
  {
  }

  /** array_merge($a, $b) for string keys: $b's entries are assigned into $a in order. */
  function Merge<K, V>(a: Dict<K, V>, b: Dict<K, V>): Dict<K, V>
  {
    PutAll(a, b.keys, b.values)
  }

  /** array_merge keeps $a's keys first, appends $b's new keys in $b's order,
      and $b's values win on shared keys. */
  lemma MergeShape<K, V>(a: Dict<K, V>, b: Dict<K, V>)
    ensures Merge(a, b).keys == a.keys + Omit(b.keys, a.values.Keys)
    ensures Merge(a, b).values == a.values + b.values
  {
    PutAllKeys(a, b.keys, b.values);
    PutAllValues(a, b.keys, b.values);
    MapOverDomain(b.keys, b.values);
  }

  lemma MapOverDomain<K, V>(ks: seq<K>, m: map<K, V>)
    requires forall k :: k in ks <==> k in m
    ensures (map k | k in ks :: m[k]) == m
  {
  }

  /** [$k => $v]: a one-entry array. */
  function Single<K, V>(k: K, v: V): Dict<K, V>
  {
    OrderedMap([k], map[k := v])
  }

  /** array_merge([$k => $m[$k]], $m without $k): `k` moves to the front and
      the other keys keep their order... */
  lemma MergeToFrontKeys<K, V>(m: Dict<K, V>, k: K)
    requires k in m.values
    ensures Merge(Single(k, m.values[k]), Unset(m, k)).keys == [k] + Omit(m.keys, {k})
  {
    var rest := Unset(m, k);
    MergeShape(Single(k, m.values[k]), rest);
    assert Single(k, m.values[k]).values.Keys == {k};
    OmitNothing(rest.keys, {k});
  }

  /** ... and every key keeps its value. */
  lemma MergeToFrontValues<K, V>(m: Dict<K, V>, k: K)
    requires k in m.values
    ensures Merge(Single(k, m.values[k]), Unset(m, k)).values == m.values
  {
    MergeShape(Single(k, m.values[k]), Unset(m, k));
    RejoinEntry(m.values, k);
  }

  lemma RejoinEntry<K, V>(m: map<K, V>, k: K)
    requires k in m
    ensures map[k := m[k]] + (m - {k}) == m
  {
  }

  /** $r[$names[0]] = $vals[0]; $r[$names[1]] = $vals[1]; ...: assignments
      in order into an empty array. */
  function AssignAll<K, V>(names: seq<K>, vals: seq<V>): Dict<K, V>
    requires |names| == |vals|
  {
    if names == [] then Empty()
    else
      var n := |names| - 1;
      Put(AssignAll(names[..n], vals[..n]), names[n], vals[n])
  }

  /** Every assigned name becomes a key, and nothing else does. */
  lemma {:induction false} AssignAllKeys<K, V>(names: seq<K>, vals: seq<V>)
    requires |names| == |vals|
    ensures forall k :: k in AssignAll(names, vals).values ==> k in names
    ensures forall k :: k in names ==> k in AssignAll(names, vals).values
    decreases |names|
  {
    if names != [] {
      var n := |names| - 1;
      AssignAllKeys(names[..n], vals[..n]);
      SplitLast(names);
    }
  }

  /** Distinct names come out in order, each holding its own value. */
  lemma {:induction false} AssignAllDistinct<K, V>(names: seq<K>, vals: seq<V>)
    requires |names| == |vals| && Distinct(names)
    ensures AssignAll(names, vals).keys == names
    ensures forall i :: 0 <= i < |names| ==> AssignAll(names, vals).values[names[i]] == vals[i]
    decreases |names|
  {
    if names != [] {
      var n := |names| - 1;
      var front, x := names[..n], names[n];
      DistinctFront(names);
      AssignAllDistinct(front, vals[..n]);
      var prev := AssignAll(front, vals[..n]);
      assert x !in prev.values by {
        assert x !in prev.keys;
      }
      var r := AssignAll(names, vals);
      assert r == Put(prev, x, vals[n]);
      assert r.keys == front + [x] && r.values == prev.values[x := vals[n]];
      SplitLast(names);
      forall i | 0 <= i < |names| ensures r.values[names[i]] == vals[i] {
        if i < n {
          assert names[i] == front[i] && names[i] != x;
          assert vals[..n][i] == vals[i];
          assert prev.values[front[i]] == vals[..n][i];
        } else {
          assert names[i] == x;
        }
      }
    }
  }

  /** array_flip of a list: each element becomes a key holding its index. */
  function FlipList<K>(xs: seq<K>): Dict<K, int>
  {
    if xs == [] then Empty()
    else
      var n := |xs| - 1;
      Put(FlipList(xs[..n]), xs[n], n)
  }

  /** Every element of the list becomes a key, and the key holds the LAST index
      at which it occurs. */
  lemma {:induction false} FlipListLastIndex<K>(xs: seq<K>)
    ensures forall k :: k in FlipList(xs).values <==> k in xs
    ensures forall k :: k in FlipList(xs).values ==>
              0 <= FlipList(xs).values[k] < |xs| && xs[FlipList(xs).values[k]] == k
    ensures forall k, j :: k in FlipList(xs).values && FlipList(xs).values[k] < j < |xs| ==> xs[j] != k
    decreases |xs|
  {
    if xs != [] {
      var n := |xs| - 1;
      FlipListLastIndex(xs[..n]);
      assert xs[..n] + [xs[n]] == xs;
    }
  }

  /** A list without repetitions flips to its own elements in order, each
      holding its index. */
  lemma {:induction false} FlipListDistinct<K>(xs: seq<K>)
    requires Distinct(xs)
    ensures FlipList(xs).keys == xs
    ensures forall i :: 0 <= i < |xs| ==> FlipList(xs).values[xs[i]] == i
    decreases |xs|
  {
    if xs != [] {
      var n := |xs| - 1;
      DistinctFront(xs);
      FlipListDistinct(xs[..n]);
      FlipListSnoc(xs[..n], xs[n]);
      SplitLast(xs);
    }
  }

  /** One more element, new to the list, goes last holding the next index. */
  lemma FlipListSnoc<K>(front: seq<K>, x: K)
    requires x !in front
    requires FlipList(front).keys == front
    requires forall i :: 0 <= i < |front| ==> FlipList(front).values[front[i]] == i
    ensures FlipList(front + [x]).keys == front + [x]
    ensures forall i :: 0 <= i < |front| + 1 ==> FlipList(front + [x]).values[(front + [x])[i]] == i
  {
    var xs := front + [x];
    var prev := FlipList(front);
    assert xs[..|front|] == front;
    assert x !in prev.values by {
      assert x !in prev.keys;
    }
    assert xs[|xs| - 1] == x && |xs| - 1 == |front|;
    var f := FlipList(xs);
    assert f == Put(prev, x, |front|);
    assert f.keys == xs && f.values == prev.values[x := |front|];
    forall i | 0 <= i < |xs| ensures f.values[xs[i]] == i {
      if i < |front| {
        assert xs[i] == front[i] != x;
      }
    }
  }

  /** array_flip of keys `ks` holding integer positions: each position becomes a
      key holding the key that was enumerated with it. */
  function FlipPositions<K>(ks: seq<K>, pos: map<K, int>): Dict<int, K>
    requires forall k :: k in ks ==> k in pos
  {
    if ks == [] then Empty()
    else
      var n := |ks| - 1;
      Put(FlipPositions(ks[..n], pos), pos[ks[n]], ks[n])
  }

  /** array_flip of a dictionary of positions. */
  function Flip<K>(m: Dict<K, int>): Dict<int, K>
  {
    FlipPositions(m.keys, m.values)
  }

  /** Two keys sharing a position flip to a single entry holding the later key. */
  lemma FlipSamePosition<K>(a: K, b: K, p: int)
    requires a != b
    ensures Flip(Put(Single(a, p), b, p)) == Single(p, b)
  {
    var m := Put(Single(a, p), b, p);
    assert m.keys == [a, b];
    assert m.keys[..1] == [a];
    assert [a][..0] == [];
    var first := FlipPositions([a], m.values);
    assert m.values[a] == p;
    assert FlipPositions([a][..0], m.values) == Empty();
    assert first == Put(FlipPositions([a][..0], m.values), m.values[a], a);
    assert first == OrderedMap([p], map[p := a]);
    assert map[p := a][p := b] == map[p := b];
  }

  /** After array_flip every position is a key exactly once and holds one of
      the keys that had it: the last one enumerated, since any earlier one
      sharing its position is overwritten. */
  lemma {:induction false} FlipPositionsLaterWins<K>(ks: seq<K>, pos: map<K, int>)
    requires forall k :: k in ks ==> k in pos
    requires Distinct(ks)
    ensures forall i :: 0 <= i < |ks| ==> pos[ks[i]] in FlipPositions(ks, pos).values
    ensures forall p :: p in FlipPositions(ks, pos).values ==>
              FlipPositions(ks, pos).values[p] in ks && pos[FlipPositions(ks, pos).values[p]] == p
    ensures forall i, j :: 0 <= i < j < |ks| && pos[ks[i]] == pos[ks[j]] ==>
              FlipPositions(ks, pos).values[pos[ks[i]]] != ks[i]
    decreases |ks|
  {
    if ks != [] {
      var n := |ks| - 1;
      FlipPositionsLaterWins(ks[..n], pos);
      assert ks[..n] + [ks[n]] == ks;
      var f := FlipPositions(ks, pos);
      forall i, j | 0 <= i < j < |ks| && pos[ks[i]] == pos[ks[j]]
        ensures f.values[pos[ks[i]]] != ks[i]
      {
        if j < n {
          assert ks[i] == ks[..n][i] && ks[j] == ks[..n][j];
        }
      }
    }
  }

  /** When no two keys share a position, array_flip loses nothing: the positions
      come out in key order, each holding its own key. */
  lemma {:induction false} FlipPositionsInjective<K>(ks: seq<K>, pos: map<K, int>)
    requires forall k :: k in ks ==> k in pos
    requires forall i, j :: 0 <= i < j < |ks| ==> pos[ks[i]] != pos[ks[j]]
    ensures |FlipPositions(ks, pos).keys| == |ks|
    ensures forall i :: 0 <= i < |ks| ==>
              FlipPositions(ks, pos).keys[i] == pos[ks[i]] && FlipPositions(ks, pos).values[pos[ks[i]]] == ks[i]
    decreases |ks|
  {
    if ks != [] {
      var n := |ks| - 1;
      FlipPositionsInjective(ks[..n], pos);
      FlipPositionsSnoc(ks, pos);
    }
  }

  /** The step of FlipPositionsInjective: a last key with a new position adds
      that position at the end. */
  lemma FlipPositionsSnoc<K>(ks: seq<K>, pos: map<K, int>)
    requires ks != [] && forall k :: k in ks ==> k in pos
    requires forall i, j :: 0 <= i < j < |ks| ==> pos[ks[i]] != pos[ks[j]]
    requires var front := ks[..|ks| - 1];
      && |FlipPositions(front, pos).keys| == |front|
      && forall i :: 0 <= i < |front| ==>
           FlipPositions(front, pos).keys[i] == pos[front[i]] && FlipPositions(front, pos).values[pos[front[i]]] == front[i]
    ensures |FlipPositions(ks, pos).keys| == |ks|
    ensures forall i :: 0 <= i < |ks| ==>
              FlipPositions(ks, pos).keys[i] == pos[ks[i]] && FlipPositions(ks, pos).values[pos[ks[i]]] == ks[i]
  {
    var n := |ks| - 1;
    var front, x := ks[..n], ks[n];
    var prev := FlipPositions(front, pos);
    var q := pos[x];
    assert q !in prev.keys by {
      forall i | 0 <= i < n ensures prev.keys[i] != q {
        assert front[i] == ks[i];
      }
    }
    var f := FlipPositions(ks, pos);
    assert f == Put(prev, q, x);
    assert f.keys == prev.keys + [q] && f.values == prev.values[q := x];
    forall i | 0 <= i < |ks|
      ensures f.keys[i] == pos[ks[i]] && f.values[pos[ks[i]]] == ks[i]
    {
      if i < n {
        assert front[i] == ks[i];
        assert pos[ks[i]] != q;
      }
    }
  }

  /** array_flip twice over a list without repetitions: the indices come out
      in order, each holding the element at that index. */
  lemma FlipFlipList<K>(xs: seq<K>)
    requires Distinct(xs)
    ensures |Flip(FlipList(xs)).keys| == |xs|
    ensures forall i :: 0 <= i < |xs| ==> Flip(FlipList(xs)).keys[i] == i && Flip(FlipList(xs)).values[i] == xs[i]
  {
    var m := FlipList(xs);
    FlipListDistinct(xs);
    FlipPositionsInjective(xs, m.values);
  }

  /** The values of a dictionary in key order. */
  function ValuesInOrder<K, V>(m: Dict<K, V>): seq<V>
  {
    seq(|m.keys|, i requires 0 <= i < |m.keys| => m.values[m.keys[i]])
  }

  /** Insert `k` into `s` before the first key whose position is not smaller;
      keys of equal position therefore keep `k` in front. */
  function Insert<K>(k: K, s: seq<K>, pos: map<K, int>): (r: seq<K>)
    requires k in pos && forall x :: x in s ==> x in pos
    ensures multiset(r) == multiset(s) + multiset{k}
    ensures forall x :: x in r ==> x == k || x in s
    ensures |r| == |s| + 1
  {
    if s == [] || pos[k] <= pos[s[0]] then [k] + s
    else
      assert s == [s[0]] + s[1..];
      [s[0]] + Insert(k, s[1..], pos)
  }

  /** asort on the positions of `ks`: a stable insertion sort. */
  function SortKeys<K>(ks: seq<K>, pos: map<K, int>): (r: seq<K>)
    requires forall x :: x in ks ==> x in pos
    ensures multiset(r) == multiset(ks)
    ensures forall x :: x in r ==> x in ks
    ensures |r| == |ks|
  {
    if ks == [] then []
    else
      assert ks == [ks[0]] + ks[1..];
      Insert(ks[0], SortKeys(ks[1..], pos), pos)
  }

  /** Ascending by position. */
  ghost predicate SortedBy<K>(s: seq<K>, pos: map<K, int>)
    requires forall x :: x in s ==> x in pos
  {
    forall i, j :: 0 <= i < j < |s| ==> pos[s[i]] <= pos[s[j]]
  }

  /** The keys of `s` at position `p`, in order. */
  function AtPosition<K>(s: seq<K>, pos: map<K, int>, p: int): seq<K>
    requires forall x :: x in s ==> x in pos
  {
    if s == [] then []
    else (if pos[s[0]] == p then [s[0]] else []) + AtPosition(s[1..], pos, p)
  }

  /** Inserting into a sorted sequence keeps it sorted. */
  lemma {:induction false} InsertKeepsOrder<K>(k: K, s: seq<K>, pos: map<K, int>)
    requires k in pos && forall x :: x in s ==> x in pos
    requires SortedBy(s, pos)
    ensures SortedBy(Insert(k, s, pos), pos)
    decreases |s|
  {
    if s == [] {
      assert Insert(k, s, pos) == [k];
    } else {
      LeastFirst(s, pos);
      if pos[k] <= pos[s[0]] {
        SortedCons(k, s, pos);
      } else {
        var t := Insert(k, s[1..], pos);
        InsertKeepsOrder(k, s[1..], pos);
        SortedCons(s[0], t, pos);
      }
    }
  }

  /** The first key of a sorted sequence has the least position. */
  lemma LeastFirst<K>(s: seq<K>, pos: map<K, int>)
    requires s != [] && forall x :: x in s ==> x in pos
    requires SortedBy(s, pos)
    ensures SortedBy(s[1..], pos)
    ensures forall x :: x in s ==> pos[s[0]] <= pos[x]
  {
    forall i, j | 0 <= i < j < |s| - 1 ensures pos[s[1..][i]] <= pos[s[1..][j]] {
      assert s[1..][i] == s[i + 1] && s[1..][j] == s[j + 1];
    }
  }

  /** A key no later than any key of a sorted sequence can go in front of it. */
  lemma SortedCons<K>(x: K, t: seq<K>, pos: map<K, int>)
    requires x in pos && forall y :: y in t ==> y in pos
    requires SortedBy(t, pos) && forall y :: y in t ==> pos[x] <= pos[y]
    ensures SortedBy([x] + t, pos)
  {
    var r := [x] + t;
    forall i, j | 0 <= i < j < |r| ensures pos[r[i]] <= pos[r[j]] {
      assert r[j] == t[j - 1];
      if i > 0 {
        assert r[i] == t[i - 1];
      }
    }
  }

  /** Among the keys at any one position, the inserted key comes first. */
  lemma {:induction false} InsertAtPosition<K>(k: K, s: seq<K>, pos: map<K, int>, p: int)
    requires k in pos && forall x :: x in s ==> x in pos
    ensures AtPosition(Insert(k, s, pos), pos, p) == (if pos[k] == p then [k] else []) + AtPosition(s, pos, p)
    decreases |s|
  {
    var r := Insert(k, s, pos);
    var here := if pos[k] == p then [k] else [];
    if s == [] || pos[k] <= pos[s[0]] {
      assert r[1..] == s;
    } else {
      var first := if pos[s[0]] == p then [s[0]] else [];
      assert here == [] || first == [];
      calc {
        AtPosition(r, pos, p);
        { assert r[0] == s[0] && r[1..] == Insert(k, s[1..], pos); }
        first + AtPosition(Insert(k, s[1..], pos), pos, p);
        { InsertAtPosition(k, s[1..], pos, p); }
        first + (here + AtPosition(s[1..], pos, p));
        here + (first + AtPosition(s[1..], pos, p));
      }
    }
  }

  /** asort sorts by position, is a permutation, and is stable: the keys that
      share a position stay in their original relative order. */
  lemma {:induction false} SortKeysIsStableSort<K>(ks: seq<K>, pos: map<K, int>)
    requires forall x :: x in ks ==> x in pos
    ensures multiset(SortKeys(ks, pos)) == multiset(ks)
    ensures SortedBy(SortKeys(ks, pos), pos)
    ensures forall p :: AtPosition(SortKeys(ks, pos), pos, p) == AtPosition(ks, pos, p)
    decreases |ks|
  {
    if ks != [] {
      SortKeysIsStableSort(ks[1..], pos);
      InsertKeepsOrder(ks[0], SortKeys(ks[1..], pos), pos);
      forall p ensures AtPosition(SortKeys(ks, pos), pos, p) == AtPosition(ks, pos, p) {
        InsertAtPosition(ks[0], SortKeys(ks[1..], pos), pos, p);
      }
    }
  }

  lemma DistinctByMultiset<K>(s: seq<K>, t: seq<K>)
    requires multiset(s) == multiset(t) && Distinct(s)
    ensures Distinct(t)
  {
    if !Distinct(t) {
      var i, j :| 0 <= i < j < |t| && t[i] == t[j];
      RepeatCount(t, i, j);
      DistinctCount(s, t[i]);
    }
  }

  /** An element at two indices occurs at least twice. */
  lemma RepeatCount<K>(t: seq<K>, i: int, j: int)
    requires 0 <= i < j < |t| && t[i] == t[j]
    ensures multiset(t)[t[i]] >= 2
  {
    var x, a, b := t[i], t[..j], t[j..];
    assert t == a + b;
    assert multiset(t) == multiset(a) + multiset(b);
    assert x in a by {
      assert a[i] == x;
    }
    assert x in b by {
      assert b[0] == x;
    }
  }

  lemma {:induction false} DistinctCount<K>(s: seq<K>, x: K)
    requires Distinct(s)
    ensures multiset(s)[x] <= 1
    decreases |s|
  {
    if s != [] {
      assert s == [s[0]] + s[1..];
      DistinctCount(s[1..], x);
      if s[0] == x {
        assert x !in s[1..];
      }
    }
  }

  /** Two keys already in ascending order stay as they are. */
  lemma SortTwo<K>(x: K, y: K, pos: map<K, int>)
    requires x in pos && y in pos && pos[x] <= pos[y]
    ensures SortKeys([x, y], pos) == [x, y]
  {
    assert [x, y][1..] == [y];
    assert [y][1..] == [];
    assert SortKeys([y], pos) == Insert(y, [], pos);
  }

  /** Assigning two different keys in order into an empty array. */
  lemma AssignTwo<K, V>(x: K, y: K, u: V, v: V)
    requires x != y
    ensures AssignAll([x, y], [u, v]).keys == [x, y]
    ensures AssignAll([x, y], [u, v]).values == map[x := u, y := v]
  {
    assert [x, y][..1] == [x] && [u, v][..1] == [u];
    assert [x][..0] == [] && [u][..0] == [];
    assert AssignAll([x], [u]) == Put(Empty(), x, u);
  }

  /** Merging a map with keys `b, c` into one with keys `a, b` keeps `b` in
      place and appends `c`. */
  lemma MergeOverrideAppend<K, V>(a: K, b: K, c: K, first: Dict<K, V>, second: Dict<K, V>)
    requires a != b && b != c && a != c
    requires first.keys == [a, b] && second.keys == [b, c]
    ensures Merge(first, second).keys == [a, b, c]
    ensures Merge(first, second).values == first.values + second.values
  {
    MergeShape(first, second);
    assert b in first.values && c !in first.values;
    OmitFirstOfTwo(b, c, first.values.Keys);
  }

  /** Overriding the second of two entries and adding a third. */
  lemma OverrideMiddle<K>(a: K, b: K, c: K, first: map<K, int>, second: map<K, int>)
    requires a != b && b != c && a != c
    requires first == map[a := 0, b := 1] && second == map[b := 0, c := 1]
    ensures first + second == map[a := 0, b := 0, c := 1]
  {
  }

  /** asort applied to a dictionary of positions. */
  function ASort<K>(m: Dict<K, int>): (r: Dict<K, int>)
    ensures r.values == m.values
    ensures r.keys == SortKeys(m.keys, m.values)
  {
    var sorted := SortKeys(m.keys, m.values);
    DistinctByMultiset(m.keys, sorted);
    assert forall k :: k in m.keys ==> k in sorted by {
      forall k | k in m.keys ensures k in sorted {
        assert k in multiset(m.keys);
      }
    }
    OrderedMap(sorted, m.values)
  }
}
