/**
 * The double-key table: an outer open-addressing table with linear probing
 * whose slots hold a first key and the inner table of second keys and
 * values under it.  The inner table is a map here.  The outer store is an
 * array that the operations overwrite in place.
 *
 * The proofs are carried by predicates and lemmas over the snapshot
 * `slots[..]` of the outer store; the class methods below use them.
 */
module DoubleKeyTables {

  datatype Error = KeyError | FullError
  datatype Result<T> = Ok(value: T) | Err(error: Error)
  datatype Status = Success | Failure(error: Error)
  datatype Option<T> = None | Some(value: T)

  /** An occupied outer slot: a first key and its inner table. */
  datatype Entry<V> = Entry(key: string, inner: map<string, V>)

  type Slots<V> = seq<Option<Entry<V>>>

  /** TABLE_SIZES */
  const DefaultSizes: seq<nat> :=
    [5, 13, 29, 53, 97, 193, 389, 769, 1543, 3079, 6151, 12289, 24593, 49157,
     98317, 196613, 393241, 786433, 1572869]

  /** HASH_BASE and the starting multiplier of both hash functions. */
  const HashBase: nat := 31
  const HashStart: nat := 31415

  /** Sizes the table can use: each at least 2 (the hash reduces modulo
      size - 1) and each larger than the one before (every rehash has room
      for all entries). */
  predicate SizesOk(sizes: seq<nat>)
  {
    |sizes| >= 1 &&
    (forall i :: 0 <= i < |sizes| ==> sizes[i] >= 2) &&
    (forall i :: 0 <= i < |sizes| - 1 ==> sizes[i] < sizes[i + 1])
  }

  // ---------------------------------------------------------------------
  // The pairs a table holds, by first key

  /** No first key is kept with an empty inner table. */
  ghost predicate NoEmptyInner<V>(c: map<string, map<string, V>>)
  {
    forall k :: k in c ==> |c[k]| > 0
  }

  /** The pairs after v is stored under (k1, k2): that pair reads v, every
      other pair is kept, and no pair is added besides it. */
  function AssignPair<V>(c: map<string, map<string, V>>, k1: string, k2: string, v: V)
    : (r: map<string, map<string, V>>)
    ensures k1 in r && k2 in r[k1] && r[k1][k2] == v
    ensures forall a, b :: a in c && b in c[a] && (a != k1 || b != k2) ==>
              a in r && b in r[a] && r[a][b] == c[a][b]
    ensures forall a, b :: a in r && b in r[a] ==> (a == k1 && b == k2) || (a in c && b in c[a])
    ensures r.Keys == c.Keys + {k1}
    ensures NoEmptyInner(c) ==> NoEmptyInner(r)
  {
    c[k1 := (if k1 in c then c[k1] else map[])[k2 := v]]
  }

  /** The pairs after (k1, k2) is removed: exactly the other pairs, with
      their values; the first key goes when no pair is left under it. */
  function RemovePair<V>(c: map<string, map<string, V>>, k1: string, k2: string)
    : (r: map<string, map<string, V>>)
    requires k1 in c
    ensures forall a, b :: a in r && b in r[a] <==> a in c && b in c[a] && (a != k1 || b != k2)
    ensures forall a, b :: a in r && b in r[a] ==> r[a][b] == c[a][b]
    ensures k1 in r <==> |c[k1] - {k2}| > 0
    ensures r.Keys <= c.Keys
    ensures NoEmptyInner(c) ==> NoEmptyInner(r)
  {
    if |c[k1] - {k2}| == 0 then c - {k1} else c[k1 := c[k1] - {k2}]
  }

  // ---------------------------------------------------------------------
  // Hashing

  /** The rolling hash of the rest of `key`, from the running `value` and
      multiplier `a`, modulo `m`. */
  function HashFrom(key: string, m: nat, value: nat, a: nat): (r: nat)
    requires m >= 2
    ensures value < m || |key| > 0 ==> r < m
    ensures |key| == 0 ==> r == value
  {
    if |key| == 0 then value
    else HashFrom(key[1..], m, ((key[0] as int) + a * value) % m, a * HashBase % (m - 1))
  }

  /** hash1 on a table of size m, and hash2 on an inner table of size m. */
  function PolyHash(key: string, m: nat): (r: nat)
    requires m >= 2
    ensures r < m
    ensures |key| == 0 ==> r == 0
  {
    HashFrom(key, m, 0, HashStart)
  }

  /** The loop shared by hash1 and hash2. */
  method HashKey(key: string, m: nat) returns (value: nat)
    requires m >= 2
    ensures value == PolyHash(key, m)
  {
    value := 0;
    var a: nat := HashStart;
    var i := 0;
    while i < |key|
      invariant 0 <= i <= |key|
      invariant value < m
      invariant HashFrom(key[i..], m, value, a) == PolyHash(key, m)
    {
      assert key[i..][1..] == key[i + 1..];
      value := ((key[i] as int) + a * value) % m;
      a := a * HashBase % (m - 1);
      i := i + 1;
    }
  }

  // ---------------------------------------------------------------------
  // Positions on the ring of n slots

  /** The slot d probe steps after h. */
  function Forward(h: nat, d: nat, n: nat): (r: nat)
    requires h < n && d <= n
    ensures r < n
  {
    if h + d < n then h + d else h + d - n
  }

  /** The number of probe steps from h to q. */
  function Dist(h: nat, q: nat, n: nat): (r: nat)
    requires h < n && q < n
    ensures r < n && Forward(h, r, n) == q
  {
    if h <= q then q - h else q + n - h
  }

  /** (position + 1) % n */
  function Next(p: nat, n: nat): (r: nat)
    requires p < n
    ensures r < n && r == Forward(p, 1, n)
  {
    if p + 1 == n then 0 else p + 1
  }

  /** The next probe position, as the code computes it. */
  lemma NextStep(h: nat, d: nat, n: nat)
    requires h < n && d < n
    ensures (Forward(h, d, n) + 1) % n == Next(Forward(h, d, n), n) == Forward(h, d + 1, n)
  {
    var p := Forward(h, d, n);
    if p + 1 < n {
      assert (p + 1) % n == p + 1;
    } else {
      assert (p + 1) % n == 0;
    }
  }

  lemma DistForward(h: nat, d: nat, n: nat)
    requires h < n && d < n
    ensures Dist(h, Forward(h, d, n), n) == d
  {
  }

  // ---------------------------------------------------------------------
  // The invariant of the outer store

  /** The number of occupied slots. */
  function Filled<V>(s: Slots<V>): nat
  {
    if |s| == 0 then 0 else Filled(s[..|s| - 1]) + (if s[|s| - 1].Some? then 1 else 0)
  }

  /** Probing for `k` from its hash meets only occupied slots before q. */
  ghost predicate Reachable<V>(s: Slots<V>, k: string, q: nat)
    requires |s| >= 2 && q < |s|
  {
    var h := PolyHash(k, |s|);
    forall d :: 0 <= d < Dist(h, q, |s|) ==> s[Forward(h, d, |s|)].Some?
  }

  /** Every slot from c up to and including q is occupied. */
  ghost predicate InRun<V>(s: Slots<V>, c: nat, q: nat)
    requires c < |s| && q < |s|
  {
    forall d :: 0 <= d <= Dist(c, q, |s|) ==> s[Forward(c, d, |s|)].Some?
  }

  /** The bookkeeping that ties the slots to the table's meaning: `index`
      gives the slot of every first key, that slot holds the key and its
      inner table, every occupied slot is the slot of its own key (so no key
      occupies two slots), and `count` is the number of occupied slots. */
  ghost predicate Layout<V>(s: Slots<V>, contents: map<string, map<string, V>>,
                            index: map<string, nat>, count: int)
  {
    |s| >= 2 && index.Keys == contents.Keys && count == Filled(s) &&
    (forall k :: k in index ==> index[k] < |s| && s[index[k]] == Some(Entry(k, contents[k]))) &&
    (forall i :: 0 <= i < |s| && s[i].Some? ==> s[i].value.key in index && index[s[i].value.key] == i)
  }

  /** The table invariant: the layout, and every key reachable by probing. */
  ghost predicate Inv<V>(s: Slots<V>, contents: map<string, map<string, V>>,
                         index: map<string, nat>, count: int)
  {
    Layout(s, contents, index, count) &&
    forall k :: k in index ==> Reachable(s, k, index[k])
  }

  /** The invariant during cluster repair at slot c: a key that is not
      reachable lies in the occupied run that starts at c. */
  ghost predicate RepairInv<V>(s: Slots<V>, contents: map<string, map<string, V>>,
                               index: map<string, nat>, count: int, c: nat)
  {
    Layout(s, contents, index, count) && c < |s| &&
    forall k :: k in index ==> Reachable(s, k, index[k]) || InRun(s, c, index[k])
  }

  // ---------------------------------------------------------------------
  // Counting occupied slots

  lemma {:induction false} FilledUpdate<V>(s: Slots<V>, i: nat, x: Option<Entry<V>>)
    requires i < |s|
    ensures Filled(s[i := x]) == Filled(s) - (if s[i].Some? then 1 else 0) + (if x.Some? then 1 else 0)
  {
    var n := |s|;
    if i == n - 1 {
      assert s[i := x][..n - 1] == s[..n - 1];
    } else {
      assert s[i := x][..n - 1] == s[..n - 1][i := x];
      FilledUpdate(s[..n - 1], i, x);
    }
  }

  /** A table with an empty slot is not full. */
  lemma {:induction false} FilledBelow<V>(s: Slots<V>, i: nat)
    requires i < |s| && s[i].None?
    ensures Filled(s) < |s|
  {
    var n := |s|;
    FilledAtMost(s[..n - 1]);
    if i < n - 1 {
      assert s[..n - 1][i] == s[i];
      FilledBelow(s[..n - 1], i);
    }
  }

  lemma {:induction false} FilledAtMost<V>(s: Slots<V>)
    ensures Filled(s) <= |s|
  {
    if |s| > 0 {
      FilledAtMost(s[..|s| - 1]);
    }
  }

  /** A table whose every slot is occupied is full. */
  lemma {:induction false} FilledAll<V>(s: Slots<V>)
    requires forall i :: 0 <= i < |s| ==> s[i].Some?
    ensures Filled(s) == |s|
  {
    if |s| > 0 {
      FilledAll(s[..|s| - 1]);
    }
  }

  /** A probe of n steps from any slot visits every slot once. */
  lemma ProbeCovers<V>(s: Slots<V>, h: nat)
    requires h < |s|
    requires forall d :: 0 <= d < |s| ==> s[Forward(h, d, |s|)].Some?
    ensures Filled(s) == |s|
  {
    forall i | 0 <= i < |s| ensures s[i].Some? {
      assert Forward(h, Dist(h, i, |s|), |s|) == i;
    }
    FilledAll(s);
  }

  // ---------------------------------------------------------------------
  // Probing

  /** A stored key is met by probing from its hash: at distance
      Dist(h, index[k]), after only occupied slots holding other keys. */
  lemma ProbeFinds<V>(s: Slots<V>, contents: map<string, map<string, V>>,
                      index: map<string, nat>, count: int, k: string)
    requires Inv(s, contents, index, count)
    ensures k in index ==>
              var h, q := PolyHash(k, |s|), index[k];
              s[Forward(h, Dist(h, q, |s|), |s|)] == Some(Entry(k, contents[k])) &&
              forall d :: 0 <= d < Dist(h, q, |s|) ==>
                s[Forward(h, d, |s|)].Some? && s[Forward(h, d, |s|)].value.key != k
  {
    if k in index {
      var n, h, q := |s|, PolyHash(k, |s|), index[k];
      forall d | 0 <= d < Dist(h, q, n)
        ensures s[Forward(h, d, n)].Some? && s[Forward(h, d, n)].value.key != k
      {
        var j := Forward(h, d, n);
        assert Reachable(s, k, q);
        DistForward(h, d, n);
        assert index[s[j].value.key] == j;
      }
    }
  }

  /** An occupied slot keeps every probe that passes it; so filling a slot
      keeps reachability and runs. */
  lemma Monotone<V>(s: Slots<V>, t: Slots<V>, k: string, c: nat, q: nat)
    requires |s| == |t| >= 2 && c < |s| && q < |s|
    requires forall i :: 0 <= i < |s| && s[i].Some? ==> t[i].Some?
    ensures Reachable(s, k, q) ==> Reachable(t, k, q)
    ensures InRun(s, c, q) ==> InRun(t, c, q)
  {
  }

  /** Placing a new key at the first free slot of its probe keeps the
      invariant, with the key added and one more slot occupied. */
  lemma InsertInv<V>(s: Slots<V>, contents: map<string, map<string, V>>,
                     index: map<string, nat>, count: int, e: Entry<V>, p: nat)
    requires Inv(s, contents, index, count)
    requires e.key !in index && p < |s| && s[p].None? && Reachable(s, e.key, p)
    ensures Inv(s[p := Some(e)], contents[e.key := e.inner], index[e.key := p], count + 1)
  {
    var t := s[p := Some(e)];
    FilledUpdate(s, p, Some(e));
    forall k | k in index ensures Reachable(t, k, index[k]) {
      Monotone(s, t, k, 0, index[k]);
    }
    Monotone(s, t, e.key, 0, p);
  }

  /** Writing a new inner table under a stored key keeps the invariant. */
  lemma ReplaceInv<V>(s: Slots<V>, contents: map<string, map<string, V>>,
                      index: map<string, nat>, count: int, k: string, m: map<string, V>)
    requires Inv(s, contents, index, count) && k in index
    ensures Inv(s[index[k] := Some(Entry(k, m))], contents[k := m], index, count)
  {
    var t := s[index[k] := Some(Entry(k, m))];
    FilledUpdate(s, index[k], Some(Entry(k, m)));
    forall k' | k' in index ensures Reachable(t, k', index[k']) {
      Monotone(s, t, k', 0, index[k']);
    }
  }

  // ---------------------------------------------------------------------
  // Deletion and cluster repair

  lemma ForwardCompose(h: nat, a: nat, b: nat, n: nat)
    requires h < n && a + b < n
    ensures Forward(Forward(h, a, n), b, n) == Forward(h, a + b, n)
  {
  }

  lemma DistSplit(h: nat, c: nat, q: nat, n: nat)
    requires h < n && c < n && q < n && Dist(h, c, n) <= Dist(h, q, n)
    ensures Dist(c, q, n) == Dist(h, q, n) - Dist(h, c, n)
  {
  }

  /** A run from c that goes beyond c still runs from the slot after c
      once c is emptied. */
  lemma RunAfterClear<V>(s: Slots<V>, c: nat, q: nat)
    requires |s| >= 2 && c < |s| && q < |s| && q != c && InRun(s, c, q)
    ensures InRun(s[c := None], Next(c, |s|), q)
  {
    var n, c' := |s|, Next(c, |s|);
    assert Dist(c', q, n) == Dist(c, q, n) - 1;
    forall d | 0 <= d <= Dist(c', q, n) ensures s[c := None][Forward(c', d, n)].Some? {
      ForwardCompose(c, 1, d, n);
      DistForward(c, d + 1, n);
    }
  }

  /** A probe that stops before c is not affected by emptying c. */
  lemma ReachAfterClear<V>(s: Slots<V>, c: nat, k: string, q: nat)
    requires |s| >= 2 && c < |s| && q < |s| && Reachable(s, k, q)
    requires Dist(PolyHash(k, |s|), c, |s|) >= Dist(PolyHash(k, |s|), q, |s|)
    ensures Reachable(s[c := None], k, q)
  {
    var n, h := |s|, PolyHash(k, |s|);
    forall d | 0 <= d < Dist(h, q, n) ensures s[c := None][Forward(h, d, n)].Some? {
      DistForward(h, d, n);
    }
  }

  /** A probe that passes c on its way to an occupied slot q makes the
      slots from c to q a run. */
  lemma ReachPassesThrough<V>(s: Slots<V>, c: nat, k: string, q: nat)
    requires |s| >= 2 && c < |s| && q < |s| && Reachable(s, k, q) && s[q].Some?
    requires Dist(PolyHash(k, |s|), c, |s|) < Dist(PolyHash(k, |s|), q, |s|)
    ensures InRun(s, c, q)
  {
    var n, h := |s|, PolyHash(k, |s|);
    DistSplit(h, c, q, n);
    forall d | 0 <= d <= Dist(c, q, n) ensures s[Forward(c, d, n)].Some? {
      ForwardCompose(h, Dist(h, c, n), d, n);
    }
  }

  /** Emptying a slot c: a key that was reachable, or in the run from c,
      is afterwards reachable or in the run from the slot after c. */
  lemma ClearKeeps<V>(s: Slots<V>, c: nat, k: string, q: nat)
    requires |s| >= 2 && c < |s| && q < |s| && q != c && s[q].Some?
    requires Reachable(s, k, q) || InRun(s, c, q)
    ensures Reachable(s[c := None], k, q) || InRun(s[c := None], Next(c, |s|), q)
  {
    var h := PolyHash(k, |s|);
    if InRun(s, c, q) {
      RunAfterClear(s, c, q);
    } else if Dist(h, c, |s|) >= Dist(h, q, |s|) {
      ReachAfterClear(s, c, k, q);
    } else {
      ReachPassesThrough(s, c, k, q);
      RunAfterClear(s, c, q);
    }
  }

  /** Removing a stored key clears its slot and starts the repair at the
      slot after it. */
  lemma RemoveStart<V>(s: Slots<V>, contents: map<string, map<string, V>>,
                       index: map<string, nat>, count: int, k: string)
    requires Inv(s, contents, index, count) && k in index
    ensures RepairInv(s[index[k] := None], contents - {k}, index - {k}, count - 1, Next(index[k], |s|))
  {
    var c := index[k];
    var t := s[c := None];
    FilledUpdate(s, c, None);
    forall k' | k' in index - {k}
      ensures Reachable(t, k', index[k']) || InRun(t, Next(c, |s|), index[k'])
    {
      ClearKeeps(s, c, k', index[k']);
    }
  }

  /** The summed probe distances of all occupied slots of s, each taken in
      a table of n slots. */
  ghost function Displacement<V>(s: Slots<V>, n: nat): nat
    requires |s| <= n && n >= 2
  {
    if |s| == 0 then 0
    else Displacement(s[..|s| - 1], n) + Disp(s[|s| - 1], |s| - 1, n)
  }

  ghost function Disp<V>(x: Option<Entry<V>>, i: nat, n: nat): nat
    requires i < n && n >= 2
  {
    if x.Some? then Dist(PolyHash(x.value.key, n), i, n) else 0
  }

  lemma {:induction false} DisplacementUpdate<V>(s: Slots<V>, n: nat, i: nat, x: Option<Entry<V>>)
    requires |s| <= n && n >= 2 && i < |s|
    ensures Displacement(s[i := x], n) == Displacement(s, n) - Disp(s[i], i, n) + Disp(x, i, n)
  {
    var m := |s|;
    if i == m - 1 {
      assert s[i := x][..m - 1] == s[..m - 1];
    } else {
      assert s[i := x][..m - 1] == s[..m - 1][i := x];
      DisplacementUpdate(s[..m - 1], n, i, x);
    }
  }

  /** One repair step: the entry at c is taken out and placed at the first
      free slot of its probe.  The repair invariant moves on to the next
      slot, and the entry either lands where it was or strictly closer to
      its hash. */
  lemma RepairStep<V>(s: Slots<V>, contents: map<string, map<string, V>>,
                      index: map<string, nat>, count: int, c: nat, p: nat)
    requires RepairInv(s, contents, index, count, c) && s[c].Some?
    requires p < |s| && s[c := None][p].None? && Reachable(s[c := None], s[c].value.key, p)
    ensures RepairInv(s[c := None][p := s[c]], contents, index[s[c].value.key := p], count, Next(c, |s|))
    ensures p == c ==> s[c := None][p := s[c]] == s
    ensures p != c ==> Displacement(s[c := None][p := s[c]], |s|) < Displacement(s, |s|)
  {
    StepLayout(s, contents, index, count, c, p);
    StepRuns(s, contents, index, count, c, p);
    if p != c {
      StepCloser(s, c, p);
    }
  }

  lemma StepLayout<V>(s: Slots<V>, contents: map<string, map<string, V>>,
                      index: map<string, nat>, count: int, c: nat, p: nat)
    requires Layout(s, contents, index, count) && c < |s| && s[c].Some?
    requires p < |s| && s[c := None][p].None?
    ensures Layout(s[c := None][p := s[c]], contents, index[s[c].value.key := p], count)
  {
    var t := s[c := None];
    FilledUpdate(s, c, None);
    FilledUpdate(t, p, s[c]);
  }

  lemma StepRuns<V>(s: Slots<V>, contents: map<string, map<string, V>>,
                    index: map<string, nat>, count: int, c: nat, p: nat)
    requires RepairInv(s, contents, index, count, c) && s[c].Some?
    requires p < |s| && s[c := None][p].None? && Reachable(s[c := None], s[c].value.key, p)
    ensures forall k :: k in index ==>
              Reachable(s[c := None][p := s[c]], k, index[s[c].value.key := p][k]) ||
              InRun(s[c := None][p := s[c]], Next(c, |s|), index[s[c].value.key := p][k])
  {
    var n, e := |s|, s[c].value;
    var t := s[c := None];
    var u := t[p := Some(e)];
    forall k | k in index
      ensures Reachable(u, k, index[e.key := p][k]) || InRun(u, Next(c, n), index[e.key := p][k])
    {
      if k == e.key {
        Monotone(t, u, k, Next(c, n), p);
      } else {
        StepKeeps(s, c, p, k, index[k]);
      }
    }
  }

  /** A key that stays where it is through one repair step. */
  lemma StepKeeps<V>(s: Slots<V>, c: nat, p: nat, k: string, q: nat)
    requires |s| >= 2 && c < |s| && s[c].Some? && p < |s| && s[c := None][p].None?
    requires q < |s| && q != c && s[q].Some? && (Reachable(s, k, q) || InRun(s, c, q))
    ensures Reachable(s[c := None][p := s[c]], k, q) || InRun(s[c := None][p := s[c]], Next(c, |s|), q)
  {
    ClearKeeps(s, c, k, q);
    Monotone(s[c := None], s[c := None][p := s[c]], k, Next(c, |s|), q);
  }

  lemma StepCloser<V>(s: Slots<V>, c: nat, p: nat)
    requires |s| >= 2 && c < |s| && s[c].Some? && c != p
    requires p < |s| && s[c := None][p].None? && Reachable(s[c := None], s[c].value.key, p)
    ensures Displacement(s[c := None][p := s[c]], |s|) < Displacement(s, |s|)
  {
    var n, e := |s|, s[c].value;
    var t := s[c := None];
    var h := PolyHash(e.key, n);
    assert Dist(h, p, n) < Dist(h, c, n);
    DisplacementUpdate(s, n, c, None);
    DisplacementUpdate(t, n, p, Some(e));
  }

  /** The repair ends at an empty slot, where the run is empty and the
      invariant holds again. */
  lemma RepairDone<V>(s: Slots<V>, contents: map<string, map<string, V>>,
                      index: map<string, nat>, count: int, c: nat)
    requires RepairInv(s, contents, index, count, c) && s[c].None?
    ensures Inv(s, contents, index, count)
  {
    forall k | k in index ensures Reachable(s, k, index[k]) {
      assert Forward(c, 0, |s|) == c;
    }
  }

  /** A store with every slot empty holds nothing. */
  lemma {:induction false} EmptyInv<V>(s: Slots<V>)
    requires |s| >= 2 && forall i :: 0 <= i < |s| ==> s[i].None?
    ensures Inv(s, map[], map[], 0)
  {
    NoneFilled(s);
  }

  lemma {:induction false} NoneFilled<V>(s: Slots<V>)
    requires forall i :: 0 <= i < |s| ==> s[i].None?
    ensures Filled(s) == 0
  {
    if |s| > 0 {
      NoneFilled(s[..|s| - 1]);
    }
  }

  /** Where a probe for `k` that has met d occupied slots holding other keys
      stops: at an empty slot the key is absent and may go there; at the
      key's own slot; or after all n slots, with the key absent and the
      table full. */
  lemma ProbeOutcome<V>(s: Slots<V>, contents: map<string, map<string, V>>,
                        index: map<string, nat>, count: int, k: string, d: nat)
    requires Inv(s, contents, index, count) && d <= |s|
    requires var h := PolyHash(k, |s|);
             forall d' :: 0 <= d' < d ==> s[Forward(h, d', |s|)].Some? && s[Forward(h, d', |s|)].value.key != k
    ensures var n, h := |s|, PolyHash(k, |s|);
            (d < n && s[Forward(h, d, n)].None? ==>
               k !in index && Reachable(s, k, Forward(h, d, n)) && Filled(s) < n) &&
            (d < n && s[Forward(h, d, n)].Some? && s[Forward(h, d, n)].value.key == k ==>
               k in index && index[k] == Forward(h, d, n)) &&
            (d == n ==> k !in index && Filled(s) == n)
  {
    var n, h := |s|, PolyHash(k, |s|);
    ProbeFinds(s, contents, index, count, k);
    if d < n {
      DistForward(h, d, n);
      if s[Forward(h, d, n)].None? {
        FilledBelow(s, Forward(h, d, n));
      }
    } else {
      ProbeCovers(s, h);
    }
  }

  /** A probe that has met d + 1 occupied slots of a table of d + 1 slots
      has found it full. */
  lemma ProbeFull<V>(s: Slots<V>, h: nat, d: nat)
    requires h < |s| && d < |s|
    ensures (forall d' :: 0 <= d' <= d ==> s[Forward(h, d', |s|)].Some?) && d + 1 == |s| ==>
              Filled(s) == |s|
  {
    if (forall d' :: 0 <= d' <= d ==> s[Forward(h, d', |s|)].Some?) && d + 1 == |s| {
      ProbeCovers(s, h);
    }
  }

  /** _linear_probe for a first key that is not in the table: the entry goes
      to the first empty slot met by probing from its hash.  Cluster repair
      and rehash place entries this way. */
  method PlaceFirstFree<V>(a: array<Option<Entry<V>>>, e: Entry<V>) returns (p: nat)
    requires a.Length >= 2 && Filled(a[..]) < a.Length
    modifies a
    ensures p < a.Length && old(a[p]).None? && Reachable(old(a[..]), e.key, p)
    ensures a[..] == old(a[..])[p := Some(e)]
  {
    var n := a.Length;
    var h := HashKey(e.key, n);
    p := h;
    var d := 0;
    while a[p].Some?
      invariant a[..] == old(a[..])
      invariant 0 <= d < n && p == Forward(h, d, n)
      invariant forall d' :: 0 <= d' < d ==> a[Forward(h, d', n)].Some?
      decreases n - d
    {
      ProbeFull(a[..], h, d);
      NextStep(h, d, n);
      p := (p + 1) % n;
      d := d + 1;
    }
    DistForward(h, d, n);
    a[p] := Some(e);
  }

  /** Below slot j, the occupied slots are exactly the slots of the keys
      whose slot is below j. */
  lemma {:induction false} FilledKeys<V>(s: Slots<V>, contents: map<string, map<string, V>>,
                                         index: map<string, nat>, count: int, j: nat)
    requires Layout(s, contents, index, count) && j <= |s|
    ensures Filled(s[..j]) == |set k | k in index && index[k] < j|
  {
    if j == 0 {
      assert (set k | k in index && index[k] < j) == {};
    } else {
      FilledKeys(s, contents, index, count, j - 1);
      assert s[..j][..j - 1] == s[..j - 1];
      var below := set k | k in index && index[k] < j - 1;
      var upto := set k | k in index && index[k] < j;
      if s[j - 1].Some? {
        var k0 := s[j - 1].value.key;
        assert upto == below + {k0};
      } else {
        assert upto == below;
      }
    }
  }

  /** The count of occupied slots is the number of first keys. */
  lemma CountIsKeys<V>(s: Slots<V>, contents: map<string, map<string, V>>,
                       index: map<string, nat>, count: int)
    requires Layout(s, contents, index, count)
    ensures count == |contents.Keys|
  {
    FilledKeys(s, contents, index, count, |s|);
    assert s[..|s|] == s;
    assert (set k | k in index && index[k] < |s|) == index.Keys;
  }

  /** The distance to a slot other than c shrinks by one when c advances. */
  lemma DistNext(c: nat, z: nat, n: nat)
    requires n >= 2 && c < n && z < n && c != z
    ensures Dist(Next(c, n), z, n) + 1 == Dist(c, z, n)
  {
    DistForward(c, 1, n);
    DistSplit(c, Next(c, n), z, n);
  }

  /** A second update of the same key replaces the first. */
  lemma Overwrite<K, W>(m: map<K, W>, k: K, a: W, b: W)
    ensures m[k := a][k := b] == m[k := b]
  {
  }

  /** The pairs of the first keys whose slot is below i. */
  ghost function Below<V>(contents: map<string, map<string, V>>, index: map<string, nat>, i: nat)
    : (r: map<string, map<string, V>>)
    requires index.Keys == contents.Keys
    ensures forall k :: k in r <==> k in contents && index[k] < i
  {
    map k | k in contents && index[k] < i :: contents[k]
  }

  /** Passing slot i adds the entry stored there, if any. */
  lemma BelowStep<V>(s: Slots<V>, contents: map<string, map<string, V>>,
                     index: map<string, nat>, count: int, i: nat)
    requires Layout(s, contents, index, count) && i < |s|
    ensures s[i].None? ==> Below(contents, index, i + 1) == Below(contents, index, i)
    ensures s[i].Some? ==>
              s[i].value.key !in Below(contents, index, i) &&
              Below(contents, index, i + 1) == Below(contents, index, i)[s[i].value.key := s[i].value.inner]
  {
  }

  /** Below the size of the store lie all the first keys. */
  lemma BelowAll<V>(s: Slots<V>, contents: map<string, map<string, V>>,
                    index: map<string, nat>, count: int)
    requires Layout(s, contents, index, count)
    ensures Below(contents, index, |s|) == contents
  {
  }

  /** Where the probe loop of _linear_probe stops. */
  datatype Stop = Free(at: nat) | Found(at: nat) | Full

  /** The probe loop of _linear_probe: from the hash of `k`, step over slots
      holding other keys, for at most one round.  It stops at the slot of
      `k`, or at an empty slot (the key is absent and may be placed there),
      or after a full round (the key is absent and every slot occupied). */
  method Seek<V>(a: array<Option<Entry<V>>>, k: string, ghost contents: map<string, map<string, V>>,
                 ghost index: map<string, nat>, ghost count: int) returns (r: Stop)
    requires Inv(a[..], contents, index, count)
    ensures r.Found? ==> k in index && index[k] == r.at
    ensures r.Free? ==>
              r.at < a.Length && a[r.at].None? && k !in index &&
              Reachable(a[..], k, r.at) && Filled(a[..]) < a.Length
    ensures r.Full? ==> k !in index && Filled(a[..]) == a.Length
  {
    var n := a.Length;
    var h := HashKey(k, n);
    var position := h;
    var d := 0;
    while d < n && a[position].Some? && a[position].value.key != k
      invariant 0 <= d <= n && position == Forward(h, d, n)
      invariant forall d' :: 0 <= d' < d ==>
                  a[Forward(h, d', n)].Some? && a[Forward(h, d', n)].value.key != k
    {
      NextStep(h, d, n);
      position := (position + 1) % n;
      d := d + 1;
    }
    ProbeOutcome(a[..], contents, index, count, k, d);
    if d == n {
      return Full;
    } else if a[position].None? {
      return Free(position);
    }
    return Found(position);
  }

  /** The reinsertion loop of _rehash: every entry of `src`, in slot order,
      goes to the first free slot of its probe in the empty, larger `dst`.
      The result holds the same pairs, with their count. */
  method Reinsert<V>(src: array<Option<Entry<V>>>, ghost contents: map<string, map<string, V>>,
                     ghost index: map<string, nat>, count: int, dst: array<Option<Entry<V>>>)
      returns (ghost where: map<string, nat>, cnt: int)
    requires src != dst && Layout(src[..], contents, index, count)
    requires dst.Length > src.Length && forall i :: 0 <= i < dst.Length ==> dst[i].None?
    modifies dst
    ensures Inv(dst[..], contents, where, cnt) && cnt == count
  {
    EmptyInv(dst[..]);
    where := map[];
    cnt := 0;
    var i := 0;
    assert Below(contents, index, 0) == map[];
    while i < src.Length
      invariant 0 <= i <= src.Length && cnt <= i
      invariant Inv(dst[..], Below(contents, index, i), where, cnt)
    {
      BelowStep(src[..], contents, index, count, i);
      if src[i].Some? {
        var e := src[i].value;
        ghost var t := dst[..];
        var p := PlaceFirstFree(dst, e);
        InsertInv(t, Below(contents, index, i), where, cnt, e, p);
        where := where[e.key := p];
        cnt := cnt + 1;
      }
      i := i + 1;
    }
    BelowAll(src[..], contents, index, count);
    CountIsKeys(dst[..], contents, where, cnt);
    CountIsKeys(src[..], contents, index, count);
  }

  /** `after` is `before` with the entry at c taken out and written at q, a
      free slot that the entry's probe reaches through occupied slots. */
  ghost predicate Relocated<V>(before: Slots<V>, after: Slots<V>, c: nat, q: nat)
    requires |before| >= 2 && c < |before| && q < |before| && before[c].Some?
  {
    before[c := None][q].None? && Reachable(before[c := None], before[c].value.key, q) &&
    after == before[c := None][q := before[c]]
  }

  /** One step of the cluster repair: the entry at c is taken out and put
      back at the first free slot of its probe. */
  method Relocate<V>(a: array<Option<Entry<V>>>, ghost contents: map<string, map<string, V>>,
                     ghost index: map<string, nat>, count: int, c: nat) returns (q: nat)
    requires RepairInv(a[..], contents, index, count, c) && a[c].Some?
    modifies a
    ensures q < a.Length
    ensures RepairInv(a[..], contents, index[old(a[c]).value.key := q], count, Next(c, a.Length))
    ensures q == c ==> a[..] == old(a[..])
    ensures q != c ==> a[c].None? && Displacement(a[..], a.Length) < Displacement(old(a[..]), a.Length)
    ensures Relocated(old(a[..]), a[..], c, q)
  {
    var e := a[c].value;
    ghost var s := a[..];
    a[c] := None;
    assert a[..] == s[c := None];
    FilledBelow(a[..], c);
    q := PlaceFirstFree(a, e);
    RepairStep(s, contents, index, count, c, q);
  }

  /** The cluster repair loop of __delitem__: from slot c up to the next
      empty slot, each entry is taken out and put back at the first free
      slot of its probe, so that every key is again reachable. */
  method RepairRun<V>(a: array<Option<Entry<V>>>, ghost contents: map<string, map<string, V>>,
                      ghost index0: map<string, nat>, count: int, c0: nat, ghost z0: nat)
      returns (ghost index: map<string, nat>)
    requires RepairInv(a[..], contents, index0, count, c0)
    requires z0 < a.Length && a[z0].None?
    modifies a
    ensures Inv(a[..], contents, index, count)
  {
    var n: nat := a.Length;
    var c: nat := c0;
    ghost var z: nat := z0;
    index := index0;
    while a[c].Some?
      invariant n == a.Length && c < n && z < n && a[z].None?
      invariant RepairInv(a[..], contents, index, count, c)
      decreases Displacement(a[..], n), Dist(c, z, n)
    {
      ghost var key := a[c].value.key;
      var q := Relocate(a, contents, index, count, c);
      index := index[key := q];
      if q == c {
        DistNext(c, z, n);
      } else {
        z := c;
      }
      c := Next(c, n);
    }
    RepairDone(a[..], contents, index, count, c);
  }

  // ---------------------------------------------------------------------
  // Listings

  /** A full round of probing from the hash of a stored key meets the
      key's slot. */
  lemma RoundMeets<V>(s: Slots<V>, contents: map<string, map<string, V>>,
                      index: map<string, nat>, count: int, k: string)
    requires Layout(s, contents, index, count)
    ensures var h := PolyHash(k, |s|);
            k in contents ==>
              exists d :: 0 <= d < |s| && s[Forward(h, d, |s|)].Some? && s[Forward(h, d, |s|)].value.key == k
  {
    var n, h := |s|, PolyHash(k, |s|);
    if k in contents {
      var d := Dist(h, index[k], n);
      assert s[Forward(h, d, n)].value.key == k;
    }
  }

  /** The first keys of the occupied slots, in slot order. */
  function FirstKeys<V>(s: Slots<V>): (r: seq<string>)
    ensures |r| == Filled(s)
  {
    if |s| == 0 then []
    else FirstKeys(s[..|s| - 1]) + (if s[|s| - 1].Some? then [s[|s| - 1].value.key] else [])
  }

  /** The inner tables of the occupied slots, in slot order. */
  function InnerTables<V>(s: Slots<V>): (r: seq<map<string, V>>)
    ensures |r| == Filled(s)
  {
    if |s| == 0 then []
    else InnerTables(s[..|s| - 1]) + (if s[|s| - 1].Some? then [s[|s| - 1].value.inner] else [])
  }

  /** `ks` and `vs` list an inner table: every key once, in some order,
      each beside its value.  The inner table's own order is not part of
      this model. */
  ghost predicate Listing<V>(m: map<string, V>, ks: seq<string>, vs: seq<V>)
  {
    |ks| == |vs| &&
    (forall i, j :: 0 <= i < j < |ks| ==> ks[i] != ks[j]) &&
    (forall k :: k in m <==> k in ks) &&
    (forall i :: 0 <= i < |ks| ==> ks[i] in m && vs[i] == m[ks[i]])
  }

  /** `vs` lists the values of an inner table, in some order of its keys. */
  ghost predicate ListsValues<V>(m: map<string, V>, vs: seq<V>)
  {
    exists ks :: Listing(m, ks, vs)
  }

  /** keys() and values() of an inner table. */
  method InnerListing<V>(m: map<string, V>) returns (ks: seq<string>, vs: seq<V>)
    ensures Listing(m, ks, vs) && |ks| == |m|
  {
    var rest := m;
    ks, vs := [], [];
    while rest != map[]
      invariant |ks| == |vs| && |ks| + |rest| == |m|
      invariant forall i, j :: 0 <= i < j < |ks| ==> ks[i] != ks[j]
      invariant forall k :: k in m <==> k in ks || k in rest
      invariant forall k :: k in rest ==> k !in ks && rest[k] == m[k]
      invariant forall i :: 0 <= i < |ks| ==> ks[i] in m && vs[i] == m[ks[i]]
      decreases |rest|
    {
      var k :| k in rest;
      ks := ks + [k];
      vs := vs + [rest[k]];
      rest := rest - {k};
    }
  }

  /** The listing of the first j slots, one step longer. */
  lemma ListingStep<V>(s: Slots<V>, j: nat)
    requires 0 < j <= |s|
    ensures FirstKeys(s[..j]) == FirstKeys(s[..j - 1]) + (if s[j - 1].Some? then [s[j - 1].value.key] else [])
    ensures InnerTables(s[..j]) == InnerTables(s[..j - 1]) + (if s[j - 1].Some? then [s[j - 1].value.inner] else [])
  {
    assert s[..j][..j - 1] == s[..j - 1];
  }

  /** Up to slot j keys(None) holds exactly the keys whose slot is below j. */
  lemma {:induction false} KeysBelow<V>(s: Slots<V>, contents: map<string, map<string, V>>,
                                        index: map<string, nat>, count: int, j: nat)
    requires Layout(s, contents, index, count) && j <= |s|
    ensures forall k :: k in FirstKeys(s[..j]) <==> k in index && index[k] < j
  {
    if j > 0 {
      KeysBelow(s, contents, index, count, j - 1);
      ListingStep(s, j);
    }
  }

  /** ... and holds each of them once. */
  lemma {:induction false} KeysOnce<V>(s: Slots<V>, contents: map<string, map<string, V>>,
                                       index: map<string, nat>, count: int, j: nat)
    requires Layout(s, contents, index, count) && j <= |s|
    ensures var ks := FirstKeys(s[..j]); forall a, b :: 0 <= a < b < |ks| ==> ks[a] != ks[b]
  {
    if j > 0 {
      KeysOnce(s, contents, index, count, j - 1);
      KeysBelow(s, contents, index, count, j - 1);
      ListingStep(s, j);
      var ks0, ks := FirstKeys(s[..j - 1]), FirstKeys(s[..j]);
      if s[j - 1].Some? {
        var k := s[j - 1].value.key;
        assert k !in ks0;
        forall a, b | 0 <= a < b < |ks| ensures ks[a] != ks[b] {
          if b == |ks0| {
            assert ks[a] == ks0[a];
          }
        }
      }
    }
  }

  /** Up to slot j values(None) pairs each key with its own inner table. */
  lemma {:induction false} TablesBelow<V>(s: Slots<V>, contents: map<string, map<string, V>>,
                                          index: map<string, nat>, count: int, j: nat)
    requires Layout(s, contents, index, count) && j <= |s|
    ensures var ks, ts := FirstKeys(s[..j]), InnerTables(s[..j]);
            forall a :: 0 <= a < |ks| ==> ks[a] in contents && ts[a] == contents[ks[a]]
  {
    if j > 0 {
      TablesBelow(s, contents, index, count, j - 1);
      ListingStep(s, j);
    }
  }

  /** keys(None) lists every first key once, and values(None) lists their
      inner tables in the same order. */
  lemma ListingsExact<V>(s: Slots<V>, contents: map<string, map<string, V>>,
                         index: map<string, nat>, count: int)
    requires Layout(s, contents, index, count)
    ensures |FirstKeys(s)| == count == |contents.Keys|
    ensures forall k :: k in FirstKeys(s) <==> k in contents
    ensures forall a, b :: 0 <= a < b < |FirstKeys(s)| ==> FirstKeys(s)[a] != FirstKeys(s)[b]
    ensures forall a :: 0 <= a < |FirstKeys(s)| ==> InnerTables(s)[a] == contents[FirstKeys(s)[a]]
  {
    KeysBelow(s, contents, index, count, |s|);
    KeysOnce(s, contents, index, count, |s|);
    TablesBelow(s, contents, index, count, |s|);
    assert s[..|s|] == s;
    CountIsKeys(s, contents, index, count);
  }

  // ---------------------------------------------------------------------
  // The table

  class DoubleKeyTable<V> {
    /** TABLE_SIZES, the position in it, the outer store and its counter. */
    var sizes: seq<nat>
    var sizeIndex: nat
    var slots: array<Option<Entry<V>>>
    var count: int

    /** The pairs stored, by first key, and the slot of each first key. */
    ghost var Contents: map<string, map<string, V>>
    ghost var Index: map<string, nat>

    /** The store has the size that sizeIndex selects. */
    ghost predicate Sized()
      reads this, slots
    {
      SizesOk(sizes) && sizeIndex < |sizes| && slots.Length == sizes[sizeIndex]
    }

    ghost predicate Valid()
      reads this, slots
    {
      Sized() && Inv(slots[..], Contents, Index, count)
    }

    /** Every stored first key has at least one pair under it. */
    ghost predicate Populated()
      reads this
    {
      NoEmptyInner(Contents)
    }

    /** __init__: the given sizes or TABLE_SIZES, and an empty store of the
        first size. */
    constructor (custom: Option<seq<nat>>)
      requires custom.Some? ==> SizesOk(custom.value)
      ensures Valid() && Populated() && Contents == map[] && count == 0 && sizeIndex == 0
      ensures sizes == (if custom.Some? then custom.value else DefaultSizes)
      ensures fresh(slots)
    {
      var chosen := if custom.Some? then custom.value else DefaultSizes;
      sizes := chosen;
      sizeIndex := 0;
      slots := new Option<Entry<V>>[chosen[0]](_ => None);
      count := 0;
      Contents := map[];
      Index := map[];
      new;
      EmptyInv(slots[..]);
    }

    /** table_size */
    function TableSize(): (r: nat)
      reads this, slots
      requires Valid()
      ensures r == slots.Length && r >= 2
    {
      sizes[sizeIndex]
    }

    /** __len__: the number of occupied outer slots. */
    function Len(): (r: int)
      reads this, slots
      requires Valid()
      ensures r == Filled(slots[..]) && 0 <= r <= TableSize()
    {
      FilledAtMost(slots[..]);
      count
    }

    /** hash1 */
    method Hash1(key: string) returns (r: nat)
      requires Valid()
      ensures r == PolyHash(key, slots.Length) && r < TableSize()
    {
      r := HashKey(key, TableSize());
    }

    /** hash2, for an inner table of the given size. */
    method Hash2(key: string, innerSize: nat) returns (r: nat)
      requires innerSize >= 2
      ensures r == PolyHash(key, innerSize) && r < innerSize
    {
      r := HashKey(key, innerSize);
    }

    /** The insertion step of _linear_probe: a new first key takes an empty
        slot that its probe reaches, with an empty inner table. */
    method Claim(k: string, p: nat)
      requires Valid() && k !in Contents && p < slots.Length && slots[p].None?
      requires Reachable(slots[..], k, p)
      modifies this, slots
      ensures Valid()
      ensures slots == old(slots) && sizes == old(sizes) && sizeIndex == old(sizeIndex)
      ensures slots[..] == old(slots[..])[p := Some(Entry(k, map[]))] && count == old(count) + 1
      ensures Contents == old(Contents)[k := map[]] && Index == old(Index)[k := p]
    {
      ghost var s := slots[..];
      InsertInv(s, Contents, Index, count, Entry(k, map[]), p);
      slots[p] := Some(Entry(k, map[]));
      count := count + 1;
      Contents := Contents[k := map[]];
      Index := Index[k := p];
      assert slots[..] == s[p := Some(Entry(k, map[]))];
    }

    /** _linear_probe, returning the outer slot.  A lookup fails with
        KeyError unless the pair is stored.  An insertion returns the slot of
        a stored first key, or places the new key with an empty inner table
        at the first empty slot of its probe and counts it; it fails with
        FullError only when the key is new and every slot is occupied. */
    method LinearProbe(k1: string, k2: string, isInsert: bool) returns (r: Result<nat>)
      requires Valid()
      modifies if isInsert then {this, slots} else {}
      ensures Valid()
      ensures slots == old(slots) && sizes == old(sizes) && sizeIndex == old(sizeIndex)
      ensures !(isInsert && k1 !in old(Contents) && r.Ok?) ==>
                slots[..] == old(slots[..]) && count == old(count) &&
                Contents == old(Contents) && Index == old(Index)
      ensures !isInsert ==>
                r == if k1 in Contents && k2 in Contents[k1] then Ok(Index[k1]) else Err(KeyError)
      ensures isInsert && k1 in old(Contents) ==> r == Ok(Index[k1])
      ensures isInsert && k1 !in old(Contents) ==>
                (r.Err? <==> old(count) == slots.Length) && (r.Err? ==> r.error == FullError)
      ensures isInsert && k1 !in old(Contents) && r.Ok? ==>
                r.value < slots.Length && old(slots[r.value]).None? &&
                Reachable(old(slots[..]), k1, r.value) &&
                slots[..] == old(slots[..])[r.value := Some(Entry(k1, map[]))] &&
                count == old(count) + 1 &&
                Contents == old(Contents)[k1 := map[]] && Index == old(Index)[k1 := r.value]
    {
      var o := Seek(slots, k1, Contents, Index, count);
      match o
      case Full =>
        return Err(if isInsert then FullError else KeyError);
      case Free(p) =>
        if isInsert {
          Claim(k1, p);
          return Ok(p);
        }
        return Err(KeyError);
      case Found(p) =>
        if isInsert || k2 in slots[p].value.inner {
          return Ok(p);
        }
        return Err(KeyError);
    }

    /** __getitem__: the value stored under the pair, or KeyError. */
    method GetItem(k1: string, k2: string) returns (r: Result<V>)
      requires Valid()
      ensures r == if k1 in Contents && k2 in Contents[k1] then Ok(Contents[k1][k2]) else Err(KeyError)
    {
      var p := LinearProbe(k1, k2, false);
      if p.Err? {
        return Err(p.error);
      }
      return Ok(slots[p.value].value.inner[k2]);
    }

    /** __contains__: whether the pair is stored. */
    method Contains(k1: string, k2: string) returns (b: bool)
      requires Valid()
      ensures b <==> k1 in Contents && k2 in Contents[k1]
    {
      var r := GetItem(k1, k2);
      b := r.Ok?;
    }

    /** One growth step of _rehash: every entry moves to a fresh store of
        the next size, each at the first free slot of its probe there. */
    method Grow()
      requires Valid() && sizeIndex + 1 < |sizes|
      modifies this
      ensures Valid()
      ensures sizes == old(sizes) && Contents == old(Contents) && count == old(count)
      ensures sizeIndex == old(sizeIndex) + 1 && fresh(slots)
    {
      var n := sizes[sizeIndex + 1];
      var next := new Option<Entry<V>>[n](_ => None);
      ghost var where: map<string, nat>;
      var cnt;
      where, cnt := Reinsert(slots, Contents, Index, count, next);
      sizeIndex := sizeIndex + 1;
      slots := next;
      count := cnt;
      Index := where;
    }

    /** _rehash: grows to the next size.  The entries are replayed through
        __setitem__, whose own load check grows the table again while more
        than half of the new store is occupied; so the table ends at the
        first larger size that holds the entries at most half full, or at
        the last size.  At the last size nothing changes. */
    method Rehash()
      requires Valid()
      modifies this
      ensures Valid()
      ensures sizes == old(sizes) && Contents == old(Contents) && count == old(count)
      ensures old(sizeIndex) + 1 == |sizes| ==>
                sizeIndex == old(sizeIndex) && slots == old(slots) && Index == old(Index)
      ensures old(sizeIndex) + 1 < |sizes| ==>
                old(sizeIndex) < sizeIndex && fresh(slots) &&
                (2 * count <= slots.Length || sizeIndex + 1 == |sizes|) &&
                forall j :: old(sizeIndex) < j < sizeIndex ==> 2 * count > sizes[j]
      ensures slots == old(slots) || fresh(slots)
    {
      if sizeIndex + 1 == |sizes| {
        return;
      }
      Grow();
      while 2 * count > slots.Length && sizeIndex + 1 < |sizes|
        invariant Valid() && fresh(slots)
        invariant sizes == old(sizes) && Contents == old(Contents) && count == old(count)
        invariant old(sizeIndex) < sizeIndex
        invariant forall j :: old(sizeIndex) < j < sizeIndex ==> 2 * count > sizes[j]
        decreases |sizes| - sizeIndex
      {
        Grow();
      }
    }

    /** _rehash as written: the size index is raised before the test for the
        last size, and the early return leaves it raised.  Below the last
        size it grows as Rehash does. */
    method RehashAsWritten()
      requires Valid()
      modifies this
      ensures sizes == old(sizes) && Contents == old(Contents) && count == old(count)
      ensures old(sizeIndex) + 1 == |sizes| ==>
                sizeIndex == |sizes| && slots == old(slots) && !Sized() && !Valid()
      ensures old(sizeIndex) + 1 < |sizes| ==> Valid() && old(sizeIndex) < sizeIndex && fresh(slots)
    {
      if sizeIndex + 1 == |sizes| {
        sizeIndex := sizeIndex + 1;
      } else {
        Rehash();
      }
    }

    /** The store step of __setitem__: the inner table of a stored first key
        is replaced in its slot. */
    method Store(k: string, p: nat, inner: map<string, V>)
      requires Valid() && k in Contents && p == Index[k]
      modifies this, slots
      ensures Valid()
      ensures slots == old(slots) && sizes == old(sizes) && sizeIndex == old(sizeIndex)
      ensures slots[..] == old(slots[..])[p := Some(Entry(k, inner))]
      ensures count == old(count) && Contents == old(Contents)[k := inner] && Index == old(Index)
    {
      ReplaceInv(slots[..], Contents, Index, count, k, inner);
      slots[p] := Some(Entry(k, inner));
      Contents := Contents[k := inner];
    }

    /** __setitem__ before the size check: the probe, then the store. */
    method Put(k1: string, k2: string, data: V) returns (r: Status)
      requires Valid()
      modifies this, slots
      ensures Valid() && sizes == old(sizes) && sizeIndex == old(sizeIndex) && slots == old(slots)
      ensures r.Failure? <==> k1 !in old(Contents) && old(count) == old(slots.Length)
      ensures r.Failure? ==>
                r.error == FullError && Contents == old(Contents) && count == old(count) &&
                slots[..] == old(slots[..])
      ensures r.Success? ==>
                Contents == AssignPair(old(Contents), k1, k2, data)
      ensures r.Success? ==> count == old(count) + (if k1 in old(Contents) then 0 else 1)
    {
      ghost var inner0 := if k1 in Contents then Contents[k1] else map[];
      ghost var before := Contents;
      ghost var full := k1 !in Contents && count == slots.Length;
      var p := LinearProbe(k1, k2, true);
      if p.Err? {
        assert full;
        r := Failure(p.error);
      } else {
        assert !full;
        assert k1 in Contents && Index[k1] == p.value && Contents == before[k1 := inner0];
        var inner := slots[p.value].value.inner[k2 := data];
        assert inner == inner0[k2 := data];
        Store(k1, p.value, inner);
        Overwrite(before, k1, inner0, inner);
        r := Success;
      }
    }

    /** __setitem__: stores the value under the pair, creating the first
        key's inner table when it is new, and rehashes once more than half
        of the outer slots are occupied.  It fails with FullError only when
        the first key is new and every outer slot is occupied. */
    method SetItem(k1: string, k2: string, data: V) returns (r: Status)
      requires Valid()
      modifies this, slots
      ensures Valid() && sizes == old(sizes)
      ensures r.Failure? <==> k1 !in old(Contents) && old(count) == old(slots.Length)
      ensures r.Failure? ==>
                r.error == FullError && Contents == old(Contents) && count == old(count) &&
                sizeIndex == old(sizeIndex) && slots == old(slots) && slots[..] == old(slots[..])
      ensures r.Success? ==>
                Contents == AssignPair(old(Contents), k1, k2, data)
      ensures r.Success? ==> count == old(count) + (if k1 in old(Contents) then 0 else 1)
      ensures r.Success? && !(2 * count > old(slots.Length) && old(sizeIndex) + 1 < |sizes|) ==>
                sizeIndex == old(sizeIndex) && slots == old(slots)
      ensures r.Success? && 2 * count > old(slots.Length) && old(sizeIndex) + 1 < |sizes| ==>
                old(sizeIndex) < sizeIndex && fresh(slots) &&
                (2 * count <= slots.Length || sizeIndex + 1 == |sizes|) &&
                forall j :: old(sizeIndex) < j < sizeIndex ==> 2 * count > sizes[j]
      ensures slots == old(slots) || fresh(slots)
      ensures old(Populated()) ==> Populated()
    {
      r := Put(k1, k2, data);
      if r.Success? && 2 * count > slots.Length {
        Rehash();
      }
    }

    /** __setitem__ with _rehash as written: once the last size is reached,
        the set that overloads the store leaves the size index past the end
        of the size list, so the table no longer has a table_size. */
    method SetItemAsWritten(k1: string, k2: string, data: V) returns (r: Status)
      requires Valid()
      modifies this, slots
      ensures sizes == old(sizes)
      ensures r.Failure? <==> k1 !in old(Contents) && old(count) == old(slots.Length)
      ensures r.Success? ==>
                Contents == AssignPair(old(Contents), k1, k2, data) &&
                count == old(count) + (if k1 in old(Contents) then 0 else 1)
      ensures r.Success? && 2 * count > old(slots.Length) && old(sizeIndex) + 1 == |sizes| ==>
                sizeIndex == |sizes| && !Valid()
      ensures !(r.Success? && 2 * count > old(slots.Length) && old(sizeIndex) + 1 == |sizes|) ==> Valid()
    {
      r := Put(k1, k2, data);
      if r.Success? && 2 * count > slots.Length {
        RehashAsWritten();
      }
    }
    /** The first step of removing a first key: its slot is cleared and the
        cluster repair starts at the slot after it. */
    method Unlink(k: string, p: nat) returns (c: nat)
      requires Valid() && k in Contents && p == Index[k]
      modifies this, slots
      ensures Sized() && slots == old(slots) && sizes == old(sizes) && sizeIndex == old(sizeIndex)
      ensures p < slots.Length && slots[p].None? && c == Next(p, slots.Length)
      ensures RepairInv(slots[..], Contents, Index, count, c)
      ensures slots[..] == old(slots[..])[p := None]
      ensures Contents == old(Contents) - {k} && Index == old(Index) - {k} && count == old(count) - 1
    {
      RemoveStart(slots[..], Contents, Index, count, k);
      NextStep(p, 0, slots.Length);
      slots[p] := None;
      count := count - 1;
      Contents := Contents - {k};
      Index := Index - {k};
      c := (p + 1) % slots.Length;
    }

    /** The cluster repair of __delitem__ on this table's store. */
    method Repair(c0: nat, ghost z0: nat)
      requires Sized() && RepairInv(slots[..], Contents, Index, count, c0)
      requires z0 < slots.Length && slots[z0].None?
      modifies this, slots
      ensures Valid()
      ensures slots == old(slots) && sizes == old(sizes) && sizeIndex == old(sizeIndex)
      ensures Contents == old(Contents) && count == old(count)
    {
      Index := RepairRun(slots, Contents, Index, count, c0, z0);
    }

    /** The removal step of __delitem__, at the slot of a stored pair. */
    method Remove(k1: string, k2: string, p: nat)
      requires Valid() && k1 in Contents && k2 in Contents[k1] && p == Index[k1]
      modifies this, slots
      ensures Valid() && slots == old(slots) && sizes == old(sizes) && sizeIndex == old(sizeIndex)
      ensures Contents == RemovePair(old(Contents), k1, k2)
      ensures count == old(count) - (if |old(Contents)[k1] - {k2}| == 0 then 1 else 0)
    {
      var rest := slots[p].value.inner - {k2};
      if |rest| > 0 {
        Store(k1, p, rest);
      } else {
        var c := Unlink(k1, p);
        Repair(c, p);
      }
    }

    /** __delitem__: removes the pair, or fails with KeyError when it is not
        stored.  A first key whose inner table becomes empty is removed from
        the outer store and its cluster repaired. */
    method DelItem(k1: string, k2: string) returns (r: Status)
      requires Valid()
      modifies this, slots
      ensures Valid() && slots == old(slots) && sizes == old(sizes) && sizeIndex == old(sizeIndex)
      ensures r.Failure? <==> !(k1 in old(Contents) && k2 in old(Contents)[k1])
      ensures r.Failure? ==>
                r.error == KeyError && Contents == old(Contents) && count == old(count) &&
                slots[..] == old(slots[..])
      ensures r.Success? ==>
                Contents == RemovePair(old(Contents), k1, k2)
      ensures r.Success? ==> count == old(count) - (if |old(Contents)[k1] - {k2}| == 0 then 1 else 0)
      ensures old(Populated()) ==> Populated()
    {
      ghost var stored := k1 in Contents && k2 in Contents[k1];
      var p := LinearProbe(k1, k2, false);
      if p.Err? {
        assert !stored;
        r := Failure(KeyError);
      } else {
        assert stored;
        Remove(k1, k2, p.value);
        r := Success;
      }
    }
    /** keys(None) / iter_keys(None): the first keys, in slot order. */
    method Keys() returns (res: seq<string>)
      requires Valid()
      ensures res == FirstKeys(slots[..])
    {
      res := [];
      for x := 0 to slots.Length
        invariant res == FirstKeys(slots[..x])
      {
        assert slots[..x + 1][..x] == slots[..x];
        if slots[x].Some? {
          res := res + [slots[x].value.key];
        }
      }
      assert slots[..slots.Length] == slots[..];
    }

    /** values(None): one list per occupied slot, in slot order, of the
        values of its inner table. */
    method Values() returns (res: seq<seq<V>>)
      requires Valid()
      ensures |res| == |InnerTables(slots[..])|
      ensures forall i :: 0 <= i < |res| ==> ListsValues(InnerTables(slots[..])[i], res[i])
    {
      res := [];
      for x := 0 to slots.Length
        invariant |res| == |InnerTables(slots[..x])|
        invariant forall i :: 0 <= i < |res| ==> ListsValues(InnerTables(slots[..x])[i], res[i])
      {
        assert slots[..x + 1][..x] == slots[..x];
        ghost var before := InnerTables(slots[..x]);
        if slots[x].Some? {
          var ks, vs := InnerListing(slots[x].value.inner);
          assert InnerTables(slots[..x + 1]) == before + [slots[x].value.inner];
          res := res + [vs];
          forall i | 0 <= i < |res|
            ensures ListsValues(InnerTables(slots[..x + 1])[i], res[i])
          {
            if i < |res| - 1 {
              assert InnerTables(slots[..x + 1])[i] == before[i];
            } else {
              assert Listing(InnerTables(slots[..x + 1])[i], ks, res[i]);
            }
          }
        } else {
          assert InnerTables(slots[..x + 1]) == before;
        }
      }
      assert slots[..slots.Length] == slots[..];
    }

    /** iter_keys(k) / iter_values(k): the inner table of a first key, found
        by a full round of probing from its hash that passes over empty
        slots; KeyError when the key is not stored. */
    method InnerTable(k1: string) returns (r: Result<map<string, V>>)
      requires Valid()
      ensures r == if k1 in Contents then Ok(Contents[k1]) else Err(KeyError)
    {
      var n := TableSize();
      var h := Hash1(k1);
      var position := h;
      for d := 0 to n
        invariant position == Forward(h, d, n)
        invariant forall d' :: 0 <= d' < d ==> slots[Forward(h, d', n)].None? || slots[Forward(h, d', n)].value.key != k1
      {
        if slots[position].Some? && slots[position].value.key == k1 {
          return Ok(slots[position].value.inner);
        }
        NextStep(h, d, n);
        position := (position + 1) % n;
      }
      RoundMeets(slots[..], Contents, Index, count, k1);
      return Err(KeyError);
    }

    /** keys(k) / iter_keys(k): the keys of a first key's inner table. */
    method KeysOf(k1: string) returns (r: Result<seq<string>>)
      requires Valid()
      ensures r.Ok? <==> k1 in Contents
      ensures r.Err? ==> r.error == KeyError
      ensures r.Ok? ==> exists vs :: Listing(Contents[k1], r.value, vs)
    {
      var t := InnerTable(k1);
      if t.Err? {
        return Err(t.error);
      }
      var ks, vs := InnerListing(t.value);
      return Ok(ks);
    }

    /** values(k) / iter_values(k): the values of a first key's inner table. */
    method ValuesOf(k1: string) returns (r: Result<seq<V>>)
      requires Valid()
      ensures r.Ok? <==> k1 in Contents
      ensures r.Err? ==> r.error == KeyError
      ensures r.Ok? ==> ListsValues(Contents[k1], r.value)
    {
      var t := InnerTable(k1);
      if t.Err? {
        return Err(t.error);
      }
      var ks, vs := InnerListing(t.value);
      return Ok(vs);
    }
  }

  // ---------------------------------------------------------------------
  // Using the table

  /** A pair just set reads back, and every other stored pair keeps its
      value, across the rehash that the set may trigger. */
  method SetThenGet<V>(t: DoubleKeyTable<V>, k1: string, k2: string, data: V)
      returns (r: Status, got: Result<V>)
    requires t.Valid()
    modifies t, t.slots
    ensures t.Valid()
    ensures r.Success? ==> got == Ok(data)
    ensures r.Success? ==>
              forall a, b :: a in old(t.Contents) && b in old(t.Contents)[a] && (a != k1 || b != k2) ==>
                a in t.Contents && b in t.Contents[a] && t.Contents[a][b] == old(t.Contents)[a][b]
    ensures r.Failure? ==> t.Contents == old(t.Contents)
    ensures t.slots == old(t.slots) || fresh(t.slots)
  {
    r := t.SetItem(k1, k2, data);
    got := t.GetItem(k1, k2);
  }

  // ---------------------------------------------------------------------
  // _rehash as written

  /** A new first key set into a table that stays at most half full: the
      set succeeds, adds the key and does not rehash. */
  method SetNewKey(t: DoubleKeyTable<int>, k: string, v: int)
    requires t.Valid() && k !in t.Contents && 2 * (t.count + 1) <= t.slots.Length
    modifies t, t.slots
    ensures t.Valid() && t.sizes == old(t.sizes) && t.sizeIndex == old(t.sizeIndex)
    ensures t.slots == old(t.slots) && t.count == old(t.count) + 1
    ensures t.Contents.Keys == old(t.Contents.Keys) + {k}
  {
    var r := t.SetItem(k, "x", v);
  }

  /** With the single size [5], two first keys fit; the third makes three of
      five slots occupied, and the rehash as written leaves the size index
      at 1, past the end of the size list. */
  method LastSizeAsWritten() returns (t: DoubleKeyTable<int>)
    ensures t.sizes == [5] && t.sizeIndex == |t.sizes| && !t.Valid()
    ensures t.count == 3 && "a" in t.Contents && "b" in t.Contents && "c" in t.Contents
  {
    t := new DoubleKeyTable<int>(Some([5]));
    assert t.slots.Length == 5 && t.count == 0;
    SetNewKey(t, "a", 1);
    SetNewKey(t, "b", 2);
    assert t.slots.Length == 5 && t.sizeIndex == 0 && |t.sizes| == 1 && t.count == 2;
    var r := t.SetItemAsWritten("c", "x", 3);
    assert r.Success?;
  }

  /** A third new first key into a store of 4 holding two: the set succeeds
      and the growth goes on past 5, which would still be more than half
      full, to 11. */
  method SetThirdKey(t: DoubleKeyTable<int>, k: string, v: int)
    requires t.Valid() && t.sizes == [4, 5, 11] && t.sizeIndex == 0 && t.count == 2
    requires k !in t.Contents
    modifies t, t.slots
    ensures t.Valid() && t.sizes == [4, 5, 11] && t.sizeIndex == 2 && t.slots.Length == 11
    ensures t.count == 3 && t.Contents.Keys == old(t.Contents.Keys) + {k}
  {
    var r := t.SetItem(k, "x", v);
    assert r.Success?;
  }

  /** The growth of __setitem__ carries on through the replay: with sizes
      [4, 5, 11], the third first key makes 2 * count = 6 exceed 4, a store
      of 5 would still be more than half full, and the table ends at 11.
      The client sets three times, which needs the store after each set to
      be the old array or a fresh one. */
  method NestedGrowth() returns (t: DoubleKeyTable<int>)
    ensures t.Valid() && t.sizes == [4, 5, 11] && t.sizeIndex == 2 && t.slots.Length == 11
    ensures t.count == 3 && "a" in t.Contents && "b" in t.Contents && "c" in t.Contents
  {
    t := new DoubleKeyTable<int>(Some([4, 5, 11]));
    assert t.slots.Length == 4 && t.count == 0;
    SetNewKey(t, "a", 1);
    SetNewKey(t, "b", 2);
    SetThirdKey(t, "c", 3);
  }
}
