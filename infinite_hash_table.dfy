/**
 * The infinite hash table: a trie of 27-slot tables.  A table at `level`
 * sends a key to the slot given by the character at position `level` modulo
 * 26, or to the overflow slot 26 when the key is too short.  A slot is empty,
 * holds a key and its value, or holds a prefix and a child table one level
 * deeper.  Tables are values; every update returns the new table.
 */
module InfiniteHashTable {

  /** Number of slots in every table (TABLE_SIZE). */
  const TableSize: nat := 27
  /** The slot for keys that end before the table's level. */
  const Overflow: nat := 26

  /** The exceptions the operations raise: KeyError for a missing key;
      TypeError and AttributeError stand for the failures of the code as
      written (see SetAsWritten and SortKeysAsWritten). */
  datatype Error = KeyError | TypeError | AttributeError
  datatype Result<T> = Ok(value: T) | Err(error: Error)
  datatype Option<T> = None | Some(value: T)

  datatype Slot<V> =
    | Empty
    | Term(key: string, value: V)
    | Sub(prefix: string, child: Node<V>)

  /** One table: its depth, its 27 slots and its own counter. */
  datatype Node<V> = Node(level: nat, slots: seq<Slot<V>>, count: int)

  /** A fresh table at the given depth. */
  function NewTable<V>(level: nat): Node<V>
  {
    Node(level, seq(TableSize, _ => Empty), 0)
  }

  /** The slot of `key` in a table at `level`. */
  function Hash(level: nat, key: string): (r: nat)
    ensures r < TableSize
    ensures r == Overflow <==> level >= |key|
  {
    if level < |key| then (key[level] as int) % (TableSize - 1) else TableSize - 1
  }

  // ---------------------------------------------------------------------
  // Shape and the invariant

  /** Every table has 27 slots and every child sits one level deeper. */
  ghost predicate Shaped<V>(t: Node<V>)
    decreases t
  {
    |t.slots| == TableSize &&
    forall i :: 0 <= i < TableSize && t.slots[i].Sub? ==>
      t.slots[i].child.level == t.level + 1 && Shaped(t.slots[i].child)
  }

  /** Keys are restricted to lower-case letters: two distinct letters never
      share a slot, so two distinct keys part at some level. */
  predicate Lower(key: string)
  {
    forall j :: 0 <= j < |key| ==> 'a' <= key[j] <= 'z'
  }

  /** The lower-case letter that slot `i` (below 26) stands for. */
  function Letter(i: nat): char
    requires i < Overflow
  {
    if i < 19 then (104 + i) as char else (78 + i) as char
  }

  /** The number of non-empty slots. */
  function Occupied<V>(ss: seq<Slot<V>>): nat
  {
    if |ss| == 0 then 0
    else Occupied(ss[..|ss| - 1]) + (if ss[|ss| - 1].Empty? then 0 else 1)
  }

  /** The invariant of a table reached through the path string `p`: every
      key below it starts with `p` and sits in the slot its next character
      selects; a child hangs under the prefix that leads to it and holds at
      least two keys; `count` is the number of non-empty slots. */
  ghost predicate WF<V>(t: Node<V>, p: string)
    decreases t
  {
    t.level == |p| && Lower(p) && |t.slots| == TableSize &&
    t.count == Occupied(t.slots) &&
    forall i :: 0 <= i < TableSize ==> SlotWF(t.slots[i], p, i)
  }

  ghost predicate SlotWF<V>(s: Slot<V>, p: string, i: nat)
    decreases s
  {
    match s
    case Empty => true
    case Term(k, _) => Lower(k) && p <= k && Hash(|p|, k) == i
    case Sub(prefix, c) =>
      i < Overflow && prefix == p + [Letter(i)] && WF(c, prefix) && |AllKeys(c)| >= 2
  }

  // ---------------------------------------------------------------------
  // Listings

  /** sort_keys in its intended sense: the keys below a table, slot by slot,
      descending into child tables. */
  function AllKeys<V>(t: Node<V>): seq<string>
    decreases t
  {
    KeysOfSlots(t.slots)
  }

  function KeysOfSlots<V>(ss: seq<Slot<V>>): seq<string>
    decreases ss
  {
    if |ss| == 0 then [] else KeysOfSlots(ss[..|ss| - 1]) + SlotKeys(ss[|ss| - 1])
  }

  function SlotKeys<V>(s: Slot<V>): seq<string>
    decreases s
  {
    match s
    case Empty => []
    case Term(k, _) => [k]
    case Sub(_, c) => AllKeys(c)
  }

  /** keys(): the first component of every non-empty slot of this table only
      (the key of a pair, the prefix of a child). */
  function DirectKeys<V>(ss: seq<Slot<V>>): (r: seq<string>)
    ensures |r| == Occupied(ss)
  {
    if |ss| == 0 then []
    else DirectKeys(ss[..|ss| - 1]) +
         match ss[|ss| - 1]
         case Empty => []
         case Term(k, _) => [k]
         case Sub(prefix, _) => [prefix]
  }

  /** values(): the values of the pairs held directly by this table; slots
      holding a child are skipped. */
  function DirectValues<V>(ss: seq<Slot<V>>): (r: seq<V>)
    ensures |r| <= |DirectKeys(ss)|
  {
    if |ss| == 0 then []
    else DirectValues(ss[..|ss| - 1]) +
         match ss[|ss| - 1]
         case Term(_, v) => [v]
         case _ => []
  }

  // ---------------------------------------------------------------------
  // Lookup

  /** get_location: the slot indices visited on the way to `key`'s terminal
      slot; the index at step j is the hash at depth level + j. */
  function GetLocation<V>(t: Node<V>, key: string): (path: seq<nat>)
    requires Shaped(t)
    ensures |path| >= 1
    ensures forall j :: 0 <= j < |path| ==> path[j] == Hash(t.level + j, key)
    ensures |path| == 1 <==> !t.slots[Hash(t.level, key)].Sub?
    decreases t
  {
    var i := Hash(t.level, key);
    match t.slots[i]
    case Sub(_, c) => [i] + GetLocation(c, key)
    case _ => [i]
  }

  /** The table reached after following j child slots along `key`'s path. */
  ghost function NodeAt<V>(t: Node<V>, key: string, j: nat): (r: Node<V>)
    requires Shaped(t) && j < |GetLocation(t, key)|
    ensures Shaped(r) && r.level == t.level + j
    decreases j
  {
    if j == 0 then t else NodeAt(t.slots[Hash(t.level, key)].child, key, j - 1)
  }

  /** Each index of the path is the slot of `key` in the table reached so
      far, and it holds a child table exactly when it is not the last. */
  lemma {:induction false} LocationDescends<V>(t: Node<V>, key: string)
    requires Shaped(t)
    ensures forall j :: 0 <= j < |GetLocation(t, key)| ==>
              GetLocation(t, key)[j] == Hash(NodeAt(t, key, j).level, key) &&
              (j < |GetLocation(t, key)| - 1 <==> NodeAt(t, key, j).slots[GetLocation(t, key)[j]].Sub?)
    decreases t
  {
    var i := Hash(t.level, key);
    if t.slots[i].Sub? {
      var c := t.slots[i].child;
      LocationDescends(c, key);
      forall j | 0 < j < |GetLocation(t, key)|
        ensures NodeAt(t, key, j) == NodeAt(c, key, j - 1)
        ensures GetLocation(t, key)[j] == GetLocation(c, key)[j - 1]
      {
      }
    }
  }

  /** __getitem__: follows the location path; the terminal slot's value is
      returned without comparing its stored key. */
  function Get<V>(t: Node<V>, key: string): (r: Result<V>)
    requires Shaped(t)
    ensures r.Err? ==> r.error == KeyError
    decreases t
  {
    var path := GetLocation(t, key);
    if |path| == 1 then
      if t.slots[path[0]].Term? then Ok(t.slots[path[0]].value) else Err(KeyError)
    else
      Get(t.slots[path[0]].child, key)
  }

  /** __contains__: true unless the lookup raises KeyError. */
  function Contains<V>(t: Node<V>, key: string): bool
    requires Shaped(t)
  {
    Get(t, key).Ok?
  }

  /** The reference meaning of a table: the value stored for exactly `key`. */
  ghost function Lookup<V>(t: Node<V>, key: string): Option<V>
    requires Shaped(t)
    decreases t
  {
    match t.slots[Hash(t.level, key)]
    case Empty => None
    case Term(k, v) => if k == key then Some(v) else None
    case Sub(_, c) => Lookup(c, key)
  }

  /** The stored key in the terminal slot that `key`'s path reaches, if any:
      the pair that get and delete act on. */
  ghost function Resident<V>(t: Node<V>, key: string): Option<string>
    requires Shaped(t)
    decreases t
  {
    match t.slots[Hash(t.level, key)]
    case Empty => None
    case Term(k, _) => Some(k)
    case Sub(_, c) => Resident(c, key)
  }

  // ---------------------------------------------------------------------
  // Update

  /** The child made for a collision after its first insertion: the
      displaced pair written into the slot it selects, `count` 1 (lemma
      SetIntoFreshTable shows this is what inserting it produces). */
  function FreshChild<V>(level: nat, k: string, v: V): Node<V>
  {
    var t := NewTable(level);
    t.(slots := t.slots[Hash(level, k) := Term(k, v)], count := 1)
  }

  /** __setitem__, for lower-case keys. */
  function Set<V>(t: Node<V>, key: string, value: V): Node<V>
    requires Lower(key) && t.level <= |key| && WF(t, key[..t.level])
    decreases |key| - t.level
  {
    WFShaped(t, key[..t.level]);
    var path := GetLocation(t, key);
    var i := path[0];
    if |path| != 1 then
      ChildStep(t, key);
      t.(slots := t.slots[i := Sub(t.slots[i].prefix, Set(t.slots[i].child, key, value))])
    else if t.slots[i].Empty? || t.slots[i].key == key then
      t.(slots := t.slots[i := Term(key, value)],
         count := if t.slots[i].Empty? then t.count + 1 else t.count)
    else
      CollisionStep(t, key);
      var old_pair := t.slots[i];
      t.(slots := t.slots[i := Sub(key[..t.level + 1],
                                   Set(FreshChild(t.level + 1, old_pair.key, old_pair.value), key, value))])
  }

  /** __delitem__: removes the pair in the terminal slot that `key`'s path
      reaches (its stored key is not compared), and replaces a child left
      with a single direct pair by that pair. */
  function Delete<V>(t: Node<V>, key: string): (r: Result<Node<V>>)
    requires Shaped(t)
    ensures r.Ok? ==> Shaped(r.value) && r.value.level == t.level
    ensures r.Err? ==> r.error == KeyError
    decreases t
  {
    var path := GetLocation(t, key);
    var i := path[0];
    if |path| == 1 then
      if t.slots[i].Empty? then Err(KeyError)
      else Ok(t.(slots := t.slots[i := Empty], count := t.count - 1))
    else
      match Delete(t.slots[i].child, key)
      case Err(e) => Err(e)
      case Ok(c) =>
        if c.count == 1 && |DirectValues(c.slots)| > 0 then
          var remaining_key := DirectKeys(c.slots)[0];
          match Get(c, remaining_key)
          case Err(e) => Err(e)
          case Ok(remaining_value) => Ok(t.(slots := t.slots[i := Term(remaining_key, remaining_value)]))
        else
          Ok(t.(slots := t.slots[i := Sub(t.slots[i].prefix, c)]))
  }

  // ---------------------------------------------------------------------
  // Helper lemmas

  lemma {:induction false} WFShaped<V>(t: Node<V>, p: string)
    requires WF(t, p)
    ensures Shaped(t)
    decreases t
  {
    forall i | 0 <= i < TableSize && t.slots[i].Sub?
      ensures t.slots[i].child.level == t.level + 1 && Shaped(t.slots[i].child)
    {
      assert SlotWF(t.slots[i], p, i);
      WFShaped(t.slots[i].child, t.slots[i].prefix);
    }
  }

  lemma LetterOf(c: char)
    requires 'a' <= c <= 'z'
    ensures (c as int) % (TableSize - 1) < Overflow
    ensures Letter((c as int) % (TableSize - 1)) == c
  {
  }

  lemma LetterHash(i: nat)
    requires i < Overflow
    ensures 'a' <= Letter(i) <= 'z' && (Letter(i) as int) % (TableSize - 1) == i
  {
  }

  /** Descending into the child on `key`'s path extends the path string by
      one character of `key`. */
  lemma ChildStep<V>(t: Node<V>, key: string)
    requires Lower(key) && t.level <= |key| && WF(t, key[..t.level])
    requires t.slots[Hash(t.level, key)].Sub?
    ensures t.level < |key|
    ensures key[..t.level + 1] == t.slots[Hash(t.level, key)].prefix
    ensures WF(t.slots[Hash(t.level, key)].child, key[..t.level + 1])
  {
    var i := Hash(t.level, key);
    assert SlotWF(t.slots[i], key[..t.level], i);
    LetterOf(key[t.level]);
    assert key[..t.level + 1] == key[..t.level] + [key[t.level]];
  }

  /** Two distinct keys that meet in one terminal slot part below it: the
      slot is a letter slot and the fresh child satisfies the invariant. */
  lemma CollisionStep<V>(t: Node<V>, key: string)
    requires Lower(key) && t.level <= |key| && WF(t, key[..t.level])
    requires t.slots[Hash(t.level, key)].Term? && t.slots[Hash(t.level, key)].key != key
    ensures t.level < |key|
    ensures Hash(t.level, key) < Overflow
    ensures key[..t.level + 1] == key[..t.level] + [Letter(Hash(t.level, key))]
    ensures WF(FreshChild(t.level + 1, t.slots[Hash(t.level, key)].key, t.slots[Hash(t.level, key)].value),
               key[..t.level + 1])
  {
    var p, i := key[..t.level], Hash(t.level, key);
    var k := t.slots[i].key;
    assert SlotWF(t.slots[i], p, i);
    LetterOf(key[t.level]);
    LetterOf(k[t.level]);
    assert key[..t.level + 1] == p + [key[t.level]];
    assert k[..t.level + 1] == k[..t.level] + [k[t.level]];
    FreshChildWF(t.level + 1, k, t.slots[i].value, key[..t.level + 1]);
  }

  lemma FreshChildWF<V>(level: nat, k: string, v: V, q: string)
    requires |q| == level && Lower(q) && Lower(k) && q <= k
    ensures WF(FreshChild(level, k, v), q)
  {
    var c := FreshChild(level, k, v);
    var j := Hash(level, k);
    var none: seq<Slot<V>> := seq(TableSize, _ => Empty);
    OccupiedAllEmpty(none);
    OccupiedUpdate(none, j, Term(k, v));
    forall i | 0 <= i < TableSize ensures SlotWF(c.slots[i], q, i) {
    }
  }

  lemma {:induction false} OccupiedAllEmpty<V>(ss: seq<Slot<V>>)
    requires forall i :: 0 <= i < |ss| ==> ss[i].Empty?
    ensures Occupied(ss) == 0 && KeysOfSlots(ss) == []
  {
    if |ss| > 0 {
      OccupiedAllEmpty(ss[..|ss| - 1]);
    }
  }

  /** The effect of one slot update on the slot count. */
  lemma {:induction false} OccupiedUpdate<V>(ss: seq<Slot<V>>, j: nat, x: Slot<V>)
    requires j < |ss|
    ensures Occupied(ss[j := x]) ==
            Occupied(ss) - (if ss[j].Empty? then 0 else 1) + (if x.Empty? then 0 else 1)
    ensures |KeysOfSlots(ss[j := x])| == |KeysOfSlots(ss)| - |SlotKeys(ss[j])| + |SlotKeys(x)|
  {
    var n := |ss|;
    if j == n - 1 {
      assert ss[j := x][..n - 1] == ss[..n - 1];
    } else {
      assert ss[j := x][..n - 1] == ss[..n - 1][j := x];
      OccupiedUpdate(ss[..n - 1], j, x);
    }
  }

  /** The listings of a slot sequence in which only slot `j` may be
      non-empty are those of slot `j`. */
  lemma {:induction false} OnlySlot<V>(ss: seq<Slot<V>>, j: nat)
    requires j < |ss| && forall i :: 0 <= i < |ss| && i != j ==> ss[i].Empty?
    ensures KeysOfSlots(ss) == SlotKeys(ss[j])
    ensures Occupied(ss) == if ss[j].Empty? then 0 else 1
    ensures DirectKeys(ss) == match ss[j] case Empty => [] case Term(k, _) => [k] case Sub(prefix, _) => [prefix]
    ensures DirectValues(ss) == match ss[j] case Term(_, v) => [v] case _ => []
  {
    var n := |ss|;
    if j == n - 1 {
      OccupiedAllEmpty(ss[..n - 1]);
      EmptyListings(ss[..n - 1]);
    } else {
      OnlySlot(ss[..n - 1], j);
    }
  }

  lemma {:induction false} EmptyListings<V>(ss: seq<Slot<V>>)
    requires forall i :: 0 <= i < |ss| ==> ss[i].Empty?
    ensures DirectKeys(ss) == [] && DirectValues(ss) == []
  {
    if |ss| > 0 {
      EmptyListings(ss[..|ss| - 1]);
    }
  }

  /** The fresh child of a collision holds exactly the displaced pair. */
  lemma FreshChildFacts<V>(level: nat, k: string, v: V)
    ensures Shaped(FreshChild(level, k, v))
    ensures AllKeys(FreshChild(level, k, v)) == [k]
    ensures forall k' :: Lookup(FreshChild(level, k, v), k') == if k' == k then Some(v) else None
  {
    var f := FreshChild(level, k, v);
    OnlySlot(f.slots, Hash(level, k));
  }

  /** Changing one slot to a slot that keeps the invariant keeps the table's
      invariant and leaves every key that hashes elsewhere alone. */
  lemma UpdateWF<V>(t: Node<V>, p: string, i: nat, x: Slot<V>, cnt: int)
    requires WF(t, p) && i < TableSize && SlotWF(x, p, i)
    requires cnt == t.count - (if t.slots[i].Empty? then 0 else 1) + (if x.Empty? then 0 else 1)
    ensures WF(Node(t.level, t.slots[i := x], cnt), p)
    ensures Shaped(t) && Shaped(Node(t.level, t.slots[i := x], cnt))
    ensures |AllKeys(Node(t.level, t.slots[i := x], cnt))| ==
            |AllKeys(t)| - |SlotKeys(t.slots[i])| + |SlotKeys(x)|
    ensures forall k :: Hash(t.level, k) != i ==>
              Lookup(Node(t.level, t.slots[i := x], cnt), k) == Lookup(t, k) &&
              Resident(Node(t.level, t.slots[i := x], cnt), k) == Resident(t, k)
  {
    var u := Node(t.level, t.slots[i := x], cnt);
    OccupiedUpdate(t.slots, i, x);
    forall j | 0 <= j < TableSize ensures SlotWF(u.slots[j], p, j) {
      if j != i {
        assert SlotWF(t.slots[j], p, j);
      }
    }
    WFShaped(t, p);
    WFShaped(u, p);
  }

  /** Setting a key keeps the invariant, stores the value for exactly that
      key, and adds one key to the listing only when the key is new. */
  lemma {:induction false} SetCorrect<V>(t: Node<V>, key: string, value: V)
    requires Lower(key) && t.level <= |key| && WF(t, key[..t.level])
    ensures WF(Set(t, key, value), key[..t.level])
    ensures Shaped(t) && Shaped(Set(t, key, value))
    ensures forall k :: Lookup(Set(t, key, value), k) == if k == key then Some(value) else Lookup(t, k)
    ensures |AllKeys(Set(t, key, value))| == |AllKeys(t)| + (if Lookup(t, key).None? then 1 else 0)
    decreases |key| - t.level, 1
  {
    WFShaped(t, key[..t.level]);
    var i := Hash(t.level, key);
    if t.slots[i].Sub? {
      SetIntoChild(t, key, value);
    } else if t.slots[i].Empty? || t.slots[i].key == key {
      SetDirect(t, key, value);
    } else {
      SetCollision(t, key, value);
    }
  }

  lemma SetDirect<V>(t: Node<V>, key: string, value: V)
    requires Lower(key) && t.level <= |key| && WF(t, key[..t.level])
    requires Shaped(t)
    requires t.slots[Hash(t.level, key)].Empty? ||
             (t.slots[Hash(t.level, key)].Term? && t.slots[Hash(t.level, key)].key == key)
    ensures WF(Set(t, key, value), key[..t.level])
    ensures Shaped(Set(t, key, value))
    ensures forall k :: Lookup(Set(t, key, value), k) == if k == key then Some(value) else Lookup(t, k)
    ensures |AllKeys(Set(t, key, value))| == |AllKeys(t)| + (if Lookup(t, key).None? then 1 else 0)
  {
    var p, L, i := key[..t.level], t.level, Hash(t.level, key);
    var cnt := if t.slots[i].Empty? then t.count + 1 else t.count;
    var r := Set(t, key, value);
    assert r == Node(L, t.slots[i := Term(key, value)], cnt);
    assert SlotWF(Term(key, value), p, i);
    UpdateWF(t, p, i, Term(key, value), cnt);
  }

  lemma {:induction false} SetIntoChild<V>(t: Node<V>, key: string, value: V)
    requires Lower(key) && t.level <= |key| && WF(t, key[..t.level])
    requires Shaped(t) && t.slots[Hash(t.level, key)].Sub?
    ensures WF(Set(t, key, value), key[..t.level])
    ensures Shaped(Set(t, key, value))
    ensures forall k :: Lookup(Set(t, key, value), k) == if k == key then Some(value) else Lookup(t, k)
    ensures |AllKeys(Set(t, key, value))| == |AllKeys(t)| + (if Lookup(t, key).None? then 1 else 0)
    decreases |key| - t.level, 0
  {
    var p, L, i := key[..t.level], t.level, Hash(t.level, key);
    var prefix, c := t.slots[i].prefix, t.slots[i].child;
    ChildStep(t, key);
    SetCorrect(c, key, value);
    var c' := Set(c, key, value);
    var r := Set(t, key, value);
    assert r == Node(L, t.slots[i := Sub(prefix, c')], t.count);
    assert SlotWF(t.slots[i], p, i);
    assert SlotWF(Sub(prefix, c'), p, i);
    UpdateWF(t, p, i, Sub(prefix, c'), t.count);
  }

  lemma {:induction false} SetCollision<V>(t: Node<V>, key: string, value: V)
    requires Lower(key) && t.level <= |key| && WF(t, key[..t.level])
    requires Shaped(t)
    requires t.slots[Hash(t.level, key)].Term? && t.slots[Hash(t.level, key)].key != key
    ensures WF(Set(t, key, value), key[..t.level])
    ensures Shaped(Set(t, key, value))
    ensures forall k :: Lookup(Set(t, key, value), k) == if k == key then Some(value) else Lookup(t, k)
    ensures |AllKeys(Set(t, key, value))| == |AllKeys(t)| + (if Lookup(t, key).None? then 1 else 0)
    decreases |key| - t.level, 0
  {
    var p, L, i := key[..t.level], t.level, Hash(t.level, key);
    var k0, v0 := t.slots[i].key, t.slots[i].value;
    CollisionStep(t, key);
    var f := FreshChild(L + 1, k0, v0);
    FreshChildFacts(L + 1, k0, v0);
    SetCorrect(f, key, value);
    var c' := Set(f, key, value);
    var r := Set(t, key, value);
    assert r == Node(L, t.slots[i := Sub(key[..L + 1], c')], t.count);
    assert SlotWF(Sub(key[..L + 1], c'), p, i);
    UpdateWF(t, p, i, Sub(key[..L + 1], c'), t.count);
  }

  // ---------------------------------------------------------------------
  // Listings and lookup

  predicate NoDup<T(==)>(s: seq<T>)
  {
    forall i, j :: 0 <= i < j < |s| ==> s[i] != s[j]
  }

  lemma NoDupConcat<T>(a: seq<T>, b: seq<T>)
    requires NoDup(a) && NoDup(b) && forall x :: x in a ==> x !in b
    ensures NoDup(a + b)
  {
    forall i, j | 0 <= i < j < |a + b| ensures (a + b)[i] != (a + b)[j] {
      if i < |a| && j >= |a| {
        assert (a + b)[i] in a && (a + b)[j] in b;
      }
    }
  }

  /** When every key listed under slot i hashes to i, the listing of the
      slots has no repeats and a key is listed exactly under its own slot. */
  lemma {:induction false} KeysLocal<V>(ss: seq<Slot<V>>, L: nat)
    requires forall i :: 0 <= i < |ss| ==> NoDup(SlotKeys(ss[i]))
    requires forall i, k :: 0 <= i < |ss| && k in SlotKeys(ss[i]) ==> Hash(L, k) == i
    ensures NoDup(KeysOfSlots(ss))
    ensures forall k :: k in KeysOfSlots(ss) <==> Hash(L, k) < |ss| && k in SlotKeys(ss[Hash(L, k)])
  {
    var n := |ss|;
    if n > 0 {
      var a := ss[..n - 1];
      assert forall i :: 0 <= i < n - 1 ==> a[i] == ss[i];
      KeysLocal(a, L);
      NoDupConcat(KeysOfSlots(a), SlotKeys(ss[n - 1]));
    }
  }

  /** sort_keys (intended) lists every stored key exactly once: the listing
      has no repeats and holds exactly the keys the table stores. */
  lemma {:induction false} AllKeysExact<V>(t: Node<V>, p: string)
    requires WF(t, p)
    ensures Shaped(t)
    ensures NoDup(AllKeys(t))
    ensures forall k :: k in AllKeys(t) <==> Lookup(t, k).Some?
    ensures forall k :: k in AllKeys(t) ==> Lower(k) && p <= k
    decreases t
  {
    WFShaped(t, p);
    var L := t.level;
    forall i | 0 <= i < TableSize
      ensures NoDup(SlotKeys(t.slots[i]))
      ensures forall k :: k in SlotKeys(t.slots[i]) ==> Hash(L, k) == i && Lower(k) && p <= k
      ensures forall k :: Hash(L, k) == i ==> (k in SlotKeys(t.slots[i]) <==> Lookup(t, k).Some?)
    {
      assert SlotWF(t.slots[i], p, i);
      match t.slots[i]
      case Empty =>
      case Term(k0, _) =>
      case Sub(q, c) =>
        AllKeysExact(c, q);
        LetterHash(i);
        forall k | k in AllKeys(c) ensures Hash(L, k) == i && p <= k {
          assert k[L] == q[L];
          assert p <= q;
        }
    }
    KeysLocal(t.slots, L);
  }

  /** __getitem__ succeeds exactly when `key`'s path ends at a stored pair
      and returns that pair's value; for a stored key it is the key's own
      value. */
  lemma GetCorrect<V>(t: Node<V>, p: string, key: string)
    requires WF(t, p)
    ensures Shaped(t)
    ensures Get(t, key).Ok? <==> Resident(t, key).Some?
    ensures Lookup(t, key).Some? ==> Resident(t, key) == Some(key) && Get(t, key) == Ok(Lookup(t, key).value)
    ensures Resident(t, key).Some? ==>
              Lookup(t, Resident(t, key).value).Some? &&
              Get(t, key) == Ok(Lookup(t, Resident(t, key).value).value)
    decreases t
  {
    WFShaped(t, p);
    var L, i := t.level, Hash(t.level, key);
    assert SlotWF(t.slots[i], p, i);
    match t.slots[i]
    case Empty =>
    case Term(k0, _) =>
    case Sub(q, c) =>
      GetCorrect(c, q, key);
      if Resident(c, key).Some? {
        var k2 := Resident(c, key).value;
        AllKeysExact(c, q);
        LetterHash(i);
        assert k2 in AllKeys(c);
        assert k2[L] == q[L];
      }
  }

  // ---------------------------------------------------------------------
  // Delete

  /** A slot sequence with a value listed has a slot holding a pair. */
  lemma {:induction false} TermIndex<V>(ss: seq<Slot<V>>) returns (j: nat)
    requires |DirectValues(ss)| > 0
    ensures j < |ss| && ss[j].Term?
  {
    var n := |ss|;
    if ss[n - 1].Term? {
      j := n - 1;
    } else {
      j := TermIndex(ss[..n - 1]);
    }
  }

  /** With one non-empty slot, every other slot is empty. */
  lemma {:induction false} OccupiedOne<V>(ss: seq<Slot<V>>, j: nat)
    requires j < |ss| && !ss[j].Empty? && Occupied(ss) == 1
    ensures forall i :: 0 <= i < |ss| && i != j ==> ss[i].Empty?
  {
    var n := |ss|;
    var a := ss[..n - 1];
    if j == n - 1 {
      ZeroOccupied(a);
      assert forall i :: 0 <= i < n - 1 ==> a[i] == ss[i];
    } else {
      assert a[j] == ss[j];
      OccupiedPos(a, j);
      OccupiedOne(a, j);
      assert forall i :: 0 <= i < n - 1 ==> a[i] == ss[i];
    }
  }

  lemma {:induction false} OccupiedPos<V>(ss: seq<Slot<V>>, j: nat)
    requires j < |ss| && !ss[j].Empty?
    ensures Occupied(ss) >= 1
  {
    var n := |ss|;
    if j < n - 1 {
      assert ss[..n - 1][j] == ss[j];
      OccupiedPos(ss[..n - 1], j);
    }
  }

  lemma {:induction false} ZeroOccupied<V>(ss: seq<Slot<V>>)
    requires Occupied(ss) == 0
    ensures forall i :: 0 <= i < |ss| ==> ss[i].Empty?
  {
    if |ss| > 0 {
      ZeroOccupied(ss[..|ss| - 1]);
    }
  }

  /** Every non-empty slot lists at least one key and a child at least two,
      so a single listed key means a single slot, holding a pair. */
  lemma {:induction false} KeysAtLeastSlots<V>(ss: seq<Slot<V>>)
    requires forall i :: 0 <= i < |ss| && ss[i].Sub? ==> |SlotKeys(ss[i])| >= 2
    ensures |KeysOfSlots(ss)| >= Occupied(ss)
    ensures |KeysOfSlots(ss)| == 1 ==> Occupied(ss) == 1 && |DirectValues(ss)| == 1
  {
    var n := |ss|;
    if n > 0 {
      var a := ss[..n - 1];
      assert forall i :: 0 <= i < n - 1 ==> a[i] == ss[i];
      KeysAtLeastSlots(a);
    }
  }

  /** A table with one non-empty slot that holds a pair holds just that pair. */
  lemma SingleTerm<V>(c: Node<V>, q: string) returns (j: nat)
    requires WF(c, q) && c.count == 1 && |DirectValues(c.slots)| > 0
    ensures j < TableSize && c.slots[j].Term?
    ensures Shaped(c)
    ensures AllKeys(c) == [c.slots[j].key] && DirectKeys(c.slots) == [c.slots[j].key]
    ensures Get(c, c.slots[j].key) == Ok(c.slots[j].value)
    ensures forall k :: Lookup(c, k) == if k == c.slots[j].key then Some(c.slots[j].value) else None
  {
    WFShaped(c, q);
    j := TermIndex(c.slots);
    OccupiedOne(c.slots, j);
    OnlySlot(c.slots, j);
    assert SlotWF(c.slots[j], q, j);
  }

  /** A table of the invariant holding one key has one non-empty slot, and
      that slot holds a pair. */
  lemma OneKeyShape<V>(c: Node<V>, q: string)
    requires WF(c, q) && |AllKeys(c)| == 1
    ensures c.count == 1 && |DirectValues(c.slots)| > 0
  {
    forall i | 0 <= i < |c.slots| && c.slots[i].Sub? ensures |SlotKeys(c.slots[i])| >= 2 {
      assert SlotWF(c.slots[i], q, i);
    }
    KeysAtLeastSlots(c.slots);
  }

  /** Deleting fails exactly when `key`'s path ends at an empty slot;
      otherwise it removes the pair stored there (for a stored key, the key
      itself), keeps the invariant, and lists one key fewer. */
  lemma {:induction false} DeleteCorrect<V>(t: Node<V>, p: string, key: string)
    requires WF(t, p)
    ensures Shaped(t)
    ensures Delete(t, key).Err? <==> Resident(t, key).None?
    ensures Delete(t, key).Err? ==> Delete(t, key).error == KeyError
    ensures Delete(t, key).Ok? ==>
              WF(Delete(t, key).value, p) &&
              (forall k :: Lookup(Delete(t, key).value, k) ==
                             if Some(k) == Resident(t, key) then None else Lookup(t, k)) &&
              |AllKeys(Delete(t, key).value)| == |AllKeys(t)| - 1
    decreases t
  {
    WFShaped(t, p);
    var L, i := t.level, Hash(t.level, key);
    assert SlotWF(t.slots[i], p, i);
    match t.slots[i]
    case Empty =>
    case Term(k0, _) =>
      assert Delete(t, key) == Ok(Node(L, t.slots[i := Empty], t.count - 1));
      UpdateWF(t, p, i, Empty, t.count - 1);
    case Sub(q, c) =>
      DeleteCorrect(c, q, key);
      if Delete(c, key).Ok? {
        var c' := Delete(c, key).value;
        if c'.count == 1 && |DirectValues(c'.slots)| > 0 {
          var j := SingleTerm(c', q);
          var rk, rv := c'.slots[j].key, c'.slots[j].value;
          assert Delete(t, key) == Ok(Node(L, t.slots[i := Term(rk, rv)], t.count));
          DeleteCollapse(t, p, key, c', rk, rv);
        } else {
          assert Delete(t, key) == Ok(Node(L, t.slots[i := Sub(q, c')], t.count));
          DeleteKeep(t, p, key, c');
        }
      }
  }

  /** The child left with one pair is replaced by that pair. */
  lemma DeleteCollapse<V>(t: Node<V>, p: string, key: string, c': Node<V>, rk: string, rv: V)
    requires WF(t, p) && Shaped(t) && t.slots[Hash(t.level, key)].Sub?
    requires var s := t.slots[Hash(t.level, key)];
             Shaped(s.child) && Resident(s.child, key).Some? && WF(c', s.prefix) && Shaped(c') &&
             (forall k :: Lookup(c', k) == if Some(k) == Resident(s.child, key) then None else Lookup(s.child, k)) &&
             |AllKeys(c')| == |AllKeys(s.child)| - 1
    requires AllKeys(c') == [rk]
    requires forall k :: Lookup(c', k) == if k == rk then Some(rv) else None
    ensures Resident(t, key).Some?
    ensures var r := Node(t.level, t.slots[Hash(t.level, key) := Term(rk, rv)], t.count);
            WF(r, p) && Shaped(r) &&
            (forall k :: Lookup(r, k) == if Some(k) == Resident(t, key) then None else Lookup(t, k)) &&
            |AllKeys(r)| == |AllKeys(t)| - 1
  {
    var L, i := t.level, Hash(t.level, key);
    var q, c := t.slots[i].prefix, t.slots[i].child;
    assert SlotWF(t.slots[i], p, i);
    AllKeysExact(c', q);
    LetterHash(i);
    assert rk in AllKeys(c');
    assert rk[L] == q[L] && p <= q;
    assert SlotWF(Term(rk, rv), p, i);
    UpdateWF(t, p, i, Term(rk, rv), t.count);
    ResidentHashes(t, p, key);
    var r := Node(L, t.slots[i := Term(rk, rv)], t.count);
    forall k | Hash(L, k) == i
      ensures Lookup(r, k) == if Some(k) == Resident(t, key) then None else Lookup(t, k)
    {
      assert Lookup(r, k) == Lookup(c', k);
    }
  }

  /** A child that still holds two keys or more stays in place. */
  lemma DeleteKeep<V>(t: Node<V>, p: string, key: string, c': Node<V>)
    requires WF(t, p) && Shaped(t) && t.slots[Hash(t.level, key)].Sub?
    requires var s := t.slots[Hash(t.level, key)];
             Shaped(s.child) && Resident(s.child, key).Some? && WF(c', s.prefix) && Shaped(c') &&
             (forall k :: Lookup(c', k) == if Some(k) == Resident(s.child, key) then None else Lookup(s.child, k)) &&
             |AllKeys(c')| == |AllKeys(s.child)| - 1
    requires !(c'.count == 1 && |DirectValues(c'.slots)| > 0)
    ensures Resident(t, key).Some?
    ensures var r := Node(t.level, t.slots[Hash(t.level, key) := Sub(t.slots[Hash(t.level, key)].prefix, c')], t.count);
            WF(r, p) && Shaped(r) &&
            (forall k :: Lookup(r, k) == if Some(k) == Resident(t, key) then None else Lookup(t, k)) &&
            |AllKeys(r)| == |AllKeys(t)| - 1
  {
    var L, i := t.level, Hash(t.level, key);
    var q, c := t.slots[i].prefix, t.slots[i].child;
    assert SlotWF(t.slots[i], p, i);
    if |AllKeys(c')| == 1 {
      OneKeyShape(c', q);
    }
    assert SlotWF(Sub(q, c'), p, i);
    UpdateWF(t, p, i, Sub(q, c'), t.count);
    ResidentHashes(t, p, key);
    var r := Node(L, t.slots[i := Sub(q, c')], t.count);
    forall k | Hash(L, k) == i
      ensures Lookup(r, k) == if Some(k) == Resident(t, key) then None else Lookup(t, k)
    {
      assert Lookup(r, k) == Lookup(c', k);
    }
  }

  /** The pair that `key`'s path reaches hashes, at this table's level, to
      the same slot as `key`. */
  lemma ResidentHashes<V>(t: Node<V>, p: string, key: string)
    requires WF(t, p)
    ensures Shaped(t)
    ensures Resident(t, key).Some? ==> Hash(t.level, Resident(t, key).value) == Hash(t.level, key)
  {
    WFShaped(t, p);
    var L, i := t.level, Hash(t.level, key);
    assert SlotWF(t.slots[i], p, i);
    match t.slots[i]
    case Empty =>
    case Term(_, _) =>
    case Sub(q, c) =>
      GetCorrect(c, q, key);
      AllKeysExact(c, q);
      LetterHash(i);
      if Resident(c, key).Some? {
        var k := Resident(c, key).value;
        assert k in AllKeys(c);
        assert k[L] == q[L];
      }
  }

  // ---------------------------------------------------------------------
  // Further properties

  /** __len__ */
  function Len<V>(t: Node<V>): int
  {
    t.count
  }

  /** A fresh table satisfies the invariant for any lower-case path of its
      depth and stores nothing. */
  lemma NewTableWF<V>(level: nat, p: string)
    requires |p| == level && Lower(p)
    ensures WF(NewTable<V>(level), p) && Shaped(NewTable<V>(level))
    ensures AllKeys(NewTable<V>(level)) == [] && Len(NewTable<V>(level)) == 0
    ensures forall k :: Lookup(NewTable<V>(level), k).None?
  {
    var t := NewTable<V>(level);
    OccupiedAllEmpty(t.slots);
    forall i | 0 <= i < TableSize ensures SlotWF(t.slots[i], p, i) {
    }
  }

  /** The first insertion into a fresh child is the table FreshChild builds. */
  lemma SetIntoFreshTable<V>(level: nat, k: string, v: V)
    requires Lower(k) && level <= |k|
    ensures WF(NewTable<V>(level), k[..level])
    ensures Set(NewTable(level), k, v) == FreshChild(level, k, v)
  {
    NewTableWF<V>(level, k[..level]);
    var t := NewTable<V>(level);
    assert GetLocation(t, k) == [Hash(level, k)];
  }

  /** __len__ counts the non-empty slots of the table, which is the length
      of keys() and at most the number of stored keys; it is not the number
      of stored keys once a child table holds a collision. */
  lemma LenCountsSlots<V>(t: Node<V>, p: string)
    requires WF(t, p)
    ensures Len(t) == |DirectKeys(t.slots)|
    ensures Len(t) <= |AllKeys(t)|
  {
    forall i | 0 <= i < |t.slots| && t.slots[i].Sub? ensures |SlotKeys(t.slots[i])| >= 2 {
      assert SlotWF(t.slots[i], p, i);
    }
    KeysAtLeastSlots(t.slots);
  }

  /** Two distinct keys that share their first letter (such as "ab" and
      "ac"): the root then holds one child and counts one slot, yet two keys
      are stored. */
  lemma LenIsNotKeyCount(k1: string, k2: string)
    requires Lower(k1) && Lower(k2) && 0 < |k1| && 0 < |k2| && k1[0] == k2[0] && k1 != k2
    ensures WF(NewTable<int>(0), [])
    ensures WF(Set(NewTable<int>(0), k1, 1), [])
    ensures var t := Set(Set(NewTable<int>(0), k1, 1), k2, 2);
            Len(t) == 1 && |AllKeys(t)| == 2
  {
    assert k1[..0] == [] && k2[..0] == [];
    NewTableWF<int>(0, []);
    var t0 := NewTable<int>(0);
    var i := Hash(0, k1);
    assert Hash(0, k2) == i;
    SetCorrect(t0, k1, 1);
    SetCount(t0, k1, 1);
    var t1 := Set(t0, k1, 1);
    assert GetLocation(t0, k1) == [i];
    assert t1.slots[i] == Term(k1, 1);
    SetCorrect(t1, k2, 2);
    SetCount(t1, k2, 2);
  }

  /** __setitem__ changes the counter of this table only when the key lands
      in an empty slot of its own, by one; a set that goes down into a child
      table, or makes one for a collision, leaves this counter unchanged. */
  lemma SetCount<V>(t: Node<V>, key: string, value: V)
    requires Lower(key) && t.level <= |key| && WF(t, key[..t.level])
    ensures Shaped(t)
    ensures Set(t, key, value).level == t.level
    ensures Set(t, key, value).count == t.count + (if t.slots[Hash(t.level, key)].Empty? then 1 else 0)
  {
    WFShaped(t, key[..t.level]);
  }

  /** __delitem__ lowers the counter of the table that owns the cleared
      slot; a delete that goes down into a child table leaves this counter
      unchanged, whether or not the child collapses. */
  lemma DeleteCount<V>(t: Node<V>, key: string)
    requires Shaped(t)
    ensures Delete(t, key).Ok? ==>
              Delete(t, key).value.count == t.count - (if t.slots[Hash(t.level, key)].Sub? then 0 else 1)
  {
  }

  /** A delete that goes down into a child and leaves it with one non-empty
      slot, holding a pair, puts that pair in the parent slot: it is the only
      key the child still stores, with its value; no other slot and not the
      parent's counter change. */
  lemma CollapseShape<V>(t: Node<V>, p: string, key: string)
    requires WF(t, p) && t.slots[Hash(t.level, key)].Sub?
    ensures Shaped(t) && Shaped(t.slots[Hash(t.level, key)].child)
    ensures var i, c := Hash(t.level, key), t.slots[Hash(t.level, key)].child;
            Delete(c, key).Ok? && Delete(c, key).value.count == 1 &&
            |DirectValues(Delete(c, key).value.slots)| > 0 ==>
              var c' := Delete(c, key).value;
              |AllKeys(c')| == 1 && Lookup(c', AllKeys(c')[0]).Some? &&
              Delete(t, key).Ok? && Delete(t, key).value.count == t.count &&
              Delete(t, key).value.slots == t.slots[i := Term(AllKeys(c')[0], Lookup(c', AllKeys(c')[0]).value)]
  {
    WFShaped(t, p);
    var i := Hash(t.level, key);
    assert SlotWF(t.slots[i], p, i);
    var q, c := t.slots[i].prefix, t.slots[i].child;
    if Delete(c, key).Ok? && Delete(c, key).value.count == 1 &&
       |DirectValues(Delete(c, key).value.slots)| > 0 {
      DeleteCorrect(c, q, key);
      var c' := Delete(c, key).value;
      var j := SingleTerm(c', q);
    }
  }

  /** A distinct key set onto a slot holding a pair: the slot becomes a
      child under the key's next prefix, one level deeper, made by storing
      the old pair in a fresh table and then the new one; it holds both,
      and no other slot changes. */
  lemma CollisionShape<V>(t: Node<V>, key: string, value: V)
    requires Lower(key) && t.level <= |key| && WF(t, key[..t.level])
    requires t.slots[Hash(t.level, key)].Term? && t.slots[Hash(t.level, key)].key != key
    ensures Shaped(t)
    ensures var i, old_pair := Hash(t.level, key), t.slots[Hash(t.level, key)];
            var r := Set(t, key, value);
            t.level < |key| && Lower(old_pair.key) && t.level + 1 <= |old_pair.key| &&
            r.slots == t.slots[i := r.slots[i]] && r.slots[i].Sub? &&
            r.slots[i].prefix == key[..t.level + 1] &&
            WF(NewTable<V>(t.level + 1), old_pair.key[..t.level + 1]) &&
            Set(NewTable(t.level + 1), old_pair.key, old_pair.value) == FreshChild(t.level + 1, old_pair.key, old_pair.value) &&
            r.slots[i].child.level == t.level + 1 && Shaped(r.slots[i].child) &&
            Lookup(r.slots[i].child, old_pair.key) == Some(old_pair.value) &&
            Lookup(r.slots[i].child, key) == Some(value)
  {
    WFShaped(t, key[..t.level]);
    var L, i := t.level, Hash(t.level, key);
    var k0, v0 := t.slots[i].key, t.slots[i].value;
    CollisionStep(t, key);
    SetIntoFreshTable<V>(L + 1, k0, v0);
    var f := FreshChild(L + 1, k0, v0);
    FreshChildFacts(L + 1, k0, v0);
    SetCorrect(f, key, value);
  }

  /** After setting a key, getting it returns the value just set. */
  lemma GetAfterSet<V>(t: Node<V>, key: string, value: V)
    requires Lower(key) && t.level <= |key| && WF(t, key[..t.level])
    ensures Shaped(Set(t, key, value))
    ensures Get(Set(t, key, value), key) == Ok(value) && Contains(Set(t, key, value), key)
  {
    SetCorrect(t, key, value);
    GetCorrect(Set(t, key, value), key[..t.level], key);
  }

  /** Every stored key is found by __contains__ with its own value; a key
      whose path ends at an empty slot is not. */
  lemma ContainsStored<V>(t: Node<V>, p: string, key: string)
    requires WF(t, p)
    ensures Shaped(t)
    ensures Lookup(t, key).Some? ==> Contains(t, key) && Get(t, key) == Ok(Lookup(t, key).value)
    ensures Resident(t, key).None? ==> !Contains(t, key) && Lookup(t, key).None?
  {
    GetCorrect(t, p, key);
  }

  /** After deleting a stored key, the key is no longer stored and every
      other key keeps its value. */
  lemma DeleteStored<V>(t: Node<V>, p: string, key: string)
    requires WF(t, p)
    requires Shaped(t) && Lookup(t, key).Some?
    ensures Delete(t, key).Ok?
    ensures Lookup(Delete(t, key).value, key).None?
    ensures forall k :: k != key ==> Lookup(Delete(t, key).value, k) == Lookup(t, k)
  {
    GetCorrect(t, p, key);
    DeleteCorrect(t, p, key);
  }

  // ---------------------------------------------------------------------
  // The listings as the loops they are

  /** keys(): one pass over the slots of this table. */
  method Keys<V>(t: Node<V>) returns (res: seq<string>)
    ensures res == DirectKeys(t.slots)
  {
    res := [];
    var i := 0;
    while i < |t.slots|
      invariant 0 <= i <= |t.slots|
      invariant res == DirectKeys(t.slots[..i])
    {
      assert t.slots[..i + 1][..i] == t.slots[..i];
      match t.slots[i] {
        case Empty =>
        case Term(k, _) => res := res + [k];
        case Sub(prefix, _) => res := res + [prefix];
      }
      i := i + 1;
    }
    assert t.slots[..|t.slots|] == t.slots;
  }

  /** values(): one pass over the slots, skipping children. */
  method Values<V>(t: Node<V>) returns (res: seq<V>)
    ensures res == DirectValues(t.slots)
  {
    res := [];
    var i := 0;
    while i < |t.slots|
      invariant 0 <= i <= |t.slots|
      invariant res == DirectValues(t.slots[..i])
    {
      assert t.slots[..i + 1][..i] == t.slots[..i];
      if t.slots[i].Term? {
        res := res + [t.slots[i].value];
      }
      i := i + 1;
    }
    assert t.slots[..|t.slots|] == t.slots;
  }

  /** sort_keys (corrected): one pass over the slots, listing a pair's key
      and descending into a child. */
  method SortKeys<V>(t: Node<V>) returns (res: seq<string>)
    ensures res == AllKeys(t)
    decreases t
  {
    res := [];
    var i := 0;
    while i < |t.slots|
      invariant 0 <= i <= |t.slots|
      invariant res == KeysOfSlots(t.slots[..i])
    {
      assert t.slots[..i + 1][..i] == t.slots[..i];
      match t.slots[i] {
        case Empty =>
        case Term(k, _) => res := res + [k];
        case Sub(_, c) =>
          var below := SortKeys(c);
          res := res + below;
      }
      i := i + 1;
    }
    assert t.slots[..|t.slots|] == t.slots;
  }

  /** keys() lists exactly the first components of the non-empty slots:
      each pair's key and each child's prefix, slot by slot. */
  lemma {:induction false} DirectKeysListSlots<V>(ss: seq<Slot<V>>)
    ensures forall x :: x in DirectKeys(ss) <==>
              exists i :: 0 <= i < |ss| && ((ss[i].Term? && ss[i].key == x) || (ss[i].Sub? && ss[i].prefix == x))
    ensures forall x :: x in DirectValues(ss) <==> exists i :: 0 <= i < |ss| && ss[i].Term? && ss[i].value == x
  {
    if |ss| > 0 {
      var a := ss[..|ss| - 1];
      DirectKeysListSlots(a);
      assert forall i :: 0 <= i < |a| ==> a[i] == ss[i];
    }
  }

  // ---------------------------------------------------------------------
  // The code as written

  /** __setitem__ exactly as written: line 63 reads the first component of
      the terminal slot before testing it for None, so any insertion that
      reaches an empty slot fails on that read.  A collision builds a fresh
      child and inserts the displaced pair first, which reaches an empty
      slot of that child and fails the same way. */
  function SetAsWritten<V>(t: Node<V>, key: string, value: V): Result<Node<V>>
    requires Shaped(t)
    decreases t
  {
    var path := GetLocation(t, key);
    var i := path[0];
    if t.slots[i].Empty? then Err(TypeError)
    else if |path| != 1 then
      match SetAsWritten(t.slots[i].child, key, value)
      case Err(e) => Err(e)
      case Ok(c) => Ok(t.(slots := t.slots[i := Sub(t.slots[i].prefix, c)]))
    else if t.slots[i].key == key then Ok(t.(slots := t.slots[i := Term(key, value)]))
    else Err(TypeError)
  }

  /** As written, __setitem__ only succeeds in overwriting a stored key, and
      then it agrees with the corrected Set. */
  lemma {:induction false} SetAsWrittenOnlyOverwrites<V>(t: Node<V>, key: string, value: V)
    requires Lower(key) && t.level <= |key| && WF(t, key[..t.level])
    ensures Shaped(t)
    ensures SetAsWritten(t, key, value).Ok? <==> Lookup(t, key).Some?
    ensures SetAsWritten(t, key, value).Ok? ==> SetAsWritten(t, key, value).value == Set(t, key, value)
    decreases |key| - t.level
  {
    WFShaped(t, key[..t.level]);
    var i := Hash(t.level, key);
    if t.slots[i].Sub? {
      ChildStep(t, key);
      SetAsWrittenOnlyOverwrites(t.slots[i].child, key, value);
    }
  }

  /** The first insertion into a new table fails as written. */
  lemma FirstInsertFails<V>(key: string, value: V)
    ensures Shaped(NewTable<V>(0))
    ensures SetAsWritten(NewTable<V>(0), key, value) == Err(TypeError)
  {
    NewTableWF<V>(0, []);
  }

  /** sort_keys exactly as written: its branches are swapped, so it lists
      a child's prefix where it should descend, and asks a stored value for
      its sort_keys where it should list the key; a value without that
      method makes it fail. */
  function SortKeysAsWritten<V>(ss: seq<Slot<V>>): Result<seq<string>>
  {
    if |ss| == 0 then Ok([])
    else
      match SortKeysAsWritten(ss[..|ss| - 1])
      case Err(e) => Err(e)
      case Ok(front) =>
        match ss[|ss| - 1]
        case Empty => Ok(front)
        case Sub(prefix, _) => Ok(front + [prefix])
        case Term(_, _) => Err(AttributeError)
  }

  /** As written, sort_keys succeeds only on a table that holds no pair
      directly, and then returns only the prefixes of its children. */
  lemma {:induction false} SortKeysAsWrittenPrefixes<V>(ss: seq<Slot<V>>)
    ensures SortKeysAsWritten(ss).Ok? <==> |DirectValues(ss)| == 0
    ensures SortKeysAsWritten(ss).Ok? ==> SortKeysAsWritten(ss).value == DirectKeys(ss)
    ensures SortKeysAsWritten(ss).Err? ==> SortKeysAsWritten(ss).error == AttributeError
  {
    if |ss| > 0 {
      SortKeysAsWrittenPrefixes(ss[..|ss| - 1]);
    }
  }

  /** A table holding one pair: sort_keys as written fails, the corrected
      listing holds the key. */
  lemma SortKeysAsWrittenFails(key: string)
    requires Lower(key)
    ensures WF(NewTable<int>(0), [])
    ensures SortKeysAsWritten(Set(NewTable<int>(0), key, 1).slots) == Err(AttributeError)
    ensures AllKeys(Set(NewTable<int>(0), key, 1)) == [key]
  {
    NewTableWF<int>(0, []);
    var t := Set(NewTable<int>(0), key, 1);
    var i := Hash(0, key);
    assert t.slots == NewTable<int>(0).slots[i := Term(key, 1)];
    OnlySlot(t.slots, i);
    SortKeysAsWrittenPrefixes(t.slots);
  }

  /** __getitem__ corrected: the stored key in the terminal slot is compared
      with the key asked for. */
  function GetChecked<V>(t: Node<V>, key: string): (r: Result<V>)
    requires Shaped(t)
    ensures r == match Lookup(t, key) case Some(v) => Ok(v) case None => Err(KeyError)
    decreases t
  {
    var path := GetLocation(t, key);
    if |path| == 1 then
      var s := t.slots[path[0]];
      if s.Term? && s.key == key then Ok(s.value) else Err(KeyError)
    else
      GetChecked(t.slots[path[0]].child, key)
  }

  /** As written, __getitem__ returns the value of another key that shares
      the path: with only "ab" stored, asking for "ac" yields its value. */
  lemma GetIgnoresStoredKey()
    ensures WF(NewTable<int>(0), [])
    ensures Shaped(Set(NewTable<int>(0), "ab", 1))
    ensures var t := Set(NewTable<int>(0), "ab", 1);
            Get(t, "ac") == Ok(1) && Lookup(t, "ac") == None && GetChecked(t, "ac") == Err(KeyError)
  {
    NewTableWF<int>(0, []);
    SetCorrect(NewTable<int>(0), "ab", 1);
  }
}
