/** The per-node child index of monte.h: a hash-array-mapped trie with four slots per entry,
    threaded through the children themselves (each child carries `hamt[4]`, the parent's
    `children` pointer is the root). A key is looked up by walking down from the root, taking at
    depth d the slot named by bits 2d and 2d + 1 of its hash. The model keeps the trie as a tree
    of its own whose entries name the children by id. */
module MoveIndex {

  /** MONTE_HAMT_NUM_CHILDREN: 1 << MONTE_HAMT_NUM_BITS with two bits per level. */
  const Fanout: nat := 4

  datatype Trie<K> = Vacant | Entry(id: nat, key: K, slots: seq<Trie<K>>)

  /** What monte_find_node returns: the entry holding the key, or the vacant slot where the walk
      ended, given as the slot numbers taken from the root. */
  datatype Probe = Hit(id: nat) | Slot(path: seq<nat>)

  /** The hash shifted right by 2d bits, that is `hash_itr` after d steps of the walk. */
  function Shift(h: nat, d: nat): nat {
    if d == 0 then h else Shift(h, d - 1) / Fanout
  }

  /** The slot number `hash_itr & MONTE_HAMT_MASK` taken at depth d. */
  function Digit(h: nat, d: nat): nat {
    Shift(h, d) % Fanout
  }

  predicate WellFormed<K(==)>(t: Trie<K>) {
    match t
    case Vacant => true
    case Entry(_, _, slots) => |slots| == Fanout && forall i | 0 <= i < Fanout :: WellFormed(slots[i])
  }

  /** The (id, key) pairs stored in the trie. */
  function Entries<K(==)>(t: Trie<K>): set<(nat, K)> {
    match t
    case Vacant => {}
    case Entry(id, key, slots) => {(id, key)} + EntriesOf(slots)
  }

  function EntriesOf<K(==)>(ts: seq<Trie<K>>): set<(nat, K)> {
    if ts == [] then {} else EntriesOf(ts[..|ts| - 1]) + Entries(ts[|ts| - 1])
  }

  function Keys<K(==)>(t: Trie<K>): set<K> {
    match t
    case Vacant => {}
    case Entry(_, key, slots) => {key} + KeysOf(slots)
  }

  function KeysOf<K(==)>(ts: seq<Trie<K>>): set<K> {
    if ts == [] then {} else KeysOf(ts[..|ts| - 1]) + Keys(ts[|ts| - 1])
  }

  lemma {:induction false} EntriesOfSlots<K>(ts: seq<Trie<K>>, i: nat)
    requires i < |ts|
    ensures Entries(ts[i]) <= EntriesOf(ts)
    ensures Keys(ts[i]) <= KeysOf(ts)
  {
    if i < |ts| - 1 {
      EntriesOfSlots(ts[..|ts| - 1], i);
    }
  }

  lemma {:induction false} NothingInVacant<K>(ts: seq<Trie<K>>)
    requires forall i | 0 <= i < |ts| :: ts[i] == Vacant
    ensures EntriesOf(ts) == {} && KeysOf(ts) == {}
  {
    if ts != [] {
      NothingInVacant(ts[..|ts| - 1]);
    }
  }

  /** Every pair of the slots comes from one of them. */
  lemma {:induction false} EntriesOfSome<K>(ts: seq<Trie<K>>, e: (nat, K))
    requires e in EntriesOf(ts)
    ensures exists i | 0 <= i < |ts| :: e in Entries(ts[i])
  {
    if e !in Entries(ts[|ts| - 1]) {
      EntriesOfSome(ts[..|ts| - 1], e);
      var i :| 0 <= i < |ts| - 1 && e in Entries(ts[..|ts| - 1][i]);
      assert ts[..|ts| - 1][i] == ts[i];
    }
  }

  lemma {:induction false} KeysOfSome<K>(ts: seq<Trie<K>>, k: K)
    requires k in KeysOf(ts)
    ensures exists i | 0 <= i < |ts| :: k in Keys(ts[i])
  {
    if k !in Keys(ts[|ts| - 1]) {
      KeysOfSome(ts[..|ts| - 1], k);
      var i :| 0 <= i < |ts| - 1 && k in Keys(ts[..|ts| - 1][i]);
      assert ts[..|ts| - 1][i] == ts[i];
    }
  }

  /** Replacing one slot replaces its pairs and keys, the other slots' staying. */
  lemma {:induction false} EntriesOfUpdate<K>(ts: seq<Trie<K>>, i: nat, t: Trie<K>)
    requires i < |ts|
    ensures Entries(ts[i]) <= Entries(t) ==> EntriesOf(ts[i := t]) == EntriesOf(ts) + Entries(t)
    ensures Keys(ts[i]) <= Keys(t) ==> KeysOf(ts[i := t]) == KeysOf(ts) + Keys(t)
  {
    var us := ts[i := t];
    if i == |ts| - 1 {
      assert us[..|us| - 1] == ts[..|ts| - 1];
      EntriesOfSlots(ts, i);
    } else {
      assert us[..|us| - 1] == ts[..|ts| - 1][i := t];
      EntriesOfUpdate(ts[..|ts| - 1], i, t);
    }
  }

  /** Every key sits where its hash leads: below an entry at depth d, slot i holds only keys
      whose digit d is i. No key is stored twice. */
  predicate Placed<K(==)>(t: Trie<K>, hash: K -> nat, d: nat) {
    match t
    case Vacant => true
    case Entry(_, key, slots) =>
      && |slots| == Fanout
      && (forall i | 0 <= i < Fanout :: Placed(slots[i], hash, d + 1))
      && (forall i, k | 0 <= i < Fanout && k in Keys(slots[i]) :: Digit(hash(k), d) == i)
      && key !in KeysOf(slots)
  }

  /** `path` leads from the root, slot by slot, to a vacant slot. */
  predicate VacantAt<K(==)>(t: Trie<K>, path: seq<nat>) {
    if path == [] then t.Vacant?
    else t.Entry? && path[0] < |t.slots| && VacantAt(t.slots[path[0]], path[1..])
  }

  /** monte_find_node: walk from the root, returning the entry whose key equals `key`, or the
      vacant slot where the walk fell off; `h` is the part of the hash not yet consumed. */
  function Find<K(==)>(t: Trie<K>, key: K, h: nat): (r: Probe)
    requires WellFormed(t)
    ensures r.Hit? ==> (r.id, key) in Entries(t)
    ensures r.Slot? ==> VacantAt(t, r.path)
  {
    match t
    case Vacant => Slot([])
    case Entry(id, k, slots) =>
      if k == key then Hit(id)
      else
        EntriesOfSlots(slots, h % Fanout);
        match Find(slots[h % Fanout], key, h / Fanout)
        case Hit(i) => Hit(i)
        case Slot(p) =>
          assert ([h % Fanout] + p)[1..] == p;
          Slot([h % Fanout] + p)
  }

  /** Lookup finds exactly the stored keys: the walk that starts with the key's own hash at
      depth d ends on its entry when the key is stored, and on a vacant slot when it is not. */
  lemma {:induction false} FindIff<K>(t: Trie<K>, hash: K -> nat, d: nat, key: K)
    requires WellFormed(t) && Placed(t, hash, d)
    ensures Find(t, key, Shift(hash(key), d)).Hit? <==> key in Keys(t)
  {
    match t
    case Vacant =>
    case Entry(id, k, slots) =>
      if k != key {
        var h := Shift(hash(key), d);
        var i := h % Fanout;
        assert Shift(hash(key), d + 1) == h / Fanout;
        FindIff(slots[i], hash, d + 1, key);
        if key in Keys(t) {
          KeysOfSome(slots, key);
          var j :| 0 <= j < |slots| && key in Keys(slots[j]);
          assert Digit(hash(key), d) == j;
        } else {
          EntriesOfSlots(slots, i);
        }
      }
  }

  /** A new entry with no children, the `hamt` of a zero-initialised node. */
  function Leaf<K(==)>(id: nat, key: K): (r: Trie<K>)
    ensures WellFormed(r) && Entries(r) == {(id, key)} && Keys(r) == {key}
  {
    var slots := [Vacant, Vacant, Vacant, Vacant];
    NothingInVacant(slots);
    Entry(id, key, slots)
  }

  /** `*out_node = new_node`: store a new entry in the vacant slot at the end of `path`. */
  function InsertAt<K(==)>(t: Trie<K>, path: seq<nat>, id: nat, key: K): (r: Trie<K>)
    requires WellFormed(t) && VacantAt(t, path)
    ensures WellFormed(r) && r.Entry?
    ensures Entries(r) == Entries(t) + {(id, key)}
    ensures Keys(r) == Keys(t) + {key}
    ensures t.Entry? ==> r.id == t.id && r.key == t.key
    ensures t.Vacant? ==> r.id == id && r.key == key
  {
    if path == [] then Leaf(id, key)
    else
      var slots := t.slots;
      var i := path[0];
      var sub := InsertAt(slots[i], path[1..], id, key);
      EntriesOfSlots(slots, i);
      EntriesOfUpdate(slots, i, sub);
      Entry(t.id, t.key, slots[i := sub])
  }

  /** Storing a key in the slot its own lookup ended on keeps every key where its hash leads. */
  lemma {:induction false} InsertKeepsPlaced<K>(t: Trie<K>, hash: K -> nat, d: nat, id: nat, key: K)
    requires WellFormed(t) && Placed(t, hash, d)
    requires Find(t, key, Shift(hash(key), d)).Slot?
    ensures Placed(InsertAt(t, Find(t, key, Shift(hash(key), d)).path, id, key), hash, d)
  {
    var h := Shift(hash(key), d);
    var path := Find(t, key, h).path;
    match t
    case Vacant =>
      assert path == [];
      var slots := [Vacant, Vacant, Vacant, Vacant];
      assert InsertAt(t, path, id, key) == Entry(id, key, slots);
      NothingInVacant(slots);
    case Entry(i, k, slots) =>
      var j := h % Fanout;
      assert Shift(hash(key), d + 1) == h / Fanout;
      assert path[0] == j && path[1..] == Find(slots[j], key, h / Fanout).path;
      InsertKeepsPlaced(slots[j], hash, d + 1, id, key);
      var sub := InsertAt(slots[j], path[1..], id, key);
      EntriesOfUpdate(slots, j, sub);
      var slots' := slots[j := sub];
      assert InsertAt(t, path, id, key) == Entry(i, k, slots');
      assert Digit(hash(key), d) == j;
      forall x, q | 0 <= x < Fanout && q in Keys(slots'[x])
        ensures Digit(hash(q), d) == x
      {
        if x != j {
          assert slots'[x] == slots[x];
        }
      }
      forall x | 0 <= x < Fanout
        ensures Placed(slots'[x], hash, d + 1)
      {
        if x != j {
          assert slots'[x] == slots[x];
        }
      }
      EntriesOfSlots(slots, j);
      assert k !in KeysOf(slots');
  }

  /** After the store, a lookup of the key finds the new entry. */
  lemma {:induction false} FindAfterInsert<K>(t: Trie<K>, hash: K -> nat, d: nat, id: nat, key: K)
    requires WellFormed(t) && Placed(t, hash, d)
    requires Find(t, key, Shift(hash(key), d)).Slot?
    ensures Find(InsertAt(t, Find(t, key, Shift(hash(key), d)).path, id, key), key, Shift(hash(key), d)) == Hit(id)
  {
    var h := Shift(hash(key), d);
    var path := Find(t, key, h).path;
    match t
    case Vacant =>
    case Entry(i, k, slots) =>
      var j := h % Fanout;
      assert Shift(hash(key), d + 1) == h / Fanout;
      assert path[0] == j && path[1..] == Find(slots[j], key, h / Fanout).path;
      FindAfterInsert(slots[j], hash, d + 1, id, key);
  }
}
