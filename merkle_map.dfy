/** The authenticated key-value map the contract stores only by its root.

    A Merkle map is total: every key holds a value, 0 unless written. Its
    root is a collision-resistant commitment to that total map, so two roots
    are equal exactly when the maps are. The model takes the committed map
    itself as the root, in the canonical form that lists only the keys whose
    value is not 0. A witness for a key carries what the hash path carries:
    the key and the rest of the map; replaying it with an assumed value gives
    the root the map would have if the key held that value. */
module MerkleMaps {

  type Key = nat
  type Value = nat

  /** A total map with default 0, written without its zero entries. */
  type Entries = m: map<Key, Value> | forall k :: k in m ==> m[k] != 0

  /** The value of a stored root field. `ZeroField` is the field element 0
      that an on-chain state field holds before anything is written to it:
      it is the root of no map. */
  datatype Root = ZeroField | MapRoot(entries: Entries)

  /** A Merkle map witness: the key it is bound to and the other entries. */
  datatype Witness = Witness(key: Key, others: Entries)

  /** The value `m` holds at `k`. */
  function Lookup(m: Entries, k: Key): Value
  {
    if k in m then m[k] else 0
  }

  /** `m` with `k` set to `v`, every other key as it was. */
  function Assign(m: Entries, k: Key, v: Value): (r: Entries)
    ensures Lookup(r, k) == v
    ensures forall j :: j != k ==> Lookup(r, j) == Lookup(m, j)
  {
    if v == 0 then m - {k} else m[k := v]
  }

  /** Two canonical maps that agree at every key are the same map. */
  lemma EntriesExtensional(a: Entries, b: Entries)
    requires forall k :: Lookup(a, k) == Lookup(b, k)
    ensures a == b
  {
    forall k ensures k in a <==> k in b {
      assert Lookup(a, k) == Lookup(b, k);
    }
    forall k | k in a ensures a[k] == b[k] {
      assert Lookup(a, k) == Lookup(b, k);
    }
  }

  /** `MerkleMapWitness.computeRootAndKey`: the root the map would have if
      the witness's key held `v`, and that key. */
  function ComputeRootAndKey(w: Witness, v: Value): (r: (Root, Key))
    ensures r.1 == w.key
    ensures r.0.MapRoot? && Lookup(r.0.entries, w.key) == v
    ensures forall k :: k != w.key ==> Lookup(r.0.entries, k) == Lookup(w.others, k)
  {
    (MapRoot(Assign(w.others, w.key, v)), w.key)
  }

  /** `MerkleMap.getWitness`: the witness for key `k` in map `m`. */
  function GetWitness(m: Entries, k: Key): (w: Witness)
    ensures w.key == k
    ensures ComputeRootAndKey(w, Lookup(m, k)).0 == MapRoot(m)
  {
    var w := Witness(k, m);
    EntriesExtensional(Assign(m, k, Lookup(m, k)), m);
    w
  }

  /** A replay reproduces a stored root exactly when the root is a map root
      that holds the assumed value at the witness's key and agrees with the
      witness everywhere else. This is how the contract learns the current
      value at a key without reading it. */
  lemma ReplayMatches(w: Witness, v: Value, root: Root)
    ensures ComputeRootAndKey(w, v).0 == root <==>
      && root.MapRoot?
      && Lookup(root.entries, w.key) == v
      && forall k :: k != w.key ==> Lookup(root.entries, k) == Lookup(w.others, k)
  {
    var r := ComputeRootAndKey(w, v).0;
    if
      && root.MapRoot?
      && Lookup(root.entries, w.key) == v
      && forall k :: k != w.key ==> Lookup(root.entries, k) == Lookup(w.others, k)
    {
      EntriesExtensional(r.entries, root.entries);
    }
  }

  /** A witness that reproduces `root` with value `v` proves nothing else:
      it reproduces it with no other value. */
  lemma ReplayBindsValue(w: Witness, v: Value, v': Value, root: Root)
    requires ComputeRootAndKey(w, v).0 == root
    requires ComputeRootAndKey(w, v').0 == root
    ensures v == v'
  {
  }

  /** Once a witness reproduces `root`, replaying it with a new value gives
      the root of the stored map with only that key changed. */
  lemma ReplayUpdates(w: Witness, v: Value, v': Value, root: Root)
    requires ComputeRootAndKey(w, v).0 == root
    ensures root.MapRoot?
    ensures ComputeRootAndKey(w, v').0 == MapRoot(Assign(root.entries, w.key, v'))
  {
    ReplayMatches(w, v, root);
    EntriesExtensional(ComputeRootAndKey(w, v').0.entries, Assign(root.entries, w.key, v'));
  }
}
