/** A JavaScript object used as a dictionary from string keys to values.

    What the store relies on is the object's iteration order: `Object.keys`
    lists keys in the order they were first inserted, assigning to an existing
    key keeps its position, and `delete` drops the key from the order. This
    module models such an object as its key sequence plus a map.
    (Keys that look like array indices, which JavaScript lists first, are not
    distinguished.) */
module Records {

  datatype Rec<V> = Rec(keys: seq<string>, entries: map<string, V>) {

    /** Keys are listed once each, and exactly the keys of the map are listed. */
    ghost predicate Valid() {
      && Distinct(keys)
      && (forall k :: k in entries <==> k in keys)
    }
  }

  function Empty<V>(): (r: Rec<V>)
    ensures r.Valid() && r.entries == map[] && r.keys == []
  {
    Rec([], map[])
  }

  /** `obj[k] = v`: a new key goes to the end, an existing key keeps its place. */
  function Set<V>(r: Rec<V>, k: string, v: V): (r': Rec<V>)
    ensures r.Valid() ==> r'.Valid()
    ensures r'.entries == r.entries[k := v]
    ensures |r.keys| <= |r'.keys| && r'.keys[..|r.keys|] == r.keys
    ensures k in r.entries ==> |r'.keys| == |r.keys|
    ensures k !in r.entries ==> r'.keys == r.keys + [k]
  {
    if k in r.entries then Rec(r.keys, r.entries[k := v])
    else Rec(r.keys + [k], r.entries[k := v])
  }

  /** The keys of `ks` other than `k`, in their order. */
  function Without(ks: seq<string>, k: string): (r: seq<string>)
    ensures forall x :: x in r <==> x in ks && x != k
    ensures |r| <= |ks|
  {
    if ks == [] then []
    else if ks[0] == k then Without(ks[1..], k)
    else [ks[0]] + Without(ks[1..], k)
  }

  /** `delete obj[k]`. */
  function Remove<V>(r: Rec<V>, k: string): (r': Rec<V>)
    ensures r'.entries == r.entries - {k}
    ensures k !in r'.keys
  {
    Rec(Without(r.keys, k), r.entries - {k})
  }

  /** Assigning the pairs of `ps` to `r` one after the other, as a loop
      `for (const [k, v] of ps) obj[k] = v` does. */
  function PutAll<V>(r: Rec<V>, ps: seq<(string, V)>): Rec<V>
    decreases |ps|
  {
    if ps == [] then r
    else
      var last := ps[|ps| - 1];
      Set(PutAll(r, ps[..|ps| - 1]), last.0, last.1)
  }

  /** The map that the pairs of `ps` describe when a later pair wins. */
  function PairsToMap<V>(ps: seq<(string, V)>): map<string, V>
    decreases |ps|
  {
    if ps == [] then map[]
    else
      var last := ps[|ps| - 1];
      PairsToMap(ps[..|ps| - 1])[last.0 := last.1]
  }

  /** The first components of `ps`, in order. */
  function KeysOf<V>(ps: seq<(string, V)>): (r: seq<string>)
    ensures |r| == |ps| && forall i :: 0 <= i < |ps| ==> r[i] == ps[i].0
  {
    seq(|ps|, i requires 0 <= i < |ps| => ps[i].0)
  }

  ghost predicate Distinct(ks: seq<string>) {
    forall i, j :: 0 <= i < j < |ks| ==> ks[i] != ks[j]
  }

  // ---------------------------------------------------------------------
  // Lemmas

  lemma {:induction false} WithoutDistinct(ks: seq<string>, k: string)
    requires Distinct(ks)
    ensures Distinct(Without(ks, k))
  {
    if ks != [] {
      assert Distinct(ks[1..]) by {
        forall i, j | 0 <= i < j < |ks| - 1 ensures ks[1..][i] != ks[1..][j] {
          assert ks[i + 1] != ks[j + 1];
        }
      }
      WithoutDistinct(ks[1..], k);
      var rest := Without(ks[1..], k);
      if ks[0] != k {
        forall j | 0 <= j < |ks| - 1 ensures ks[1..][j] != ks[0] {
          assert ks[j + 1] != ks[0];
        }
        assert ks[0] !in rest;
        assert Without(ks, k) == [ks[0]] + rest;
      }
    }
  }

  /** Removing a key that sits at position `i` leaves the others in place. */
  lemma {:induction false} WithoutAt(ks: seq<string>, i: nat)
    requires Distinct(ks) && i < |ks|
    ensures Without(ks, ks[i]) == ks[..i] + ks[i + 1..]
  {
    if i == 0 {
      WithoutAbsent(ks[1..], ks[0]);
    } else {
      WithoutAt(ks[1..], i - 1);
      assert ks[1..][i - 1] == ks[i];
      assert ks[1..][..i - 1] + ks[1..][i..] == ks[1..i] + ks[i + 1..];
      assert ks[..i] == [ks[0]] + ks[1..i];
    }
  }

  lemma {:induction false} WithoutAbsent(ks: seq<string>, k: string)
    requires k !in ks
    ensures Without(ks, k) == ks
  {
    if ks != [] {
      assert ks[0] != k;
      WithoutAbsent(ks[1..], k);
      assert ks == [ks[0]] + ks[1..];
    }
  }

  /** Deleting keeps a valid object valid, and removes exactly that key. */
  lemma RemoveValid<V>(r: Rec<V>, k: string)
    requires r.Valid()
    ensures Remove(r, k).Valid()
    ensures forall x :: x in Remove(r, k).keys <==> x in r.keys && x != k
  {
    WithoutDistinct(r.keys, k);
  }

  /** The loop keeps a valid object valid. */
  lemma {:induction false} PutAllValid<V>(r: Rec<V>, ps: seq<(string, V)>)
    requires r.Valid()
    ensures PutAll(r, ps).Valid()
    decreases |ps|
  {
    if ps != [] {
      PutAllValid(r, ps[..|ps| - 1]);
    }
  }

  /** After the loop, the object holds its old entries overridden by the
      pairs, later pairs winning. */
  lemma {:induction false} PutAllEntries<V>(r: Rec<V>, ps: seq<(string, V)>)
    ensures PutAll(r, ps).entries == r.entries + PairsToMap(ps)
    decreases |ps|
  {
    if ps != [] {
      PutAllEntries(r, ps[..|ps| - 1]);
    }
  }

  /** Starting from an empty object, the entries are those of the pairs. */
  lemma PutAllEmptyEntries<V>(ps: seq<(string, V)>)
    ensures PutAll(Empty(), ps).entries == PairsToMap(ps)
  {
    PutAllEntries(Empty(), ps);
    assert Empty<V>().entries + PairsToMap(ps) == PairsToMap(ps);
  }

  /** A key is in the map of the pairs iff some pair carries it. */
  lemma {:induction false} PairsToMapKeys<V>(ps: seq<(string, V)>, k: string)
    ensures k in PairsToMap(ps) <==> exists i :: 0 <= i < |ps| && ps[i].0 == k
    decreases |ps|
  {
    if ps != [] {
      var init := ps[..|ps| - 1];
      PairsToMapKeys(init, k);
      if exists i :: 0 <= i < |init| && init[i].0 == k {
        var i :| 0 <= i < |init| && init[i].0 == k;
        assert ps[i].0 == k;
      }
      if exists i :: 0 <= i < |ps| && ps[i].0 == k {
        var i :| 0 <= i < |ps| && ps[i].0 == k;
        if i < |ps| - 1 {
          assert init[i].0 == k;
        }
      }
    }
  }

  /** Last write wins: the value under `k` is the one of the last pair with
      key `k`. */
  lemma {:induction false} PairsToMapLast<V>(ps: seq<(string, V)>, i: nat)
    requires i < |ps|
    requires forall j :: i < j < |ps| ==> ps[j].0 != ps[i].0
    ensures ps[i].0 in PairsToMap(ps) && PairsToMap(ps)[ps[i].0] == ps[i].1
    decreases |ps|
  {
    if i < |ps| - 1 {
      var init := ps[..|ps| - 1];
      PairsToMapLast(init, i);
    }
  }

  /** The keys after the loop are the old keys and those of the pairs. */
  lemma {:induction false} PutAllDomain<V>(r: Rec<V>, ps: seq<(string, V)>)
    ensures forall k :: k in PutAll(r, ps).entries <==> k in r.entries || k in KeysOf(ps)
    decreases |ps|
  {
    if ps != [] {
      var init := ps[..|ps| - 1];
      PutAllDomain(r, init);
      assert KeysOf(ps) == KeysOf(init) + [ps[|ps| - 1].0];
    }
  }

  /** With distinct keys, each pair's value ends up under its key. */
  lemma PairsToMapDistinct<V>(ps: seq<(string, V)>, i: nat)
    requires Distinct(KeysOf(ps)) && i < |ps|
    ensures ps[i].0 in PairsToMap(ps) && PairsToMap(ps)[ps[i].0] == ps[i].1
  {
    forall j | i < j < |ps| ensures ps[j].0 != ps[i].0 {
      assert KeysOf(ps)[i] != KeysOf(ps)[j];
    }
    PairsToMapLast(ps, i);
  }

  /** The map of the pairs has exactly the pairs' keys. */
  lemma PairsToMapDomain<V>(ps: seq<(string, V)>)
    ensures forall k :: k in PairsToMap(ps) <==> k in KeysOf(ps)
  {
    forall k ensures k in PairsToMap(ps) <==> k in KeysOf(ps) {
      PairsToMapKeys(ps, k);
      if k in KeysOf(ps) {
        var i :| 0 <= i < |ps| && KeysOf(ps)[i] == k;
        assert ps[i].0 == k;
      }
      if k in PairsToMap(ps) {
        var i :| 0 <= i < |ps| && ps[i].0 == k;
        assert KeysOf(ps)[i] == k;
      }
    }
  }

  /** When the pairs bring new, distinct keys, they are appended in order. */
  lemma {:induction false} PutAllFreshKeys<V>(r: Rec<V>, ps: seq<(string, V)>)
    requires Distinct(KeysOf(ps))
    requires forall i :: 0 <= i < |ps| ==> ps[i].0 !in r.entries
    ensures PutAll(r, ps).keys == r.keys + KeysOf(ps)
    decreases |ps|
  {
    if ps != [] {
      var init := ps[..|ps| - 1];
      assert Distinct(KeysOf(init)) by {
        forall i, j | 0 <= i < j < |init| ensures KeysOf(init)[i] != KeysOf(init)[j] {
          assert KeysOf(ps)[i] != KeysOf(ps)[j];
        }
      }
      PutAllFreshKeys(r, init);
      PutAllEntries(r, init);
      var last := ps[|ps| - 1];
      PairsToMapKeys(init, last.0);
      forall i | 0 <= i < |init| ensures init[i].0 != last.0 {
        assert KeysOf(ps)[i] != KeysOf(ps)[|ps| - 1];
      }
      assert last.0 !in PutAll(r, init).entries;
      assert KeysOf(ps) == KeysOf(init) + [last.0];
    }
  }
}
