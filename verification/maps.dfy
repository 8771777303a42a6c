/** The records of a level as a map from keys to records. */
module Maps {
  import opened Keys
  import opened Order
  import opened Nodes
  import opened Levels
  import opened Steps

  /** A record sequence as a map from keys to records. */
  ghost function AsMap(f: seq<Rec>): map<Key, Rec> {
    if f == [] then map[] else AsMap(f[..|f| - 1])[f[|f| - 1].key := f[|f| - 1]]
  }

  lemma {:induction false} AsMapKeys(cmp: CmpFn, f: seq<Rec>)
    requires TotalOrder(cmp) && Sorted(cmp, f)
    ensures forall k :: k in AsMap(f) ==> HasKey(f, k)
    ensures forall j :: 0 <= j < |f| ==> f[j].key in AsMap(f) && AsMap(f)[f[j].key] == f[j]
    decreases |f|
  {
    if f != [] {
      var n := |f| - 1;
      var f0 := f[..n];
      AsMapKeys(cmp, f0);
      forall k | k in AsMap(f) ensures HasKey(f, k) {
        if k == f[n].key {
        } else {
          var j :| 0 <= j < |f0| && f0[j].key == k;
          assert f[j].key == k;
        }
      }
      forall j | 0 <= j < n ensures f[j].key in AsMap(f) && AsMap(f)[f[j].key] == f[j] {
        assert f0[j] == f[j];
        Flip(cmp, f[j].key, f[n].key);
      }
    }
  }

  /** A map with the keys and values of a sorted record sequence is its map. */
  lemma AsMapIs(cmp: CmpFn, f: seq<Rec>, m: map<Key, Rec>)
    requires TotalOrder(cmp) && Sorted(cmp, f)
    requires forall k :: k in m ==> HasKey(f, k)
    requires forall j :: 0 <= j < |f| ==> f[j].key in m && m[f[j].key] == f[j]
    ensures AsMap(f) == m
  {
    AsMapKeys(cmp, f);
    hide AsMap;
    forall k | k in AsMap(f) ensures k in m && m[k] == AsMap(f)[k] {
      var j :| 0 <= j < |f| && f[j].key == k;
    }
  }

  lemma AsMapInsert(cmp: CmpFn, f: seq<Rec>, g: int, rec: Rec)
    requires TotalOrder(cmp) && Sorted(cmp, f) && IsFloor(cmp, f, rec.key, g) && !HasKey(f, rec.key)
    ensures AsMap(InsertAt(f, g + 1, rec)) == AsMap(f)[rec.key := rec]
  {
    hide AsMap, HasKey;
    var f' := InsertAt(f, g + 1, rec);
    if f[g].key == rec.key { HasKeyAt(f, g); }
    SortedInsert(cmp, f, rec, g, f');
    AsMapKeys(cmp, f);
    var m := AsMap(f)[rec.key := rec];
    InsertedKeys(f, g, rec, f');
    InsertedValues(f, g, rec, f', m);
    AsMapIs(cmp, f', m);
  }

  lemma HasKeyAt(f: seq<Rec>, g: nat)
    requires g < |f|
    ensures HasKey(f, f[g].key)
  {
  }

  lemma InsertedKeys(f: seq<Rec>, g: nat, rec: Rec, f': seq<Rec>)
    requires g < |f| && f' == InsertAt(f, g + 1, rec)
    ensures HasKey(f', rec.key) && forall k :: HasKey(f, k) ==> HasKey(f', k)
  {
    assert f'[g + 1] == rec;
    forall k | HasKey(f, k) ensures HasKey(f', k) {
      var j :| 0 <= j < |f| && f[j].key == k;
      assert f'[if j <= g then j else j + 1] == f[j];
    }
  }

  lemma RemovedKeys(f: seq<Rec>, g: nat, f': seq<Rec>)
    requires g < |f| && f' == RemoveAt(f, g)
    ensures forall k :: HasKey(f, k) && k != f[g].key ==> HasKey(f', k)
  {
    forall k | HasKey(f, k) && k != f[g].key ensures HasKey(f', k) {
      var j :| 0 <= j < |f| && f[j].key == k;
      assert f'[if j < g then j else j - 1] == f[j];
    }
  }

  lemma InsertedValues(f: seq<Rec>, g: int, rec: Rec, f': seq<Rec>, m: map<Key, Rec>)
    requires 0 <= g < |f| && !HasKey(f, rec.key) && f' == InsertAt(f, g + 1, rec)
    requires rec.key in m && m[rec.key] == rec
    requires forall j :: 0 <= j < |f| && f[j].key != rec.key ==> f[j].key in m && m[f[j].key] == f[j]
    ensures forall j :: 0 <= j < |f'| ==> f'[j].key in m && m[f'[j].key] == f'[j]
  {
    forall j | 0 <= j < |f'| ensures f'[j].key in m && m[f'[j].key] == f'[j] {
      if j != g + 1 {
        var o := if j <= g then j else j - 1;
        assert f'[j] == f[o];
        assert f[o].key == rec.key ==> HasKey(f, rec.key);
      }
    }
  }

  lemma AsMapRemove(cmp: CmpFn, f: seq<Rec>, g: nat)
    requires TotalOrder(cmp) && Sorted(cmp, f) && g < |f|
    ensures AsMap(RemoveAt(f, g)) == AsMap(f) - {f[g].key}
  {
    hide AsMap, HasKey;
    var f' := RemoveAt(f, g);
    SortedRemove(cmp, f, g, f');
    AsMapKeys(cmp, f);
    var m := AsMap(f) - {f[g].key};
    RemovedKeys(f, g, f');
    RemovedValues(cmp, f, g, f', m);
    AsMapIs(cmp, f', m);
  }

  lemma RemovedValues(cmp: CmpFn, f: seq<Rec>, g: nat, f': seq<Rec>, m: map<Key, Rec>)
    requires TotalOrder(cmp) && Sorted(cmp, f) && g < |f| && f' == RemoveAt(f, g)
    requires forall j :: 0 <= j < |f| && f[j].key != f[g].key ==> f[j].key in m && m[f[j].key] == f[j]
    ensures forall j :: 0 <= j < |f'| ==> f'[j].key in m && m[f'[j].key] == f'[j]
  {
    forall j | 0 <= j < |f'| ensures f'[j].key in m && m[f'[j].key] == f'[j] {
      var o := if j < g then j else j + 1;
      assert f'[j] == f[o];
      Flip(cmp, f[o].key, f[g].key);
      Flip(cmp, f[g].key, f[o].key);
    }
  }

  lemma HasKeyAsMap(cmp: CmpFn, f: seq<Rec>, key: Key)
    requires TotalOrder(cmp) && Sorted(cmp, f)
    ensures key in AsMap(f) <==> HasKey(f, key)
  {
    AsMapKeys(cmp, f);
  }

  lemma OneKey(f: seq<Rec>, key: Key)
    requires |f| == 1
    ensures HasKey(f, key) <==> f[0].key == key
  {
  }
}
