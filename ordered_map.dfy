/**
 * A JavaScript object used as a string-to-string dictionary, as a list of
 * entries in property order. Assigning to a new property appends it;
 * assigning to an existing one replaces its value where it stands.
 */
module OrderedMap {
  import opened Wrappers

  type Entries = seq<(string, string)>

  /**
   * The one key a plain object does not store by assignment: `m["__proto__"] = v`
   * runs the inherited `__proto__` setter, which ignores a string `v`.
   */
  const ProtoKey := "__proto__"

  /** The keys present. */
  function KeySet(m: Entries): set<string> {
    set i | 0 <= i < |m| :: m[i].0
  }

  /** No key appears twice, as in any JavaScript object. */
  predicate DistinctKeys(m: Entries) {
    forall i, j :: 0 <= i < j < |m| ==> m[i].0 != m[j].0
  }

  /** The keys in property order, as `Object.keys(m)` and `JSON.stringify(m)` list them. */
  function Keys(m: Entries): (r: seq<string>)
    ensures |r| == |m|
    ensures forall k :: k in r <==> k in KeySet(m)
  {
    var r := seq(|m|, i requires 0 <= i < |m| => m[i].0);
    assert forall k :: k in KeySet(m) ==> k in r by {
      forall k | k in KeySet(m) ensures k in r {
        var i :| 0 <= i < |m| && m[i].0 == k;
        assert r[i] == k;
      }
    }
    r
  }

  /** `m[k]`: the value stored under `k`, if any. */
  function Lookup(m: Entries, k: string): (r: Option<string>)
    ensures r.None? <==> k !in KeySet(m)
    ensures r.Some? ==> exists i :: 0 <= i < |m| && m[i] == (k, r.value)
  {
    if m == [] then None
    else if m[0].0 == k then Some(m[0].1)
    else
      var r := Lookup(m[1..], k);
      KeySetCons(m);
      assert r.Some? ==> exists i :: 0 <= i < |m| && m[i] == (k, r.value) by {
        if r.Some? {
          var i :| 0 <= i < |m| - 1 && m[1..][i] == (k, r.value);
          assert m[i + 1] == (k, r.value);
        }
      }
      r
  }

  /** Where `k` stands among the entries, if it is present. */
  function FindKey(m: Entries, k: string): (r: Option<nat>)
    ensures r.None? <==> k !in KeySet(m)
    ensures r.Some? ==> r.value < |m| && m[r.value].0 == k
  {
    if m == [] then None
    else if m[0].0 == k then Some(0)
    else
      KeySetCons(m);
      var r := FindKey(m[1..], k);
      if r.Some? then Some(r.value + 1) else None
  }

  /**
   * `m[k] = v`: afterwards `k` is present with value `v` and every other entry
   * is unchanged; an existing key keeps its position and a new key goes last.
   */
  function Put(m: Entries, k: string, v: string): (r: Entries)
    ensures KeySet(r) == KeySet(m) + {k}
    ensures DistinctKeys(m) ==> DistinctKeys(r)
    ensures (k, v) in r
    ensures forall e: (string, string) :: e.0 != k ==> (e in r <==> e in m)
    ensures k in KeySet(m) ==> |r| == |m| && forall i :: 0 <= i < |m| ==> r[i].0 == m[i].0
    ensures k !in KeySet(m) ==> r == m + [(k, v)]
  {
    match FindKey(m, k)
    case Some(i) =>
      var r := m[i := (k, v)];
      assert r[i] == (k, v);
      assert KeySet(r) == KeySet(m) by {
        forall x ensures x in KeySet(r) <==> x in KeySet(m) {
          if x in KeySet(m) {
            var j :| 0 <= j < |m| && m[j].0 == x;
            assert r[j].0 == x;
          }
          if x in KeySet(r) {
            var j :| 0 <= j < |r| && r[j].0 == x;
            assert m[j].0 == x;
          }
        }
      }
      assert forall e: (string, string) :: e.0 != k ==> (e in r <==> e in m) by {
        forall e: (string, string) | e.0 != k ensures e in r <==> e in m {
          if e in m { var j :| 0 <= j < |m| && m[j] == e; assert r[j] == e; }
          if e in r { var j :| 0 <= j < |r| && r[j] == e; assert m[j] == e; }
        }
      }
      r
    case None =>
      var r := m + [(k, v)];
      assert KeySet(r) == KeySet(m) + {k} by {
        forall x ensures x in KeySet(r) <==> x in KeySet(m) + {k} {
          if x in KeySet(m) {
            var j :| 0 <= j < |m| && m[j].0 == x;
            assert r[j].0 == x;
          }
          if x == k { assert r[|m|].0 == x; }
          if x in KeySet(r) {
            var j :| 0 <= j < |r| && r[j].0 == x;
            if j < |m| { assert m[j].0 == x; }
          }
        }
      }
      assert DistinctKeys(m) ==> DistinctKeys(r) by {
        if DistinctKeys(m) {
          forall i, j | 0 <= i < j < |r| ensures r[i].0 != r[j].0 {
            if j == |m| { assert r[i].0 == m[i].0 && r[i].0 in KeySet(m); }
          }
        }
      }
      r
  }

  /** Under distinct keys every entry is what `Lookup` finds for its key. */
  lemma LookupAt(m: Entries, i: int)
    requires DistinctKeys(m) && 0 <= i < |m|
    ensures Lookup(m, m[i].0) == Some(m[i].1)
  {
    var r := Lookup(m, m[i].0);
    assert m[i].0 in KeySet(m);
    var j :| 0 <= j < |m| && m[j] == (m[i].0, r.value);
    assert !(i < j) && !(j < i);
  }

  /** Under distinct keys, `Lookup` after `Put` gives the new value for `k` and the old value elsewhere. */
  lemma PutLookup(m: Entries, k: string, v: string, k': string)
    requires DistinctKeys(m)
    ensures Lookup(Put(m, k, v), k) == Some(v)
    ensures k' != k ==> Lookup(Put(m, k, v), k') == Lookup(m, k')
  {
    var r := Put(m, k, v);
    var i :| 0 <= i < |r| && r[i] == (k, v);
    LookupAt(r, i);
    if k' != k {
      var a := Lookup(r, k');
      if a.Some? {
        var j :| 0 <= j < |r| && r[j] == (k', a.value);
        assert (k', a.value) in m;
        var j' :| 0 <= j' < |m| && m[j'] == (k', a.value);
        LookupAt(m, j');
      }
    }
  }

  /** Under distinct keys, every entry after `m[k] = v` is `(k, v)` or an entry of `m`. */
  lemma PutEntries(m: Entries, k: string, v: string)
    requires DistinctKeys(m)
    ensures forall e :: e in Put(m, k, v) ==> e == (k, v) || e in m
  {
    var r := Put(m, k, v);
    forall e | e in r && e.0 == k ensures e == (k, v) {
      var i :| 0 <= i < |r| && r[i] == e;
      var j :| 0 <= j < |r| && r[j] == (k, v);
      assert !(i < j) && !(j < i);
    }
  }

  /** `m[k] = v` appends `k` to the key order when it is new, and otherwise leaves the order as it was. */
  lemma PutKeys(m: Entries, k: string, v: string)
    ensures Keys(Put(m, k, v)) == if k in KeySet(m) then Keys(m) else Keys(m) + [k]
  {
    var r := Put(m, k, v);
    if k !in KeySet(m) {
      assert Keys(r) == Keys(m) + [k] by {
        assert r == m + [(k, v)];
        forall i | 0 <= i < |r| ensures Keys(r)[i] == (Keys(m) + [k])[i] {
          if i < |m| { assert r[i] == m[i]; }
        }
      }
    } else {
      assert Keys(r) == Keys(m) by {
        forall i | 0 <= i < |r| ensures Keys(r)[i] == Keys(m)[i] {
          assert r[i].0 == m[i].0;
        }
      }
    }
  }

  lemma KeySetCons(m: Entries)
    requires m != []
    ensures KeySet(m) == {m[0].0} + KeySet(m[1..])
  {
    forall x | x in KeySet(m) ensures x in {m[0].0} + KeySet(m[1..]) {
      var i :| 0 <= i < |m| && m[i].0 == x;
      if i > 0 { assert m[1..][i - 1].0 == x; }
    }
    forall x | x in KeySet(m[1..]) ensures x in KeySet(m) {
      var i :| 0 <= i < |m| - 1 && m[1..][i].0 == x;
      assert m[i + 1].0 == x;
    }
  }

}
