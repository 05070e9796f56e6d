/**
 * A JavaScript object used as a string dictionary, as both `memoryMap` and
 * `anonymizationMap` are: a list of key/value entries in insertion order.
 * Assigning to an existing key overwrites its value where it stands;
 * assigning to a new key appends it; `delete` removes it.
 */
module OrderedMap {
  import opened Wrappers

  type Entry = (string, string)
  type Entries = seq<Entry>

  predicate HasKey(es: Entries, k: string)
  {
    exists i :: 0 <= i < |es| && es[i].0 == k
  }

  predicate DistinctKeys(es: Entries)
  {
    forall i, j :: 0 <= i < j < |es| ==> es[i].0 != es[j].0
  }

  lemma HasKeyCons(es: Entries, k: string)
    requires es != []
    ensures HasKey(es, k) == (es[0].0 == k || HasKey(es[1..], k))
  {
    if HasKey(es[1..], k) {
      var i :| 0 <= i < |es[1..]| && es[1..][i].0 == k;
      assert es[i + 1].0 == k;
    }
    if HasKey(es, k) && es[0].0 != k {
      var i :| 0 <= i < |es| && es[i].0 == k;
      assert es[1..][i - 1].0 == k;
    }
  }

  /** In a dictionary with distinct keys, looking up the key of an entry gives that entry's value. */
  lemma {:induction false} GetAt(es: Entries, i: nat)
    requires DistinctKeys(es) && i < |es|
    ensures Get(es, es[i].0) == Some(es[i].1)
    decreases i
  {
    if i > 0 {
      assert es[0].0 != es[i].0;
      assert es[1..][i - 1] == es[i];
      GetAt(es[1..], i - 1);
    }
  }

  /** The keys of the entries. */
  function Keys(es: Entries): set<string>
    decreases |es|
  {
    if es == [] then {} else {es[0].0} + Keys(es[1..])
  }

  /** The keys are exactly what `HasKey` finds. */
  lemma {:induction false} KeysHasKey(es: Entries, k: string)
    ensures k in Keys(es) <==> HasKey(es, k)
    decreases |es|
  {
    if es != [] {
      HasKeyCons(es, k);
      KeysHasKey(es[1..], k);
    }
  }

  lemma KeysCons(e: Entry, es: Entries)
    ensures Keys([e] + es) == {e.0} + Keys(es)
  {
    assert ([e] + es)[1..] == es;
  }

  lemma {:induction false} KeysConcat(a: Entries, b: Entries)
    ensures Keys(a + b) == Keys(a) + Keys(b)
    decreases |a|
  {
    if a == [] {
      assert a + b == b;
    } else {
      assert (a + b)[0] == a[0] && (a + b)[1..] == a[1..] + b;
      KeysConcat(a[1..], b);
    }
  }

  /** The map `d` holds every entry of `es`. */
  predicate Agrees(d: map<string, string>, es: Entries)
  {
    forall i :: 0 <= i < |es| ==> es[i].0 in d && d[es[i].0] == es[i].1
  }

  lemma AgreesConcat(d: map<string, string>, a: Entries, b: Entries)
    ensures Agrees(d, a + b) == (Agrees(d, a) && Agrees(d, b))
  {
    if Agrees(d, a + b) {
      forall i | 0 <= i < |a| ensures a[i].0 in d && d[a[i].0] == a[i].1 {
        assert a[i] == (a + b)[i];
      }
      forall i | 0 <= i < |b| ensures b[i].0 in d && d[b[i].0] == b[i].1 {
        assert b[i] == (a + b)[|a| + i];
      }
    }
    if Agrees(d, a) && Agrees(d, b) {
      forall i | 0 <= i < |a + b| ensures (a + b)[i].0 in d && d[(a + b)[i].0] == (a + b)[i].1 {
        if i >= |a| {
          assert (a + b)[i] == b[i - |a|];
        }
      }
    }
  }

  /** `obj[k]`, `undefined` being `None`. */
  function Get(es: Entries, k: string): (r: Option<string>)
    ensures r.Some? <==> HasKey(es, k)
    ensures r.Some? ==> exists i :: 0 <= i < |es| && es[i] == (k, r.value)
    decreases |es|
  {
    if es == [] then None
    else if es[0].0 == k then Some(es[0].1)
    else
      HasKeyCons(es, k);
      var r := Get(es[1..], k);
      assert r.Some? ==> exists i :: 0 <= i < |es| && es[i] == (k, r.value) by {
        if r.Some? {
          var i :| 0 <= i < |es[1..]| && es[1..][i] == (k, r.value);
          assert es[i + 1] == (k, r.value);
        }
      }
      r
  }

  /** `obj[k] = v`. */
  function Put(es: Entries, k: string, v: string): (r: Entries)
    ensures Get(r, k) == Some(v)
    ensures forall k' :: k' != k ==> Get(r, k') == Get(es, k')
    ensures HasKey(es, k) ==> |r| == |es| && forall i :: 0 <= i < |es| ==> r[i].0 == es[i].0
    ensures !HasKey(es, k) ==> r == es + [(k, v)]
    decreases |es|
  {
    if es == [] then [(k, v)]
    else if es[0].0 == k then
      var r := [(k, v)] + es[1..];
      assert r[1..] == es[1..];
      r
    else
      HasKeyCons(es, k);
      var rest := Put(es[1..], k, v);
      var r := [es[0]] + rest;
      assert r[1..] == rest;
      ConsSnoc(es, (k, v));
      r
  }

  /** Putting the first entry back in front of the rest with `e` appended is appending `e`. */
  lemma ConsSnoc(es: Entries, e: (string, string))
    requires es != []
    ensures [es[0]] + (es[1..] + [e]) == es + [e]
  {
    assert es == [es[0]] + es[1..];
  }

  lemma PutKeepsDistinct(es: Entries, k: string, v: string)
    ensures DistinctKeys(es) ==> DistinctKeys(Put(es, k, v))
  {
    var r := Put(es, k, v);
    if DistinctKeys(es) && !HasKey(es, k) {
      forall i | 0 <= i < |es| ensures es[i].0 != k { }
    }
  }

  /** Puts the entries of `kvs` one after another, as a sequence of assignments does. */
  function PutAll(es: Entries, kvs: Entries): (r: Entries)
    ensures DistinctKeys(es) ==> DistinctKeys(r)
    ensures forall k :: !HasKey(kvs, k) ==> Get(r, k) == Get(es, k)
    decreases |kvs|
  {
    if kvs == [] then es
    else
      var r := PutAll(Put(es, kvs[0].0, kvs[0].1), kvs[1..]);
      PutKeepsDistinct(es, kvs[0].0, kvs[0].1);
      assert forall k :: !HasKey(kvs, k) ==> !HasKey(kvs[1..], k) && k != kvs[0].0 by {
        forall k ensures !HasKey(kvs, k) ==> !HasKey(kvs[1..], k) && k != kvs[0].0 {
          HasKeyCons(kvs, k);
        }
      }
      r
  }

  /** Every entry after `obj[k] = v` was there before or is the new one. */
  lemma {:induction false} PutEntries(es: Entries, k: string, v: string)
    ensures forall e :: e in Put(es, k, v) ==> e in es || e == (k, v)
    decreases |es|
  {
    if es != [] && es[0].0 != k {
      PutEntries(es[1..], k, v);
      assert forall e :: e in es[1..] ==> e in es;
    }
  }

  /** Every entry after a run of assignments was there before or was assigned. */
  lemma {:induction false} PutAllEntries(es: Entries, kvs: Entries)
    ensures forall e :: e in PutAll(es, kvs) ==> e in es || e in kvs
    decreases |kvs|
  {
    if kvs != [] {
      PutEntries(es, kvs[0].0, kvs[0].1);
      PutAllEntries(Put(es, kvs[0].0, kvs[0].1), kvs[1..]);
      assert kvs[0] in kvs;
      assert forall e :: e in kvs[1..] ==> e in kvs;
    }
  }

  /** Assigning `a` and then `b` is assigning `a + b`. */
  lemma {:induction false} PutAllConcat(es: Entries, a: Entries, b: Entries)
    ensures PutAll(es, a + b) == PutAll(PutAll(es, a), b)
    decreases |a|
  {
    if a != [] {
      assert (a + b)[0] == a[0] && (a + b)[1..] == a[1..] + b;
      PutAllConcat(Put(es, a[0].0, a[0].1), a[1..], b);
    } else {
      assert a + b == b;
    }
  }

  /** Assigning one more entry after `a`. */
  lemma PutAllSnoc(es: Entries, a: Entries, k: string, v: string)
    ensures PutAll(es, a + [(k, v)]) == Put(PutAll(es, a), k, v)
  {
    PutAllConcat(es, a, [(k, v)]);
    assert [(k, v)][1..] == [];
  }

  /** After assigning entries whose keys are pairwise different, each key holds its assigned value. */
  lemma {:induction false} PutAllGet(es: Entries, kvs: Entries)
    requires DistinctKeys(kvs)
    ensures forall i :: 0 <= i < |kvs| ==> Get(PutAll(es, kvs), kvs[i].0) == Some(kvs[i].1)
    decreases |kvs|
  {
    if kvs != [] {
      var k, v := kvs[0].0, kvs[0].1;
      var tail := kvs[1..];
      assert forall i :: 0 <= i < |tail| ==> tail[i] == kvs[i + 1];
      PutAllGet(Put(es, k, v), tail);
      assert !HasKey(tail, k);
      forall i | 0 <= i < |kvs| ensures Get(PutAll(es, kvs), kvs[i].0) == Some(kvs[i].1) {
        if i > 0 {
          assert kvs[i] == tail[i - 1];
        }
      }
    }
  }

  /** So the dictionary they end up in holds all of them. */
  lemma AgreesPutAll(es: Entries, kvs: Entries)
    requires DistinctKeys(kvs)
    ensures Agrees(ToMap(PutAll(es, kvs)), kvs)
  {
    PutAllGet(es, kvs);
  }

  /** `delete obj[k]`. */
  function Remove(es: Entries, k: string): (r: Entries)
    ensures !HasKey(r, k)
    ensures forall k' :: k' != k ==> Get(r, k') == Get(es, k')
    ensures !HasKey(es, k) ==> r == es
    ensures DistinctKeys(es) && es != [] && es[0].0 == k ==> r == es[1..]
    decreases |es|
  {
    if es == [] then []
    else
      HasKeyCons(es, k);
      var rest := Remove(es[1..], k);
      if es[0].0 == k then
        assert DistinctKeys(es) ==> !HasKey(es[1..], k) by {
          if DistinctKeys(es) {
            forall i | 0 <= i < |es[1..]| ensures es[1..][i].0 != k {
              assert es[1..][i] == es[i + 1];
            }
          }
        }
        rest
      else
        var r := [es[0]] + rest;
        assert r[1..] == rest;
        HasKeyCons(r, k);
        r
  }

  /** The dictionary as a mathematical map (the first entry wins if a key repeats). */
  function ToMap(es: Entries): (m: map<string, string>)
    ensures forall k :: (k in m) == HasKey(es, k)
    ensures forall k :: k in m ==> Get(es, k) == Some(m[k])
    decreases |es|
  {
    if es == [] then map[]
    else
      var rest := ToMap(es[1..]);
      assert forall k :: HasKey(es, k) == (k == es[0].0 || HasKey(es[1..], k)) by {
        forall k ensures HasKey(es, k) == (k == es[0].0 || HasKey(es[1..], k)) {
          HasKeyCons(es, k);
        }
      }
      rest[es[0].0 := es[0].1]
  }
}
