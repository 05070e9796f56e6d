/**
 * The stand-alone mapping helper: a dictionary from real values to their
 * anonymised stand-ins, with an add, a reverse lookup and a clear. Its
 * direction is the opposite of the content script's `memoryMap`, which maps
 * placeholders to real text.
 */
module AnonymizationMap {
  import opened Wrappers
  import opened OrderedMap

  /** The three entries the dictionary starts with, in declaration order. */
  const Initial: Entries := [
    ("john.doe@company.com", "USER_EMAIL_001"),
    ("4532-1111-2222-3333", "CARD_001"),
    ("function getPassword()", "CODE_BLOCK_001")
  ]

  /**
   * The first key, in insertion order, whose value is `a`, or `None` (the
   * code's `null`) when no key maps to `a`.
   */
  function FirstKeyFor(es: Entries, a: string): (r: Option<string>)
    ensures r.Some? <==> exists i :: 0 <= i < |es| && es[i].1 == a
    ensures r.Some? ==> exists i :: 0 <= i < |es| && es[i] == (r.value, a) && forall j :: 0 <= j < i ==> es[j].1 != a
    decreases |es|
  {
    if es == [] then None
    else if es[0].1 == a then Some(es[0].0)
    else
      var r := FirstKeyFor(es[1..], a);
      assert (exists i :: 0 <= i < |es| && es[i].1 == a) ==> exists i :: 0 <= i < |es[1..]| && es[1..][i].1 == a by {
        if exists i :: 0 <= i < |es| && es[i].1 == a {
          var i :| 0 <= i < |es| && es[i].1 == a;
          assert es[1..][i - 1].1 == a;
        }
      }
      assert r.Some? ==> exists i :: 0 <= i < |es| && es[i] == (r.value, a) && forall j :: 0 <= j < i ==> es[j].1 != a by {
        if r.Some? {
          var i :| 0 <= i < |es[1..]| && es[1..][i] == (r.value, a) && forall j :: 0 <= j < i ==> es[1..][j].1 != a;
          assert es[i + 1] == (r.value, a);
          forall j | 0 <= j < i + 1 ensures es[j].1 != a {
            if j > 0 {
              assert es[j] == es[1..][j - 1];
            }
          }
        }
      }
      r
  }

  /**
   * After `addToAnonymizationMap(r, a)` the reverse lookup of `a` finds a
   * key, the key it finds maps to `a`, and it is `r` itself when no other key
   * mapped to `a` before.
   */
  lemma AddThenDeanonymize(es: Entries, r: string, a: string)
    requires DistinctKeys(es)
    ensures var es' := Put(es, r, a);
      && FirstKeyFor(es', a).Some?
      && Get(es', FirstKeyFor(es', a).value) == Some(a)
      && ((forall k :: k != r ==> Get(es, k) != Some(a)) ==> FirstKeyFor(es', a) == Some(r))
  {
    var es' := Put(es, r, a);
    PutKeepsDistinct(es, r, a);
    assert Get(es', r) == Some(a);
    var i :| 0 <= i < |es'| && es'[i] == (r, a);
    assert es'[i].1 == a;
    var k := FirstKeyFor(es', a).value;
    var n :| 0 <= n < |es'| && es'[n] == (k, a) && forall j :: 0 <= j < n ==> es'[j].1 != a;
    GetAt(es', n);
    if k != r {
      assert Get(es, k) == Some(a);
    }
  }

  /** The dictionary starts with three entries, and `CARD_001` leads back to the card number. */
  lemma InitialLookup()
    ensures |Initial| == 3 && DistinctKeys(Initial)
    ensures FirstKeyFor(Initial, "CARD_001") == Some("4532-1111-2222-3333")
    ensures FirstKeyFor(Initial, "4532-1111-2222-3333") == None
  {
    assert Initial[0].1 != "CARD_001";
    assert Initial[1..][0].1 == "CARD_001";
    assert Initial[0].0 != Initial[1].0;
    assert Initial[1].0 != Initial[2].0;
    assert Initial[0].0 != Initial[2].0;
  }

  /** The keys of the entries, in insertion order: what `for (let key in obj)` visits. */
  function KeyList(es: Entries): (ks: seq<string>)
    ensures |ks| == |es| && forall i :: 0 <= i < |es| ==> ks[i] == es[i].0
  {
    seq(|es|, i requires 0 <= i < |es| => es[i].0)
  }

  class Store {
    /** The module-level `anonymizationMap` object: real value to anonymised value. */
    var entries: Entries

    /** An object's keys are distinct. */
    ghost predicate Valid()
      reads this
    {
      DistinctKeys(entries)
    }

    /** The dictionary as declared. */
    constructor ()
      ensures Valid() && entries == Initial
      ensures FirstKeyFor(entries, "CARD_001") == Some("4532-1111-2222-3333")
    {
      entries := Initial;
      InitialLookup();
    }

    /** `addToAnonymizationMap`: sets `map[realValue]`, overwriting an existing key in place. */
    method Add(realValue: string, anonymizedValue: string)
      requires Valid()
      modifies this
      ensures Valid()
      ensures entries == Put(old(entries), realValue, anonymizedValue)
      ensures Get(entries, realValue) == Some(anonymizedValue)
      ensures forall k :: k != realValue ==> Get(entries, k) == Get(old(entries), k)
      ensures FirstKeyFor(entries, anonymizedValue).Some?
    {
      PutKeepsDistinct(entries, realValue, anonymizedValue);
      AddThenDeanonymize(entries, realValue, anonymizedValue);
      entries := Put(entries, realValue, anonymizedValue);
    }

    /**
     * `deanonymize`: walks the entries in insertion order and returns the
     * first key whose value is `anonymizedValue`, or `None` when there is
     * none. It changes nothing.
     */
    method Deanonymize(anonymizedValue: string) returns (r: Option<string>)
      ensures r == FirstKeyFor(entries, anonymizedValue)
    {
      var i := 0;
      while i < |entries|
        invariant i <= |entries|
        invariant forall j :: 0 <= j < i ==> entries[j].1 != anonymizedValue
      {
        if entries[i].1 == anonymizedValue {
          r := Some(entries[i].0);
          return;
        }
        i := i + 1;
      }
      r := None;
    }

    /**
     * `clearAnonymizationMap`: deletes every key the object had, one after
     * another, so that afterwards no value can be looked up.
     */
    method Clear()
      requires Valid()
      modifies this
      ensures Valid() && entries == []
      ensures forall a :: FirstKeyFor(entries, a) == None
    {
      var keys := KeyList(entries);
      var i := 0;
      while i < |keys|
        invariant i <= |keys| == |old(entries)|
        invariant entries == old(entries)[i..]
        invariant forall j :: i <= j < |keys| ==> keys[j] == old(entries)[j].0
      {
        assert DistinctKeys(entries);
        entries := Remove(entries, keys[i]);
        i := i + 1;
      }
    }
  }
}
