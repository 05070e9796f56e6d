/**
 * The observer's reverse substitution: for a text node's value, every
 * (placeholder, real) entry of `memoryMap`, in insertion order, whose
 * placeholder occurs in the value is replaced throughout by its real text,
 * and the node is written only when something was replaced.
 *
 * The code calls `replaceAll(placeholder, real)` with the real text as a
 * replacement TEMPLATE, so a real text holding "$$", "$&", "$`" or "$'" is
 * not put back as it was (`RestoreAsWrittenDollar`). `Restore` is the
 * replacement the observer is meant to do, the literal one; the two agree
 * whenever no real text holds a '$' (`RestoreAsWrittenLiteral`), which is
 * always so for what the fast pass records. The main result is
 * `SyncRoundTrip`: the observer gives back exactly the text the fast pass
 * anonymised.
 */
module Observer {
  import opened Text
  import opened OrderedMap
  import opened Placeholders
  import opened SyncPass

  /** `val.replaceAll(placeholder, real)` in one of its two readings. */
  type Replacer = (string, string, string) -> string

  /** The node's new value, and whether anything was replaced (the `changed` flag). */
  datatype Restored = Restored(text: string, changed: bool)

  /** The loop over the map's entries, with the given reading of `replaceAll`. */
  function RestoreBy(rep: Replacer, es: Entries, val: string): Restored
    decreases |es|
  {
    if es == [] then Restored(val, false)
    else if Contains(val, es[0].0) then
      var r := RestoreBy(rep, es[1..], rep(val, es[0].0, es[0].1));
      Restored(r.text, true)
    else RestoreBy(rep, es[1..], val)
  }

  /** The loop as written: `replaceAll` expands the real text as a template. */
  function RestoreAsWritten(es: Entries, val: string): Restored
  {
    RestoreBy(JsReplaceAll, es, val)
  }

  /** The loop as intended: the real text is put back literally. */
  function Restore(es: Entries, val: string): Restored
  {
    RestoreBy(ReplaceAll, es, val)
  }

  /**
   * One step of the loop over the entries, keeping the `changed` flag so
   * far: once the first entry is handled, what is left is the loop over the
   * other entries from the new value.
   */
  lemma RestoreStep(rep: Replacer, es: Entries, val: string, changed: bool, whole: Restored,
                    es': Entries, val': string, changed': bool)
    requires es != [] && es' == es[1..]
    requires RestoreBy(rep, es, val).text == whole.text
    requires (changed || RestoreBy(rep, es, val).changed) == whole.changed
    requires Contains(val, es[0].0) ==> val' == rep(val, es[0].0, es[0].1) && changed'
    requires !Contains(val, es[0].0) ==> val' == val && changed' == changed
    ensures RestoreBy(rep, es', val').text == whole.text
    ensures (changed' || RestoreBy(rep, es', val').changed) == whole.changed
  {
  }

  /** A value in which no placeholder of the map occurs is left as it is, and not marked changed. */
  lemma {:induction false} RestoreNothing(rep: Replacer, es: Entries, val: string)
    requires forall i :: 0 <= i < |es| ==> !Contains(val, es[i].0)
    ensures RestoreBy(rep, es, val) == Restored(val, false)
    decreases |es|
  {
    if es != [] {
      assert !Contains(val, es[0].0);
      assert forall i :: 0 <= i < |es| - 1 ==> es[1..][i] == es[i + 1];
      RestoreNothing(rep, es[1..], val);
    }
  }

  /** A value that is not marked changed is the value the loop started from, so skipping the write loses nothing. */
  lemma {:induction false} RestoreUnchanged(rep: Replacer, es: Entries, val: string)
    ensures !RestoreBy(rep, es, val).changed ==> RestoreBy(rep, es, val).text == val
    decreases |es|
  {
    if es != [] && !Contains(val, es[0].0) {
      RestoreUnchanged(rep, es[1..], val);
    }
  }

  /** A map whose real texts are free of '$'. */
  predicate DollarFree(es: Entries)
  {
    forall i :: 0 <= i < |es| ==> NoDollar(es[i].1)
  }

  /** When no real text holds a '$', the loop as written is the literal one. */
  lemma {:induction false} RestoreAsWrittenLiteral(es: Entries, val: string)
    requires DollarFree(es)
    ensures RestoreAsWritten(es, val) == Restore(es, val)
    decreases |es|
  {
    if es != [] {
      assert forall i :: 0 <= i < |es| - 1 ==> es[1..][i] == es[i + 1];
      JsReplaceAllLiteral(val, es[0].0, es[0].1);
      RestoreAsWrittenLiteral(es[1..], ReplaceAll(val, es[0].0, es[0].1));
      RestoreAsWrittenLiteral(es[1..], val);
    }
  }

  /** "$$" in a real text comes back as a single '$'. */
  lemma RestoreAsWrittenDollar()
    ensures RestoreAsWritten([("[PER_1]", "a$$b")], "[PER_1]") == Restored("a$b", true)
    ensures Restore([("[PER_1]", "a$$b")], "[PER_1]") == Restored("a$$b", true)
  {
    var p, v := "[PER_1]", "a$$b";
    assert StartsWith(p, p);
    assert Contains(p, p);
    assert Template(v[3..], p, [], []) == "b";
    assert Template(v[1..], p, [], []) == "$b";
    assert Template(v, p, [], []) == "a$b";
    assert p[..|p|] == p && p[|p|..] == [];
    assert JsReplaceAllFrom(p, [], p, v) == [];
    assert JsReplaceAll(p, p, v) == "a$b";
    assert p[..|p|] == p;
    assert ReplaceAll(p[|p|..], p, v) == [];
    assert ReplaceAll(p, p, v) == v;
  }

  /** Keys pairwise different and shaped like placeholders, as in `memoryMap`. */
  predicate Keyed(es: Entries)
  {
    && DistinctKeys(es)
    && forall i :: 0 <= i < |es| ==> IsPlaceholder(es[i].0)
  }

  /** The real texts of the placeholders that occur in `x` hold no '['. */
  predicate BracketFreeFor(es: Entries, x: string)
  {
    forall i :: 0 <= i < |es| && es[i].0 in TokenSet(x) ==> NoOpenBracket(es[i].1)
  }

  /** The real texts of the placeholders that occur in `x` hold no '$'. */
  predicate DollarFreeFor(es: Entries, x: string)
  {
    forall i :: 0 <= i < |es| && es[i].0 in TokenSet(x) ==> NoDollar(es[i].1)
  }

  lemma KeyedTail(es: Entries)
    requires Keyed(es) && es != []
    ensures Keyed(es[1..]) && es[0].0 !in ToMap(es[1..])
    ensures forall i :: 0 <= i < |es| - 1 ==> es[1..][i] == es[i + 1]
  {
    assert forall i :: 0 <= i < |es| - 1 ==> es[1..][i] == es[i + 1];
    assert !HasKey(es[1..], es[0].0);
  }

  /** Characters other than '[' in front of `w` cannot start a placeholder. */
  lemma {:induction false} ContainsPlainPrefix(a: string, w: string, k: string)
    requires NoOpenBracket(a) && k != [] && k[0] == '['
    ensures Contains(a + w, k) ==> Contains(w, k)
    decreases |a|
  {
    if a != [] {
      assert (a + w)[0] == a[0] && (a + w)[1..] == a[1..] + w;
      ContainsPlainPrefix(a[1..], w, k);
    } else {
      assert a + w == w;
    }
  }

  /** A placeholder occurs in a tokenised text only as one of its tokens. */
  lemma {:induction false} TokenContains(x: string, k: string)
    requires Tok(x) && IsPlaceholder(k)
    ensures Contains(x, k) ==> k in TokenSet(x)
    decreases |x|
  {
    if x != [] && x[0] != '[' {
      TokenContains(x[1..], k);
    } else if x != [] {
      var n := TokenAt(x);
      var t := x[..n];
      assert x == t + x[n..];
      PlaceholderPrefixUnique(k, t, x[n..]);
      PlaceholderTail(t, x[n..]);
      ContainsPlainPrefix(t[1..], x[n..], k);
      TokenContains(x[n..], k);
    }
  }

  /**
   * On a tokenised value, the literal loop is the simultaneous expansion of
   * every placeholder by the map: replacing one placeholder never creates or
   * breaks another one. Real texts of placeholders that do not occur may
   * hold anything.
   */
  lemma {:induction false} RestoreExpands(es: Entries, x: string)
    requires Keyed(es) && Tok(x) && BracketFreeFor(es, x)
    ensures Restore(es, x).text == ExpandKeys(x, ToMap(es))
    decreases |es|
  {
    if es == [] {
      ExpandEmpty(x);
    } else {
      var k, v := es[0].0, es[0].1;
      var rest := es[1..];
      KeyedTail(es);
      ReplaceAllIsExpansion(x, k, v);
      var y := ReplaceAll(x, k, v);
      ExpandCompose(x, k, v, ToMap(rest));
      RestoreExpands(rest, y);
      if !Contains(x, k) {
        ReplaceAllAbsent(x, k, v);
      }
      assert ToMap(es) == ToMap(rest)[k := v];
    }
  }

  /**
   * On a tokenised value, the loop as written is the literal one when the
   * real texts of the placeholders that occur hold no '[' or '$': only those
   * entries are ever applied.
   */
  lemma {:induction false} RestoreAsWrittenFor(es: Entries, x: string)
    requires Keyed(es) && Tok(x) && BracketFreeFor(es, x) && DollarFreeFor(es, x)
    ensures RestoreAsWritten(es, x) == Restore(es, x)
    decreases |es|
  {
    if es != [] {
      var k, v := es[0].0, es[0].1;
      var rest := es[1..];
      KeyedTail(es);
      if Contains(x, k) {
        TokenContains(x, k);
        JsReplaceAllLiteral(x, k, v);
        ReplaceAllIsExpansion(x, k, v);
        var y := ReplaceAll(x, k, v);
        ExpandOneTokens(x, k, v);
        RestoreAsWrittenFor(rest, y);
      } else {
        RestoreAsWrittenFor(rest, x);
      }
    }
  }

  /**
   * After entries numbered on from a counter, with pairwise different keys
   * and inert real texts (what a fast pass records), are stored in a keyed
   * map, the map is still keyed, and every placeholder recorded maps to a
   * real text free of '[' and '$'.
   */
  lemma KeyedPutAll(m: Entries, kvs: Entries, c: nat, x: string)
    requires Keyed(m) && MintedFrom(kvs, c) && DistinctKeys(kvs) && TokenSet(x) <= Keys(kvs)
    ensures Keyed(PutAll(m, kvs))
    ensures BracketFreeFor(PutAll(m, kvs), x) && DollarFreeFor(PutAll(m, kvs), x)
  {
    var es := PutAll(m, kvs);
    PutAllEntries(m, kvs);
    PutAllGet(m, kvs);
    forall i | 0 <= i < |es| ensures IsPlaceholder(es[i].0) {
      assert es[i] in es;
      if es[i] !in m {
        var j :| 0 <= j < |kvs| && kvs[j] == es[i];
        assert KeyWithOrdinal(kvs[j].0, c + j);
      }
    }
    forall i | 0 <= i < |es| && es[i].0 in TokenSet(x) ensures Inert(es[i].1) {
      KeysHasKey(kvs, es[i].0);
      var j :| 0 <= j < |kvs| && kvs[j].0 == es[i].0;
      GetAt(es, i);
      assert Inert(kvs[j].1);
    }
  }

  /** What a fast pass records holds no '$'. */
  lemma DollarFreePutAll(m: Entries, kvs: Entries, c: nat)
    requires DollarFree(m) && MintedFrom(kvs, c)
    ensures DollarFree(PutAll(m, kvs))
  {
    var es := PutAll(m, kvs);
    PutAllEntries(m, kvs);
    forall i | 0 <= i < |es| ensures NoDollar(es[i].1) {
      assert es[i] in es;
      if es[i] !in m {
        var j :| 0 <= j < |kvs| && kvs[j] == es[i];
        assert Inert(kvs[j].1);
      }
    }
  }

  /**
   * The round trip: after the fast pass over a text without '[' has stored
   * its entries in a map keyed by placeholders, the observer's loop over
   * that map turns the anonymised text back into the original, whatever
   * real texts the map held before.
   */
  lemma SyncRoundTrip(m: Entries, t: string, c: nat)
    requires Keyed(m) && NoOpenBracket(t)
    ensures var r := Sync(t, c); Restore(PutAll(m, r.minted), r.text).text == t
  {
    var r := Sync(t, c);
    var es := PutAll(m, r.minted);
    FastPassesGood();
    SyncMinted(FastPasses, t, c);
    SyncMintedDistinct(FastPasses, t, c);
    PlainText(t, ToMap(es));
    SyncTok(FastPasses, t, c);
    SyncTokens(FastPasses, t, c);
    AgreesPutAll(m, r.minted);
    SyncExpand(FastPasses, t, c, ToMap(es));
    KeyedPutAll(m, r.minted, c, r.text);
    RestoreExpands(es, r.text);
  }

  /** The same for the loop as written: the only entries it applies are the ones just recorded, and they hold no '$'. */
  lemma SyncRoundTripAsWritten(m: Entries, t: string, c: nat)
    requires Keyed(m) && NoOpenBracket(t)
    ensures var r := Sync(t, c); RestoreAsWritten(PutAll(m, r.minted), r.text).text == t
  {
    var r := Sync(t, c);
    var es := PutAll(m, r.minted);
    SyncRoundTrip(m, t, c);
    FastPassesGood();
    SyncMinted(FastPasses, t, c);
    SyncMintedDistinct(FastPasses, t, c);
    PlainText(t, ToMap(es));
    SyncTok(FastPasses, t, c);
    SyncTokens(FastPasses, t, c);
    KeyedPutAll(m, r.minted, c, r.text);
    RestoreAsWrittenFor(es, r.text);
  }
}
