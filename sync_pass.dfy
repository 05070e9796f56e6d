/**
 * The fast pattern pass (`anonymizeTextSync`) as specification functions.
 *
 * The fast pass runs one global replace per pattern, in the order the
 * patterns are declared, each over the previous one's output, with one
 * shared counter. `SyncWith` runs any list of such passes; a pass is seen
 * here only through what it promises (`PassSpec`), which `PassOfGood`
 * proves for the three pattern passes. `Sync` is the fast pass itself.
 */
module SyncPass {
  import opened Wrappers
  import opened Text
  import opened OrderedMap
  import opened Placeholders
  import opened GlobalReplace
  import opened Patterns

  /** One global replace, as a function of the text and of the counter's value before it. */
  type Passer = (string, nat) -> PassResult

  /** The global replace of pattern `k`, with placeholders of type `TagOf(k)`. */
  function PassOf(k: Kind): Passer
  {
    MatcherSound(k);
    (t: string, c: nat) => Pass(MatcherOf(k), TagOf(k), t, c)
  }

  /** The passes of the fast pass, in declaration order: email, credit card, SSN. */
  const FastPasses: seq<Passer> := [PassOf(Email), PassOf(CreditCard), PassOf(Ssn)]

  /** The k-th fast pass is the global replace of the k-th pattern. */
  lemma FastPassAt(k: nat, t: string, c: nat)
    requires k < |PatternOrder|
    ensures k < |FastPasses| && Bounded(MatcherOf(PatternOrder[k]))
    ensures FastPasses[k](t, c) == Pass(MatcherOf(PatternOrder[k]), TagOf(PatternOrder[k]), t, c)
  {
    MatcherSound(PatternOrder[k]);
  }

  /** `p` is a placeholder of some type with ordinal `n`. */
  ghost predicate KeyWithOrdinal(p: string, n: nat)
  {
    exists tag :: IsTag(tag) && p == Placeholder(tag, n)
  }

  /**
   * The i-th entry is a placeholder with ordinal `c + i`, for a text that is
   * never empty and never holds a bracket.
   */
  ghost predicate MintedFrom(m: Entries, c: nat)
  {
    OrdinalsFrom(m, c) && forall i :: 0 <= i < |m| ==> Inert(m[i].1) && m[i].1 != []
  }

  /** Entries numbered from `c` followed by entries numbered on from there. */
  lemma MintedFromConcat(a: Entries, b: Entries, c: nat)
    requires MintedFrom(a, c) && MintedFrom(b, c + |a|)
    ensures MintedFrom(a + b, c)
  {
    OrdinalsFromConcat(a, b, c);
    forall i | 0 <= i < |a + b| ensures Inert((a + b)[i].1) && (a + b)[i].1 != [] {
      if i < |a| {
        assert (a + b)[i] == a[i];
      } else {
        assert (a + b)[i] == b[i - |a|];
      }
    }
  }

  /**
   * What a pass promises when it runs over `t` with the counter at `c`:
   * its i-th entry is a placeholder with ordinal `c + i` standing for a
   * non-empty text without brackets, it keeps a tokenised text tokenised, and
   * expanding its output with a dictionary that holds its entries gives what
   * expanding its input gives.
   */
  ghost predicate PassSpec(f: Passer, t: string, c: nat)
  {
    && MintedFrom(f(t, c).minted, c)
    && (Tok(t) ==> Tok(f(t, c).text))
    && (Tok(t) ==> TokenSet(f(t, c).text) == TokenSet(t) + Keys(f(t, c).minted))
    && (Tok(t) ==> forall d: map<string, string> :: Agrees(d, f(t, c).minted) ==> ExpandKeys(f(t, c).text, d) == ExpandKeys(t, d))
  }

  ghost predicate GoodPass(f: Passer)
  {
    forall t, c :: PassSpec(f, t, c)
  }

  ghost predicate GoodPasses(ps: seq<Passer>)
    decreases |ps|
  {
    ps != [] ==> GoodPass(ps[0]) && GoodPasses(ps[1..])
  }

  /**
   * The passes in `ps`, in order, each over the output of the one before;
   * the counter starts at `c` and each pass moves it on by the number of
   * entries it records.
   */
  function SyncWith(ps: seq<Passer>, t: string, c: nat): (r: PassResult)
    decreases |ps|
  {
    if ps == [] then PassResult(t, [])
    else
      var p := ps[0](t, c);
      var rest := SyncWith(ps[1..], p.text, c + |p.minted|);
      PassResult(rest.text, p.minted + rest.minted)
  }

  /**
   * One step of running the passes `ps` in turn: once the first pass has
   * run, what is left is the remaining passes over its output, with the
   * counter moved on by its entries.
   */
  lemma SyncStep(ps: seq<Passer>, t: string, c: nat, recorded: Entries, whole: PassResult,
                 ps': seq<Passer>, t': string, c': nat, recorded': Entries)
    requires ps != []
    requires SyncWith(ps, t, c).text == whole.text
    requires recorded + SyncWith(ps, t, c).minted == whole.minted
    requires ps' == ps[1..] && t' == ps[0](t, c).text && c' == c + |ps[0](t, c).minted|
    requires recorded' == recorded + ps[0](t, c).minted
    ensures SyncWith(ps', t', c').text == whole.text
    ensures recorded' + SyncWith(ps', t', c').minted == whole.minted
  {
    ConcatAssoc(recorded, ps[0](t, c).minted, SyncWith(ps', t', c').minted);
  }

  /** `anonymizeTextSync` with the ordinal counter at `c`. */
  function Sync(t: string, c: nat): PassResult
  {
    SyncWith(FastPasses, t, c)
  }

  /**
   * `f(t, c)` reached through `steps` steps that change nothing. The
   * verifier unfolds a recursive function only a step or two at a time, so
   * when the number of steps is not a literal, a contract stated with
   * `FastPass` hands the fast pass's result on without making the verifier
   * unfold the three passes. `FastPassIsSync` is the link.
   */
  function Deferred(f: Passer, t: string, c: nat, steps: nat): PassResult
    decreases steps
  {
    if steps == 0 then f(t, c) else Deferred(f, t, c, steps - 1)
  }

  /** The fast pass `Sync(t, c)`, as the handlers' contracts state it. */
  function FastPass(t: string, c: nat): PassResult
  {
    Deferred(Sync, t, c, c + 4)
  }

  lemma {:induction false} DeferredApplies(f: Passer, t: string, c: nat, steps: nat)
    ensures Deferred(f, t, c, steps) == f(t, c)
    decreases steps
  {
    if steps > 0 {
      DeferredApplies(f, t, c, steps - 1);
    }
  }

  lemma FastPassIsSync(t: string, c: nat)
    ensures FastPass(t, c) == Sync(t, c)
  {
    DeferredApplies(Sync, t, c, c + 4);
  }

  /**
   * What one pattern pass records: the i-th entry is the placeholder of the
   * pattern's type with ordinal `c + i`, and its text is the i-th match, so
   * never empty and never holding a bracket.
   */
  lemma PassMinted(m: Matcher, tag: string, t: string, c: nat)
    requires Sound(m) && IsTag(tag)
    ensures var p := Pass(m, tag, t, c);
      forall i :: 0 <= i < |p.minted| ==>
        && p.minted[i].0 == Placeholder(tag, c + i)
        && Inert(p.minted[i].1) && p.minted[i].1 != []
  {
    var ms := Matches(m, t, 0);
    MatchesClean(m, t, 0);
    SubstituteMinted(t, 0, ms, MintOf(tag), c);
    var p := Pass(m, tag, t, c);
    forall i | 0 <= i < |p.minted|
      ensures Inert(p.minted[i].1) && p.minted[i].1 != []
    {
      CleanAt(t, ms, i);
    }
  }

  /** The i-th of a list of clean spans covers no bracket. */
  lemma {:induction false} CleanAt(s: string, ms: seq<(nat, nat)>, i: nat)
    requires Clean(s, ms) && i < |ms|
    ensures ms[i].0 <= ms[i].1 <= |s| && Inert(s[ms[i].0..ms[i].1])
    decreases i
  {
    if i > 0 {
      CleanAt(s, ms[1..], i - 1);
    }
  }

  /** Each of the three pattern passes keeps the promises of a pass. */
  lemma PassOfGood(k: Kind)
    ensures GoodPass(PassOf(k))
  {
    MatcherSound(k);
    var f := PassOf(k);
    forall t: string, c: nat ensures PassSpec(f, t, c) {
      var m := MatcherOf(k);
      var p := Pass(m, TagOf(k), t, c);
      assert f(t, c) == p;
      PassMinted(m, TagOf(k), t, c);
      forall i | 0 <= i < |p.minted| ensures KeyWithOrdinal(p.minted[i].0, c + i) {
        assert IsTag(TagOf(k)) && p.minted[i].0 == Placeholder(TagOf(k), c + i);
      }
      assert MintedFrom(p.minted, c);
      if Tok(t) {
        PassTokens(m, TagOf(k), t, c);
        forall d: map<string, string> | Agrees(d, p.minted) ensures ExpandKeys(p.text, d) == ExpandKeys(t, d) {
          PassExpand(m, TagOf(k), t, c, d);
        }
      }
    }
  }

  lemma FastPassesGood()
    ensures GoodPasses(FastPasses)
  {
    PassOfGood(Email);
    PassOfGood(CreditCard);
    PassOfGood(Ssn);
    assert FastPasses[1..][1..][1..] == [];
  }

  /** What a run of passes records is numbered on from `c`. */
  lemma {:induction false} SyncMinted(ps: seq<Passer>, t: string, c: nat)
    requires GoodPasses(ps)
    ensures MintedFrom(SyncWith(ps, t, c).minted, c)
    decreases |ps|
  {
    if ps != [] {
      var p := ps[0](t, c);
      assert PassSpec(ps[0], t, c);
      SyncMinted(ps[1..], p.text, c + |p.minted|);
      MintedFromConcat(p.minted, SyncWith(ps[1..], p.text, c + |p.minted|).minted, c);
    }
  }

  lemma OrdinalsDiffer(p: string, q: string, n1: nat, n2: nat)
    requires KeyWithOrdinal(p, n1) && KeyWithOrdinal(q, n2) && n1 != n2
    ensures p != q
  {
    var t1 :| IsTag(t1) && p == Placeholder(t1, n1);
    var t2 :| IsTag(t2) && q == Placeholder(t2, n2);
    if p == q {
      PlaceholderInjective(t1, n1, t2, n2);
    }
  }

  /** The keys of `m` carry the ordinals `c`, `c + 1`, ... in order. */
  ghost predicate OrdinalsFrom(m: Entries, c: nat)
  {
    forall i :: 0 <= i < |m| ==> KeyWithOrdinal(m[i].0, c + i)
  }

  lemma OrdinalsFromConcat(a: Entries, b: Entries, c: nat)
    requires OrdinalsFrom(a, c) && OrdinalsFrom(b, c + |a|)
    ensures OrdinalsFrom(a + b, c)
  {
    forall i | 0 <= i < |a + b| ensures KeyWithOrdinal((a + b)[i].0, c + i) {
      if i < |a| {
        assert (a + b)[i] == a[i];
      } else {
        assert (a + b)[i] == b[i - |a|] && c + |a| + (i - |a|) == c + i;
      }
    }
  }

  /** Entries whose keys carry the ordinals `c`, `c + 1`, ... have pairwise different keys. */
  lemma OrdinalKeysDistinct(m: Entries, c: nat)
    requires OrdinalsFrom(m, c)
    ensures DistinctKeys(m)
  {
    forall i, j | 0 <= i < j < |m| ensures m[i].0 != m[j].0 {
      OrdinalsDiffer(m[i].0, m[j].0, c + i, c + j);
    }
  }

  /**
   * The placeholders one run of the passes records are pairwise different,
   * since their ordinals are.
   */
  lemma SyncMintedDistinct(ps: seq<Passer>, t: string, c: nat)
    requires GoodPasses(ps)
    ensures DistinctKeys(SyncWith(ps, t, c).minted)
  {
    var m := SyncWith(ps, t, c).minted;
    SyncMinted(ps, t, c);
    assert MintedFrom(m, c);
    OrdinalKeysDistinct(m, c);
  }

  /** Passes that each leave the text alone and record nothing leave it alone together. */
  lemma {:induction false} SyncNoMatch(ps: seq<Passer>, t: string, c: nat)
    requires forall i :: 0 <= i < |ps| ==> ps[i](t, c) == PassResult(t, [])
    ensures SyncWith(ps, t, c) == PassResult(t, [])
    decreases |ps|
  {
    if ps != [] {
      assert ps[0](t, c) == PassResult(t, []);
      assert forall i :: 0 <= i < |ps| - 1 ==> ps[1..][i] == ps[i + 1];
      SyncNoMatch(ps[1..], t, c);
    }
  }

  /** A pattern that matches nowhere in `t` leaves it alone and records nothing. */
  lemma PassOfNoMatch(k: Kind, t: string, c: nat)
    requires forall j :: 0 <= j <= |t| ==> MatchAt(k, t, j).None?
    ensures PassOf(k)(t, c) == PassResult(t, [])
  {
    MatcherSound(k);
    var m := MatcherOf(k);
    MatchesNone(m, t, 0);
    SubstituteNone(t, 0, MintOf(TagOf(k)), c);
    assert t[0..] == t;
  }

  /** A text none of the patterns matches is returned as it is, and nothing is recorded. */
  lemma SyncUnchanged(t: string, c: nat)
    requires forall k, j :: 0 <= j <= |t| ==> MatchAt(k, t, j).None?
    ensures Sync(t, c) == PassResult(t, [])
  {
    PassOfNoMatch(Email, t, c);
    PassOfNoMatch(CreditCard, t, c);
    PassOfNoMatch(Ssn, t, c);
    SyncNoMatch(FastPasses, t, c);
  }

  /** The passes keep a tokenised text tokenised. */
  lemma {:induction false} SyncTok(ps: seq<Passer>, t: string, c: nat)
    requires GoodPasses(ps) && Tok(t)
    ensures Tok(SyncWith(ps, t, c).text)
    decreases |ps|
  {
    if ps != [] {
      var p := ps[0](t, c);
      assert PassSpec(ps[0], t, c);
      SyncTok(ps[1..], p.text, c + |p.minted|);
    }
  }

  /**
   * Expanding the final text with any dictionary that holds the recorded
   * entries gives back what expanding the input gives.
   */
  lemma {:induction false} SyncExpand(ps: seq<Passer>, t: string, c: nat, d: map<string, string>)
    requires GoodPasses(ps) && Tok(t)
    requires Agrees(d, SyncWith(ps, t, c).minted)
    ensures ExpandKeys(SyncWith(ps, t, c).text, d) == ExpandKeys(t, d)
    decreases |ps|
  {
    if ps != [] {
      var p := ps[0](t, c);
      AgreesConcat(d, p.minted, SyncWith(ps[1..], p.text, c + |p.minted|).minted);
      GoodPassExpand(ps[0], t, c, d);
      SyncExpand(ps[1..], p.text, c + |p.minted|, d);
    }
  }

  /** The placeholders left in the final text are those of the input and the ones recorded. */
  lemma {:induction false} SyncTokens(ps: seq<Passer>, t: string, c: nat)
    requires GoodPasses(ps) && Tok(t)
    ensures TokenSet(SyncWith(ps, t, c).text) == TokenSet(t) + Keys(SyncWith(ps, t, c).minted)
    decreases |ps|
  {
    if ps != [] {
      GoodPassTokens(ps[0], t, c);
      SyncTokens(ps[1..], ps[0](t, c).text, c + |ps[0](t, c).minted|);
      TokensStep(ps, t, c);
    }
  }

  /**
   * Running passes in turn adds the keys of the first pass and then those
   * of the rest to the placeholders of the text.
   */
  lemma TokensStep(ps: seq<Passer>, t: string, c: nat)
    requires ps != []
    requires TokenSet(ps[0](t, c).text) == TokenSet(t) + Keys(ps[0](t, c).minted)
    requires var p := ps[0](t, c); var rest := SyncWith(ps[1..], p.text, c + |p.minted|);
      TokenSet(rest.text) == TokenSet(p.text) + Keys(rest.minted)
    ensures TokenSet(SyncWith(ps, t, c).text) == TokenSet(t) + Keys(SyncWith(ps, t, c).minted)
  {
    var p := ps[0](t, c);
    KeysConcat(p.minted, SyncWith(ps[1..], p.text, c + |p.minted|).minted);
  }

  /** One good pass keeps the text tokenised and adds the keys it records to its placeholders. */
  lemma GoodPassTokens(f: Passer, t: string, c: nat)
    requires GoodPass(f) && Tok(t)
    ensures Tok(f(t, c).text) && TokenSet(f(t, c).text) == TokenSet(t) + Keys(f(t, c).minted)
  {
    assert PassSpec(f, t, c);
  }

  /** One good pass keeps the text tokenised and what it expands to unchanged. */
  lemma GoodPassExpand(f: Passer, t: string, c: nat, d: map<string, string>)
    requires GoodPass(f) && Tok(t) && Agrees(d, f(t, c).minted)
    ensures Tok(f(t, c).text) && ExpandKeys(f(t, c).text, d) == ExpandKeys(t, d)
  {
    assert PassSpec(f, t, c);
  }
}
