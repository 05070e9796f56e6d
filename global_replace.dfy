/**
 * `text.replace(regex, callback)` for a global regular expression, over any
 * matcher. A matcher says where the match it tries at a position ends; the
 * replace walks the text from the left, takes the leftmost match, hands it
 * to the callback and goes on from the match's end. The callback used by the
 * fast pass turns the i-th match into the placeholder with ordinal `c + i`
 * and records (placeholder, matched text).
 *
 * Nothing here depends on how a pattern is matched, only on what a matcher
 * promises (`Bounded`, `Sound`); the three concrete patterns are in module
 * Patterns.
 */
module GlobalReplace {
  import opened Wrappers
  import opened Text
  import opened OrderedMap
  import opened Placeholders

  /** `m(s, i)` is the end of the match the pattern has when tried at position `i` of `s`, if any. */
  type Matcher = (string, nat) -> Option<nat>

  /** Every match is non-empty and lies inside the text. */
  ghost predicate Bounded(m: Matcher)
  {
    forall s: string, i: nat :: m(s, i).Some? ==> i < m(s, i).value <= |s|
  }

  /** No placeholder that starts before `a` reaches past it. */
  predicate StartsOutsideTokens(s: string, a: nat)
    requires a <= |s|
  {
    forall h :: 0 <= h < a && TokenAt(s[h..]) > 0 ==> h + TokenAt(s[h..]) <= a
  }

  /** The match tried at `i`, if any, holds no bracket and does not start inside a placeholder. */
  ghost predicate CleanMatch(m: Matcher, s: string, i: nat)
  {
    m(s, i).Some? && i < m(s, i).value <= |s| ==>
      Inert(s[i..m(s, i).value]) && StartsOutsideTokens(s, i)
  }

  /** A bounded matcher all of whose matches are clean. */
  ghost predicate Sound(m: Matcher)
  {
    Bounded(m) && forall s: string, i: nat :: CleanMatch(m, s, i)
  }

  /** A match end found in a text that starts `d` characters later, read back in the whole text. */
  function ShiftBy(r: Option<nat>, d: nat): (r': Option<nat>)
    ensures r'.Some? <==> r.Some?
    ensures r.Some? ==> r'.value == r.value + d
  {
    if r.Some? then Some(r.value + d) else None
  }

  /** The match tried at `i` does not depend on the text after a '[' at or after `i`. */
  ghost predicate CutLocal(m: Matcher)
  {
    forall s: string, i: nat, n: nat :: i < n <= |s| && s[n - 1] == '[' ==> m(s, i) == m(s[..n], i)
  }

  /** `t` is `s` without its first `d` characters. */
  predicate Shifted(s: string, t: string, d: nat)
  {
    d <= |s| && |t| == |s| - d && forall x :: 0 <= x < |t| ==> t[x] == s[x + d]
  }

  /** The match tried at `d + j`, for `j > 0`, does not depend on the first `d` characters. */
  ghost predicate DropLocal(m: Matcher)
  {
    forall s: string, t: string, d: nat, j: nat ::
      0 < j && d + j <= |s| && Shifted(s, t, d) ==> m(s, d + j) == ShiftBy(m(t, j), d)
  }

  /**
   * The match tried at `i` depends only on the character before `i` and the
   * text from `i` up to the next '['.
   */
  ghost predicate Local(m: Matcher)
  {
    CutLocal(m) && DropLocal(m)
  }

  /** The first match that starts at or after `pos`, as (start, end). */
  function FindFrom(m: Matcher, s: string, pos: nat): (r: Option<(nat, nat)>)
    requires pos <= |s| && Bounded(m)
    ensures r.Some? ==> pos <= r.value.0 < r.value.1 <= |s| && m(s, r.value.0) == Some(r.value.1)
    decreases |s| - pos
  {
    if pos == |s| then None
    else if m(s, pos).Some? then Some((pos, m(s, pos).value))
    else FindFrom(m, s, pos + 1)
  }

  /**
   * `FindFrom` finds the leftmost match: no position between `pos` and the
   * start it returns begins a match, and when it finds none, no position
   * from `pos` on does.
   */
  lemma FindFromLeftmost(m: Matcher, s: string, pos: nat)
    requires pos <= |s| && Bounded(m)
    ensures FindFrom(m, s, pos).Some? ==> forall j :: pos <= j < FindFrom(m, s, pos).value.0 ==> m(s, j).None?
    ensures FindFrom(m, s, pos).None? ==> forall j :: pos <= j <= |s| ==> m(s, j).None?
  {
    forall j | pos <= j <= |s| && (FindFrom(m, s, pos).None? || j < FindFrom(m, s, pos).value.0)
      ensures m(s, j).None?
    {
      FindFromSkips(m, s, pos, j);
    }
  }

  /** A position that `FindFrom` passes over begins no match. */
  lemma {:induction false} FindFromSkips(m: Matcher, s: string, pos: nat, j: nat)
    requires pos <= j <= |s| && Bounded(m)
    requires FindFrom(m, s, pos).None? || j < FindFrom(m, s, pos).value.0
    ensures m(s, j).None?
    decreases j - pos
  {
    if pos < j {
      FindFromSkips(m, s, pos + 1, j);
    }
  }

  /** Spans (start, end) that are non-empty, inside `[pos, n]` and come left to right without overlap. */
  predicate Ordered(ms: seq<(nat, nat)>, pos: nat, n: nat)
  {
    && (forall i :: 0 <= i < |ms| ==> ms[i].0 < ms[i].1 <= n)
    && (forall i, j :: 0 <= i < j < |ms| ==> ms[i].1 <= ms[j].0)
    && (ms != [] ==> pos <= ms[0].0)
  }

  /**
   * The spans a global replace visits from `pos`: the leftmost match, then
   * the leftmost match from its end, and so on.
   */
  function Matches(m: Matcher, s: string, pos: nat): (ms: seq<(nat, nat)>)
    requires pos <= |s| && Bounded(m)
    ensures Ordered(ms, pos, |s|)
    decreases |s| - pos
  {
    match FindFrom(m, s, pos)
    case None => []
    case Some((a, b)) =>
      var rest := Matches(m, s, b);
      var ms := [(a, b)] + rest;
      assert forall i :: 0 < i < |ms| ==> ms[i] == rest[i - 1];
      ms
  }

  /** The spans after the first are the spans from the first one's end. */
  lemma MatchesStep(m: Matcher, s: string, pos: nat)
    requires pos <= |s| && Bounded(m)
    ensures FindFrom(m, s, pos).None? ==> Matches(m, s, pos) == []
    ensures FindFrom(m, s, pos).Some? ==>
      Matches(m, s, pos) == [FindFrom(m, s, pos).value] + Matches(m, s, FindFrom(m, s, pos).value.1)
  {
  }

  /** Every span a replace visits is a match. */
  lemma {:induction false} MatchesAreMatches(m: Matcher, s: string, pos: nat, i: nat)
    requires pos <= |s| && Bounded(m) && i < |Matches(m, s, pos)|
    ensures m(s, Matches(m, s, pos)[i].0) == Some(Matches(m, s, pos)[i].1)
    decreases i
  {
    MatchesStep(m, s, pos);
    if i > 0 {
      var b := FindFrom(m, s, pos).value.1;
      MatchesAreMatches(m, s, b, i - 1);
    }
  }

  /**
   * And no match is missed: every position from `pos` on where the pattern
   * matches lies inside one of the spans (it is the start of one, or the
   * replace passed over it because an earlier match covered it).
   */
  lemma {:induction false} MatchesCover(m: Matcher, s: string, pos: nat, j: nat)
    requires pos <= j <= |s| && Bounded(m) && m(s, j).Some?
    ensures exists i :: 0 <= i < |Matches(m, s, pos)| && Matches(m, s, pos)[i].0 <= j < Matches(m, s, pos)[i].1
    decreases |s| - pos
  {
    FindFromLeftmost(m, s, pos);
    MatchesStep(m, s, pos);
    var ms := Matches(m, s, pos);
    var (a, b) := FindFrom(m, s, pos).value;
    if j < b {
      assert ms[0].0 <= j < ms[0].1;
    } else {
      MatchesCover(m, s, b, j);
      var rest := Matches(m, s, b);
      var i :| 0 <= i < |rest| && rest[i].0 <= j < rest[i].1;
      assert ms[i + 1] == rest[i];
    }
  }

  /** Where the pattern matches nowhere, the replace visits no span. */
  lemma MatchesNone(m: Matcher, s: string, pos: nat)
    requires pos <= |s| && Bounded(m)
    requires forall j :: pos <= j <= |s| ==> m(s, j).None?
    ensures Matches(m, s, pos) == []
  {
  }

  /** Each span covers no bracket and starts outside every placeholder. */
  predicate Clean(s: string, ms: seq<(nat, nat)>)
    decreases |ms|
  {
    ms != [] ==>
      && ms[0].0 <= ms[0].1 <= |s|
      && Inert(s[ms[0].0..ms[0].1])
      && StartsOutsideTokens(s, ms[0].0)
      && Clean(s, ms[1..])
  }

  /** The spans of a sound matcher are clean. */
  lemma {:induction false} MatchesClean(m: Matcher, s: string, pos: nat)
    requires pos <= |s| && Sound(m)
    ensures Clean(s, Matches(m, s, pos))
    decreases |s| - pos
  {
    MatchesStep(m, s, pos);
    if FindFrom(m, s, pos).Some? {
      var (a, b) := FindFrom(m, s, pos).value;
      assert CleanMatch(m, s, a);
      MatchesClean(m, s, b);
    }
  }

  /** The output text of a replace and the entries (placeholder, matched text) its callback records, in order. */
  datatype PassResult = PassResult(text: string, minted: Entries)

  /** How the replace callback renders the placeholder for an ordinal. */
  type Minter = nat -> string

  /** The callback of a pattern of type `tag`: `[TAG_n]`. */
  function MintOf(tag: string): Minter
    requires IsTag(tag)
  {
    (n: nat) => Placeholder(tag, n)
  }

  /** Every ordinal is rendered as a placeholder. */
  ghost predicate Mints(mint: Minter)
  {
    forall n: nat :: IsPlaceholder(mint(n))
  }

  lemma MintOfMints(tag: string)
    requires IsTag(tag)
    ensures Mints(MintOf(tag))
  {
  }

  /**
   * The replacement half of a pass: each span in turn becomes the
   * placeholder `mint` renders for the next ordinal, numbered from `c`, and
   * the callback records (placeholder, text the span covered).
   */
  function Substitute(s: string, pos: nat, ms: seq<(nat, nat)>, mint: Minter, c: nat): (r: PassResult)
    requires pos <= |s| && Ordered(ms, pos, |s|)
    ensures |r.minted| == |ms|
    decreases |ms|
  {
    if ms == [] then PassResult(s[pos..], [])
    else
      var (a, b) := ms[0];
      var p := mint(c);
      assert Ordered(ms[1..], b, |s|) by {
        assert forall i :: 0 <= i < |ms| - 1 ==> ms[1..][i] == ms[i + 1];
      }
      var rest := Substitute(s, b, ms[1..], mint, c + 1);
      PassResult(s[pos..a] + (p + rest.text), [(p, s[a..b])] + rest.minted)
  }

  /**
   * The i-th span becomes the placeholder for the ordinal `c + i`,
   * and the entry recorded for it holds exactly the text the span covered.
   */
  lemma {:induction false} SubstituteMinted(s: string, pos: nat, ms: seq<(nat, nat)>, mint: Minter, c: nat)
    requires pos <= |s| && Ordered(ms, pos, |s|)
    ensures var r := Substitute(s, pos, ms, mint, c);
      && (forall i :: 0 <= i < |r.minted| ==> r.minted[i].0 == mint(c + i))
      && (forall i :: 0 <= i < |ms| ==> r.minted[i].1 == s[ms[i].0..ms[i].1])
    decreases |ms|
  {
    if ms != [] {
      SubstituteHead(s, pos, ms, mint, c);
      SubstituteMinted(s, ms[0].1, ms[1..], mint, c + 1);
      var r := Substitute(s, pos, ms, mint, c);
      var rest := Substitute(s, ms[0].1, ms[1..], mint, c + 1);
      forall i | 0 < i < |ms|
        ensures r.minted[i] == rest.minted[i - 1] && ms[i] == ms[1..][i - 1]
        ensures r.minted[i].0 == mint(c + 1 + (i - 1))
      {
      }
    }
  }

  /** No span, no replacement: the text from `pos` is kept as it is. */
  lemma SubstituteNone(s: string, pos: nat, mint: Minter, c: nat)
    requires pos <= |s|
    ensures Substitute(s, pos, [], mint, c) == PassResult(s[pos..], [])
  {
  }

  /** One global replace of the pattern `m` over `s`, with placeholders of type `tag` numbered from `c`. */
  function Pass(m: Matcher, tag: string, s: string, c: nat): PassResult
    requires Bounded(m) && IsTag(tag)
  {
    Substitute(s, 0, Matches(m, s, 0), MintOf(tag), c)
  }

  /**
   * When no placeholder of `s` that starts in `[pos, a)` reaches past `a`,
   * the text before `a` is tokenised on its own, and so is the text from `a` on.
   */
  lemma {:induction false} TokSplit(s: string, pos: nat, a: nat)
    requires pos <= a <= |s| && Tok(s[pos..])
    requires forall h :: pos <= h < a && TokenAt(s[h..]) > 0 ==> h + TokenAt(s[h..]) <= a
    ensures Tok(s[pos..a]) && Tok(s[a..])
    decreases a - pos
  {
    if pos == a {
      assert s[pos..a] == [];
    } else {
      var x := s[pos..];
      var y := s[pos..a];
      assert x[0] == y[0] == s[pos];
      if s[pos] != '[' {
        assert x[1..] == s[pos + 1..];
        TokSplit(s, pos + 1, a);
        assert y[1..] == s[pos + 1..a];
        assert Tok(y);
      } else {
        var n := TokenAt(x);
        assert n > 0 && Tok(x[n..]);
        assert pos + n <= a;
        assert x[n..] == s[pos + n..];
        TokSplit(s, pos + n, a);
        assert y == x[..n] + s[pos + n..a];
        TokenHead(x[..n], s[pos + n..a], map[]);
      }
    }
  }

  /** The first step of `Substitute`. */
  lemma SubstituteHead(s: string, pos: nat, ms: seq<(nat, nat)>, mint: Minter, c: nat)
    requires pos <= |s| && Ordered(ms, pos, |s|) && ms != []
    ensures Ordered(ms[1..], ms[0].1, |s|)
    ensures var rest := Substitute(s, ms[0].1, ms[1..], mint, c + 1);
      Substitute(s, pos, ms, mint, c)
        == PassResult(s[pos..ms[0].0] + (mint(c) + rest.text), [(mint(c), s[ms[0].0..ms[0].1])] + rest.minted)
  {
    assert forall i :: 0 <= i < |ms| - 1 ==> ms[1..][i] == ms[i + 1];
  }

  /**
   * One step of a replace that walks the spans left to right, keeping the
   * output so far (`out`) and the entries so far (`recorded`): once the
   * first span is done, what is left is the walk from its end.
   */
  lemma SubstituteStep(s: string, pos: nat, ms: seq<(nat, nat)>, mint: Minter, c: nat,
                       out: string, recorded: Entries, whole: PassResult,
                       pos': nat, ms': seq<(nat, nat)>, c': nat, out': string, recorded': Entries)
    requires pos <= |s| && Ordered(ms, pos, |s|) && ms != []
    requires out + Substitute(s, pos, ms, mint, c).text == whole.text
    requires recorded + Substitute(s, pos, ms, mint, c).minted == whole.minted
    requires pos' == ms[0].1 && ms' == ms[1..] && c' == c + 1
    requires out' == out + (s[pos..ms[0].0] + mint(c))
    requires recorded' == recorded + [(mint(c), s[ms[0].0..ms[0].1])]
    ensures pos' <= |s| && Ordered(ms', pos', |s|)
    ensures out' + Substitute(s, pos', ms', mint, c').text == whole.text
    ensures recorded' + Substitute(s, pos', ms', mint, c').minted == whole.minted
  {
    SubstituteHead(s, pos, ms, mint, c);
    var e := (mint(c), s[ms[0].0..ms[0].1]);
    var rest := Substitute(s, ms[0].1, ms[1..], mint, c + 1);
    ConcatAssoc(out, s[pos..ms[0].0] + e.0, rest.text);
    ConcatAssoc(s[pos..ms[0].0], e.0, rest.text);
    ConcatAssoc(recorded, [e], rest.minted);
  }

  /** The spans after the first are ordered and clean too. */
  lemma CleanTail(s: string, pos: nat, ms: seq<(nat, nat)>)
    requires pos <= |s| && Ordered(ms, pos, |s|) && Clean(s, ms) && ms != []
    ensures Ordered(ms[1..], ms[0].1, |s|) && Clean(s, ms[1..])
  {
    assert forall i :: 0 <= i < |ms| - 1 ==> ms[1..][i] == ms[i + 1];
  }

  /** The text before the first clean span and the text from it on are each tokenised. */
  lemma CleanHead(s: string, pos: nat, ms: seq<(nat, nat)>)
    requires pos <= |s| && Ordered(ms, pos, |s|) && Clean(s, ms) && Tok(s[pos..]) && ms != []
    ensures Inert(s[ms[0].0..ms[0].1]) && Tok(s[pos..ms[0].0]) && Tok(s[ms[0].0..]) && Tok(s[ms[0].1..])
  {
    assert StartsOutsideTokens(s, ms[0].0);
    TokSplit(s, pos, ms[0].0);
    SliceSplit(s, pos, ms[0].0, ms[0].1);
    PlainText(s[ms[0].0..ms[0].1], map[]);
    TokConcatTok(s[ms[0].0..ms[0].1], s[ms[0].1..]);
  }

  lemma SliceSplit(s: string, pos: nat, a: nat, b: nat)
    requires pos <= a <= b <= |s|
    ensures s[a..] == s[a..b] + s[b..]
    ensures s[pos..] == s[pos..a] + (s[a..b] + s[b..])
  {
  }

  /** Replacing clean spans keeps a tokenised text tokenised. */
  lemma {:induction false} SubstituteTok(s: string, pos: nat, ms: seq<(nat, nat)>, mint: Minter, c: nat)
    requires pos <= |s| && Mints(mint) && Ordered(ms, pos, |s|) && Clean(s, ms) && Tok(s[pos..])
    ensures Tok(Substitute(s, pos, ms, mint, c).text)
    decreases |ms|
  {
    if ms != [] {
      var (a, b) := ms[0];
      SubstituteHead(s, pos, ms, mint, c);
      CleanTail(s, pos, ms);
      CleanHead(s, pos, ms);
      SliceSplit(s, pos, a, b);
      var rest := Substitute(s, b, ms[1..], mint, c + 1);
      Splice(s[pos..a], s[a..b], s[b..], mint(c), rest.text, map[]);
      SubstituteTok(s, b, ms[1..], mint, c + 1);
    }
  }

  /** The tokens after the replace are the tokens before it and the recorded placeholders. */
  lemma {:induction false} SubstituteTokens(s: string, pos: nat, ms: seq<(nat, nat)>, mint: Minter, c: nat)
    requires pos <= |s| && Mints(mint) && Ordered(ms, pos, |s|) && Clean(s, ms) && Tok(s[pos..])
    ensures TokenSet(Substitute(s, pos, ms, mint, c).text) == TokenSet(s[pos..]) + Keys(Substitute(s, pos, ms, mint, c).minted)
    decreases |ms|
  {
    if ms != [] {
      CleanTail(s, pos, ms);
      CleanHead(s, pos, ms);
      SubstituteTokens(s, ms[0].1, ms[1..], mint, c + 1);
      SubstituteTokensStep(s, pos, ms, mint, c);
    }
  }

  /** The step of `SubstituteTokens`: the first span's placeholder joins the tokens of the rest. */
  lemma SubstituteTokensStep(s: string, pos: nat, ms: seq<(nat, nat)>, mint: Minter, c: nat)
    requires pos <= |s| && Mints(mint) && Ordered(ms, pos, |s|) && ms != []
    requires Tok(s[pos..ms[0].0]) && Inert(s[ms[0].0..ms[0].1])
    requires Ordered(ms[1..], ms[0].1, |s|)
    requires var rest := Substitute(s, ms[0].1, ms[1..], mint, c + 1);
      TokenSet(rest.text) == TokenSet(s[ms[0].1..]) + Keys(rest.minted)
    ensures TokenSet(Substitute(s, pos, ms, mint, c).text) == TokenSet(s[pos..]) + Keys(Substitute(s, pos, ms, mint, c).minted)
  {
    var (a, b) := ms[0];
    var p := mint(c);
    SubstituteHead(s, pos, ms, mint, c);
    SliceSplit(s, pos, a, b);
    var rest := Substitute(s, b, ms[1..], mint, c + 1);
    Splice(s[pos..a], s[a..b], s[b..], p, rest.text, map[]);
    KeysCons((p, s[a..b]), rest.minted);
  }

  /**
   * Expanding the output with any dictionary that holds the recorded entries
   * gives what expanding the input gives.
   */
  lemma {:induction false} SubstituteExpand(s: string, pos: nat, ms: seq<(nat, nat)>, mint: Minter, c: nat, d: map<string, string>)
    requires pos <= |s| && Mints(mint) && Ordered(ms, pos, |s|) && Clean(s, ms) && Tok(s[pos..])
    requires Agrees(d, Substitute(s, pos, ms, mint, c).minted)
    ensures ExpandKeys(Substitute(s, pos, ms, mint, c).text, d) == ExpandKeys(s[pos..], d)
    decreases |ms|
  {
    if ms != [] {
      var (a, b) := ms[0];
      var p := mint(c);
      SubstituteHead(s, pos, ms, mint, c);
      CleanTail(s, pos, ms);
      CleanHead(s, pos, ms);
      SliceSplit(s, pos, a, b);
      var r := Substitute(s, pos, ms, mint, c);
      var rest := Substitute(s, b, ms[1..], mint, c + 1);
      Splice(s[pos..a], s[a..b], s[b..], p, rest.text, d);
      AgreesConcat(d, [(p, s[a..b])], rest.minted);
      assert [(p, s[a..b])][0] == (p, s[a..b]);
      SubstituteExpand(s, b, ms[1..], mint, c + 1, d);
    }
  }

  /**
   * A pass of a sound matcher keeps a tokenised text tokenised, and adds
   * exactly the placeholders it records to the text's tokens.
   */
  lemma PassTokens(m: Matcher, tag: string, t: string, c: nat)
    requires Sound(m) && IsTag(tag) && Tok(t)
    ensures Tok(Pass(m, tag, t, c).text)
    ensures TokenSet(Pass(m, tag, t, c).text) == TokenSet(t) + Keys(Pass(m, tag, t, c).minted)
  {
    assert t[0..] == t;
    MatchesClean(m, t, 0);
    MintOfMints(tag);
    SubstituteTok(t, 0, Matches(m, t, 0), MintOf(tag), c);
    SubstituteTokens(t, 0, Matches(m, t, 0), MintOf(tag), c);
  }

  /** Expanding a pass's output with a dictionary that holds what it recorded gives back its input's expansion. */
  lemma PassExpand(m: Matcher, tag: string, t: string, c: nat, d: map<string, string>)
    requires Sound(m) && IsTag(tag) && Tok(t)
    requires Agrees(d, Pass(m, tag, t, c).minted)
    ensures ExpandKeys(Pass(m, tag, t, c).text, d) == ExpandKeys(t, d)
  {
    assert t[0..] == t;
    MatchesClean(m, t, 0);
    MintOfMints(tag);
    SubstituteExpand(t, 0, Matches(m, t, 0), MintOf(tag), c, d);
  }
}
