/**
 * The three fixed patterns of the fast pass, written out as scanners with the
 * semantics of a backtracking regular-expression engine:
 *
 *   email       [a-zA-Z0-9._%+-]+@[a-zA-Z0-9.-]+\.[a-zA-Z]{2,}
 *   creditCard  \b\d{4}[\s-]?\d{4}[\s-]?\d{4}[\s-]?\d{4}\b
 *   ssn         \b\d{3}-\d{2}-\d{4}\b
 *
 * `MatchAt(k, s, i)` is the end of the match the engine finds when it tries
 * position `i`; `MatcherOf(k)` hands it to the global replace, and
 * `MatcherSound` gives the replace what it needs to know about it.
 */
module Patterns {
  import opened Wrappers
  import opened Text
  import opened Placeholders
  import opened GlobalReplace

  /** The keys of the pattern table. */
  datatype Kind = Email | CreditCard | Ssn

  /** The table's keys in declaration order, which is the order the fast pass applies them in. */
  const PatternOrder: seq<Kind> := [Email, CreditCard, Ssn]

  /** `type.toUpperCase()`: the type name that goes into the placeholder. */
  function TagOf(k: Kind): (t: string)
    ensures IsTag(t)
  {
    match k
    case Email => "EMAIL"
    case CreditCard => "CREDITCARD"
    case Ssn => "SSN"
  }

  predicate IsLocalChar(c: char) { IsAlnum(c) || c == '.' || c == '_' || c == '%' || c == '+' || c == '-' }
  predicate IsDomainChar(c: char) { IsAlnum(c) || c == '.' || c == '-' }
  predicate IsCardSeparator(c: char) { IsSpace(c) || c == '-' }

  /** The end of the longest run of characters satisfying `p` that starts at `i`. */
  function RunEnd(s: string, i: nat, p: char -> bool): (j: nat)
    requires i <= |s|
    ensures i <= j <= |s|
    decreases |s| - i
  {
    if i < |s| && p(s[i]) then RunEnd(s, i + 1, p) else i
  }

  /** Every character of the run satisfies `p`, and the one after it, if any, does not. */
  lemma {:induction false} RunEndRun(s: string, i: nat, p: char -> bool)
    requires i <= |s|
    ensures forall k :: i <= k < RunEnd(s, i, p) ==> p(s[k])
    ensures RunEnd(s, i, p) < |s| ==> !p(s[RunEnd(s, i, p)])
    decreases |s| - i
  {
    if i < |s| && p(s[i]) {
      RunEndRun(s, i + 1, p);
    }
  }

  /** `\.[a-zA-Z]{2}` can start at `j`. */
  predicate TldDotAt(s: string, j: nat)
  {
    j + 2 < |s| && s[j] == '.' && IsLetter(s[j + 1]) && IsLetter(s[j + 2])
  }

  /**
   * The largest `j` with `lo < j < hi` at which `\.[a-zA-Z]{2}` can start:
   * the greedy `[a-zA-Z0-9.-]+` gives characters back from the right until
   * the rest of the pattern fits.
   */
  function LastTldDot(s: string, lo: nat, hi: nat): (r: Option<nat>)
    ensures r.Some? ==> lo < r.value < hi && TldDotAt(s, r.value)
    decreases hi
  {
    if hi <= lo + 1 then None
    else if TldDotAt(s, hi - 1) then Some(hi - 1)
    else LastTldDot(s, lo, hi - 1)
  }

  /** `LastTldDot` finds the last such dot: none lies after it, and when it finds none, there is none. */
  lemma {:induction false} LastTldDotLast(s: string, lo: nat, hi: nat)
    ensures LastTldDot(s, lo, hi).Some? ==> forall j :: LastTldDot(s, lo, hi).value < j < hi ==> !TldDotAt(s, j)
    ensures LastTldDot(s, lo, hi).None? ==> forall j :: lo < j < hi ==> !TldDotAt(s, j)
    decreases hi
  {
    if hi > lo + 1 && !TldDotAt(s, hi - 1) {
      LastTldDotLast(s, lo, hi - 1);
    }
  }

  /**
   * The domain and top-level part of the email pattern, from `a`: the longest
   * run of domain characters, cut back to its last ".xx" (which needs at
   * least one domain character before it); the top-level part takes all
   * letters after that dot.
   */
  function DomainAt(s: string, a: nat): (m: Option<nat>)
    requires a <= |s|
    ensures m.Some? ==> a < m.value <= |s|
  {
    var e := RunEnd(s, a, IsDomainChar);
    match LastTldDot(s, a, e)
    case None => None
    case Some(j) => Some(RunEnd(s, j + 1, IsLetter))
  }

  /** A domain match is made of domain characters. */
  lemma DomainShape(s: string, a: nat)
    requires a <= |s|
    ensures DomainAt(s, a).Some? ==> forall j :: a <= j < DomainAt(s, a).value ==> IsDomainChar(s[j])
  {
    var e := RunEnd(s, a, IsDomainChar);
    RunEndRun(s, a, IsDomainChar);
    var r := LastTldDot(s, a, e);
    if r.Some? {
      RunEndRun(s, r.value + 1, IsLetter);
    }
  }

  /**
   * The email pattern tried at `i`. The local part must be the whole run of
   * local characters from `i` (a shorter one is followed by a local
   * character, not '@'); the rest is `DomainAt` after the '@'.
   */
  function EmailAt(s: string, i: nat): (m: Option<nat>)
    requires i <= |s|
    ensures m.Some? ==> i < m.value <= |s|
  {
    var at := RunEnd(s, i, IsLocalChar);
    if at == i || at == |s| || s[at] != '@' then None
    else DomainAt(s, at + 1)
  }

  /** An email match is made of local-part characters and '@', and holds an '@' after its first character. */
  lemma EmailShape(s: string, i: nat)
    requires i <= |s|
    ensures EmailAt(s, i).Some? ==> forall j :: i <= j < EmailAt(s, i).value ==> IsLocalChar(s[j]) || s[j] == '@'
    ensures EmailAt(s, i).Some? ==> exists a :: i < a < EmailAt(s, i).value && s[a] == '@'
  {
    var at := RunEnd(s, i, IsLocalChar);
    RunEndRun(s, i, IsLocalChar);
    if at != i && at != |s| && s[at] == '@' {
      DomainShape(s, at + 1);
    }
  }

  /** `\b` at position `i`: exactly one of the characters around `i` is a word character. */
  predicate WordBoundary(s: string, i: nat)
    requires i <= |s|
  {
    (i > 0 && IsWordChar(s[i - 1])) != (i < |s| && IsWordChar(s[i]))
  }

  /** `\d{n}` at `i`. */
  predicate DigitsAt(s: string, i: nat, n: nat)
  {
    i + n <= |s| && forall k :: i <= k < i + n ==> IsDigit(s[k])
  }

  /**
   * `[\s-]?` followed by a digit: the separator is taken when present (leaving
   * it would put a non-digit where `\d` is required).
   */
  function SkipSeparator(s: string, p: nat): nat
  {
    if p < |s| && IsCardSeparator(s[p]) then p + 1 else p
  }

  /**
   * `([\s-]?\d{4}){n}` from `p`: `n` more groups of four digits, each after
   * an optional separator; where the last one ends.
   */
  function Groups(s: string, p: nat, n: nat): (r: Option<nat>)
    requires p <= |s|
    ensures r.Some? ==> p + 4 * n <= r.value <= |s|
    decreases n
  {
    if n == 0 then Some(p)
    else
      var q := SkipSeparator(s, p);
      if DigitsAt(s, q, 4) then Groups(s, q + 4, n - 1) else None
  }

  /** The groups hold only digits and separators. */
  lemma {:induction false} GroupsShape(s: string, p: nat, n: nat)
    requires p <= |s|
    ensures Groups(s, p, n).Some? ==> forall j :: p <= j < Groups(s, p, n).value ==> IsDigit(s[j]) || IsCardSeparator(s[j])
    decreases n
  {
    if n > 0 {
      var q := SkipSeparator(s, p);
      if DigitsAt(s, q, 4) {
        GroupsShape(s, q + 4, n - 1);
      }
    }
  }

  /** The credit-card pattern tried at `i`: a word boundary, four digits, three more groups, a word boundary. */
  function CardAt(s: string, i: nat): (m: Option<nat>)
    requires i <= |s|
    ensures m.Some? ==> i < m.value <= |s|
  {
    if !(WordBoundary(s, i) && DigitsAt(s, i, 4)) then None
    else
      match Groups(s, i + 4, 3)
      case None => None
      case Some(e) => if WordBoundary(s, e) then Some(e) else None
  }

  /** A card match starts with a digit at a word boundary and holds only digits and separators. */
  lemma CardShape(s: string, i: nat)
    requires i <= |s|
    ensures CardAt(s, i).Some? ==> IsDigit(s[i]) && WordBoundary(s, i)
    ensures CardAt(s, i).Some? ==> forall j :: i <= j < CardAt(s, i).value ==> IsDigit(s[j]) || IsCardSeparator(s[j])
  {
    if WordBoundary(s, i) && DigitsAt(s, i, 4) {
      GroupsShape(s, i + 4, 3);
    }
  }

  /** The SSN pattern tried at `i`. */
  function SsnAt(s: string, i: nat): (m: Option<nat>)
    requires i <= |s|
    ensures m.Some? ==> m.value == i + 11 <= |s|
  {
    if && WordBoundary(s, i) && DigitsAt(s, i, 3)
       && i + 3 < |s| && s[i + 3] == '-' && DigitsAt(s, i + 4, 2)
       && i + 6 < |s| && s[i + 6] == '-' && DigitsAt(s, i + 7, 4)
       && WordBoundary(s, i + 11)
    then Some(i + 11)
    else None
  }

  /** An SSN match starts with a digit at a word boundary and holds only digits and '-'. */
  lemma SsnShape(s: string, i: nat)
    requires i <= |s|
    ensures SsnAt(s, i).Some? ==> IsDigit(s[i]) && WordBoundary(s, i)
    ensures SsnAt(s, i).Some? ==> forall j :: i <= j < SsnAt(s, i).value ==> IsDigit(s[j]) || s[j] == '-'
  {
  }

  /** The match of pattern `k` that starts at `i`, if any. */
  function MatchAt(k: Kind, s: string, i: nat): (m: Option<nat>)
    requires i <= |s|
    ensures m.Some? ==> i < m.value <= |s|
  {
    match k
    case Email => EmailAt(s, i)
    case CreditCard => CardAt(s, i)
    case Ssn => SsnAt(s, i)
  }

  /** The e-mail scanner takes the whole local part, the '@', the domain and its top-level part. */
  lemma EmailExample()
    ensures EmailAt("a@b.co", 0) == Some(6)
  {
    var s := "a@b.co";
    assert RunEnd(s, 0, IsLocalChar) == 1;
    assert RunEnd(s, 2, IsDomainChar) == 6;
    assert LastTldDot(s, 2, 6) == Some(3);
    assert RunEnd(s, 4, IsLetter) == 6;
  }

  /**
   * The domain run "a.bc.d" is cut back to its last '.' followed by two
   * letters, so the match stops after "bc".
   */
  lemma EmailBacktrackExample()
    ensures EmailAt("x@a.bc.d", 0) == Some(6)
  {
    var s := "x@a.bc.d";
    assert RunEnd(s, 0, IsLocalChar) == 1;
    assert RunEnd(s, 2, IsDomainChar) == 8;
    assert LastTldDot(s, 2, 8) == Some(3);
    assert RunEnd(s, 4, IsLetter) == 6;
  }

  /** A top-level part of one letter does not match. */
  lemma EmailShortTldExample()
    ensures EmailAt("a@b.c", 0) == None
  {
    var s := "a@b.c";
    assert RunEnd(s, 0, IsLocalChar) == 1;
    assert RunEnd(s, 2, IsDomainChar) == 5;
    assert LastTldDot(s, 2, 5) == None;
  }

  /** The card scanner: each separator is optional, so the last two groups may run together. */
  lemma CardJoinedExample()
    ensures CardAt("4111 1111 11111111", 0) == Some(18)
  {
    var s := "4111 1111 11111111";
    assert WordBoundary(s, 0) && DigitsAt(s, 0, 4);
    assert SkipSeparator(s, 4) == 5 && DigitsAt(s, 5, 4);
    assert SkipSeparator(s, 9) == 10 && DigitsAt(s, 10, 4);
    assert SkipSeparator(s, 14) == 14 && DigitsAt(s, 14, 4);
    assert Groups(s, 4, 3) == Some(18);
  }

  /** The card scanner takes at most one separator between groups. */
  lemma CardDoubleSeparatorExample()
    ensures CardAt("4111--1111-1111-1111", 0) == None
  {
    var s := "4111--1111-1111-1111";
    assert WordBoundary(s, 0) && DigitsAt(s, 0, 4);
    assert s[5] == '-' && !IsDigit(s[5]);
    assert SkipSeparator(s, 4) == 5 && !DigitsAt(s, 5, 4);
    assert Groups(s, 4, 3) == None;
  }

  /** The card scanner needs a word boundary before the first digit. */
  lemma CardBoundaryExample()
    ensures CardAt("x4111 1111 1111 1111", 1) == None
  {
    var s := "x4111 1111 1111 1111";
    assert !WordBoundary(s, 1);
  }

  /** The SSN scanner: three, two and four digits joined by '-', between word boundaries. */
  lemma SsnExamples()
    ensures SsnAt("123-45-6789", 0) == Some(11)
    ensures SsnAt("123-45-67890", 0) == None
    ensures SsnAt("123 45 6789", 0) == None
  {
  }

  /**
   * A match never contains a bracket or '$'; an email match contains '@'
   * and a card or SSN match starts with a digit that has no word character
   * before it.
   */
  lemma MatchAtShape(k: Kind, s: string, i: nat)
    requires i <= |s|
    ensures MatchAt(k, s, i).Some? ==> forall j :: i <= j < MatchAt(k, s, i).value ==> s[j] != '[' && s[j] != ']' && s[j] != '$'
    ensures MatchAt(k, s, i).Some? && k == Email ==> exists a :: i < a < MatchAt(k, s, i).value && s[a] == '@'
    ensures MatchAt(k, s, i).Some? && k != Email ==> IsDigit(s[i]) && (i == 0 || !IsWordChar(s[i - 1]))
  {
    match k
    case Email => EmailShape(s, i);
    case CreditCard => CardShape(s, i);
    case Ssn => SsnShape(s, i);
  }

  /**
   * No match starts inside a placeholder that begins at or before it: the
   * match would have to lie in the placeholder's body, which holds neither
   * '@' nor a digit preceded by a non-word character.
   */
  lemma MatchOutsideToken(k: Kind, s: string, a: nat, b: nat, h: nat)
    requires a <= |s| && MatchAt(k, s, a) == Some(b)
    requires h <= a && TokenAt(s[h..]) > 0
    ensures h + TokenAt(s[h..]) <= a
  {
    MatchAtShape(k, s, a);
    var n := TokenAt(s[h..]);
    var t := s[h..][..n];
    assert t == s[h..h + n];
    assert IsPlaceholder(t);
    assert forall j :: h < j < h + n - 1 ==> IsBodyChar(s[j]) by {
      forall j | h < j < h + n - 1 ensures IsBodyChar(s[j]) {
        assert s[j] == t[j - h];
      }
    }
    assert s[h] == '[' && s[h + n - 1] == ']' && IsUpper(s[h + 1]);
    assert forall j :: a <= j < b ==> s[j] != '[' && s[j] != ']' && s[j] != '$';
  }

  /** The matcher of pattern `k`: `MatchAt` wherever it can be tried. */
  function MatcherOf(k: Kind): Matcher
  {
    (s: string, i: nat) => if i <= |s| then MatchAt(k, s, i) else None
  }

  /**
   * The three patterns' matches are non-empty, inside the text, free of
   * brackets, and never start inside a placeholder.
   */
  lemma MatcherSound(k: Kind)
    ensures Sound(MatcherOf(k))
  {
    var m := MatcherOf(k);
    forall s: string, i: nat | m(s, i).Some?
      ensures i < m(s, i).value <= |s|
    {
    }
    forall s: string, i: nat | m(s, i).Some? && i < m(s, i).value <= |s|
      ensures CleanMatch(m, s, i)
    {
      var b := m(s, i).value;
      assert MatchAt(k, s, i) == Some(b);
      MatchAtShape(k, s, i);
      assert forall x :: 0 <= x < b - i ==> s[i..b][x] == s[i + x];
      forall h | 0 <= h < i && TokenAt(s[h..]) > 0
        ensures h + TokenAt(s[h..]) <= i
      {
        MatchOutsideToken(k, s, i, b, h);
      }
    }
  }

  /*
   * Locality. Each pattern reads at most one character before the position
   * it is tried at (the `\b` of the card and SSN patterns), and none of its
   * character classes holds '[', so it never reads past a '['.
   */

  /** A run stops at a character that fails the test, so cutting the text just after it does not move the run's end. */
  lemma {:induction false} RunEndCut(s: string, i: nat, p: char -> bool, n: nat)
    requires i < n <= |s| && !p(s[n - 1])
    ensures RunEnd(s, i, p) == RunEnd(s[..n], i, p) < n
    decreases n - i
  {
    assert s[..n][i] == s[i];
    if p(s[i]) {
      RunEndCut(s, i + 1, p, n);
    }
  }

  /** Dropping the first `d` characters moves a run's end by `d`. */
  lemma {:induction false} RunEndDrop(s: string, t: string, d: nat, i: nat, j: nat, p: char -> bool)
    requires d <= i <= |s| && Shifted(s, t, d) && i == d + j
    ensures RunEnd(s, i, p) == d + RunEnd(t, j, p)
    decreases |s| - i
  {
    if i < |s| {
      assert t[j] == s[i];
      if p(s[i]) {
        RunEndDrop(s, t, d, i + 1, j + 1, p);
      }
    }
  }

  lemma TldDotCut(s: string, j: nat, n: nat)
    requires j < n <= |s| && s[n - 1] == '['
    ensures TldDotAt(s, j) == TldDotAt(s[..n], j)
  {
  }

  lemma TldDotDrop(s: string, t: string, d: nat, i: nat, j: nat)
    requires d <= i <= |s| && Shifted(s, t, d) && i == d + j
    ensures TldDotAt(s, i) == TldDotAt(t, j)
  {
    if i + 2 < |s| {
      assert t[j] == s[i] && t[j + 1] == s[i + 1] && t[j + 2] == s[i + 2];
    }
  }

  lemma {:induction false} LastTldDotCut(s: string, lo: nat, hi: nat, n: nat)
    requires 0 < n <= |s| && hi <= n && s[n - 1] == '['
    ensures LastTldDot(s, lo, hi) == LastTldDot(s[..n], lo, hi)
    decreases hi
  {
    if hi > lo + 1 {
      TldDotCut(s, hi - 1, n);
      LastTldDotCut(s, lo, hi - 1, n);
    }
  }

  lemma {:induction false} LastTldDotDrop(s: string, t: string, d: nat, lo: nat, hi: nat, lo': nat, hi': nat)
    requires d <= lo <= hi <= |s| && Shifted(s, t, d) && lo == d + lo' && hi == d + hi'
    ensures LastTldDot(s, lo, hi) == ShiftBy(LastTldDot(t, lo', hi'), d)
    decreases hi
  {
    if hi > lo + 1 {
      TldDotDrop(s, t, d, hi - 1, hi' - 1);
      LastTldDotDrop(s, t, d, lo, hi - 1, lo', hi' - 1);
    }
  }

  lemma DomainCut(s: string, a: nat, n: nat)
    requires a < n <= |s| && s[n - 1] == '['
    ensures DomainAt(s, a) == DomainAt(s[..n], a)
  {
    RunEndCut(s, a, IsDomainChar, n);
    var e := RunEnd(s, a, IsDomainChar);
    LastTldDotCut(s, a, e, n);
    var r := LastTldDot(s, a, e);
    if r.Some? {
      RunEndCut(s, r.value + 1, IsLetter, n);
    }
  }

  lemma DomainDrop(s: string, t: string, d: nat, a: nat, a': nat)
    requires d <= a <= |s| && Shifted(s, t, d) && a == d + a'
    ensures DomainAt(s, a) == ShiftBy(DomainAt(t, a'), d)
  {
    RunEndDrop(s, t, d, a, a', IsDomainChar);
    var e, e' := RunEnd(s, a, IsDomainChar), RunEnd(t, a', IsDomainChar);
    LastTldDotDrop(s, t, d, a, e, a', e');
    var r, r' := LastTldDot(s, a, e), LastTldDot(t, a', e');
    if r.Some? {
      RunEndDrop(s, t, d, r.value + 1, r'.value + 1, IsLetter);
    }
  }

  lemma EmailCut(s: string, i: nat, n: nat)
    requires i < n <= |s| && s[n - 1] == '['
    ensures EmailAt(s, i) == EmailAt(s[..n], i)
  {
    RunEndCut(s, i, IsLocalChar, n);
    var at := RunEnd(s, i, IsLocalChar);
    assert s[..n][at] == s[at];
    if at != i && s[at] == '@' {
      DomainCut(s, at + 1, n);
    }
  }

  lemma EmailDrop(s: string, t: string, d: nat, i: nat, j: nat)
    requires d <= i <= |s| && Shifted(s, t, d) && i == d + j
    ensures EmailAt(s, i) == ShiftBy(EmailAt(t, j), d)
  {
    RunEndDrop(s, t, d, i, j, IsLocalChar);
    var at, at' := RunEnd(s, i, IsLocalChar), RunEnd(t, j, IsLocalChar);
    if at != i && at != |s| {
      assert t[at'] == s[at];
      if s[at] == '@' {
        DomainDrop(s, t, d, at + 1, at' + 1);
      }
    }
  }

  lemma DigitsCut(s: string, i: nat, k: nat, n: nat)
    requires i < n <= |s| && s[n - 1] == '['
    ensures DigitsAt(s, i, k) == DigitsAt(s[..n], i, k)
    ensures DigitsAt(s, i, k) ==> i + k < n
  {
    if i + k >= n && i + k <= |s| {
      assert !IsDigit(s[n - 1]);
    }
  }

  lemma DigitsDrop(s: string, t: string, d: nat, i: nat, j: nat, k: nat)
    requires d <= i <= |s| && Shifted(s, t, d) && i == d + j
    ensures DigitsAt(s, i, k) == DigitsAt(t, j, k)
  {
    if i + k <= |s| {
      assert forall x :: i <= x < i + k ==> s[x] == t[x - d];
    }
  }

  lemma SkipCut(s: string, p: nat, n: nat)
    requires p < n <= |s| && s[n - 1] == '['
    ensures SkipSeparator(s, p) == SkipSeparator(s[..n], p) < n
  {
    assert s[..n][p] == s[p];
  }

  lemma SkipDrop(s: string, t: string, d: nat, i: nat, j: nat)
    requires d <= i <= |s| && Shifted(s, t, d) && i == d + j
    ensures SkipSeparator(s, i) == d + SkipSeparator(t, j)
  {
    if i < |s| {
      assert t[j] == s[i];
    }
  }

  lemma BoundaryCut(s: string, i: nat, n: nat)
    requires i < n <= |s|
    ensures WordBoundary(s, i) == WordBoundary(s[..n], i)
  {
    assert s[..n][i] == s[i];
    if i > 0 {
      assert s[..n][i - 1] == s[i - 1];
    }
  }

  lemma BoundaryDrop(s: string, t: string, d: nat, i: nat, j: nat)
    requires d < i <= |s| && Shifted(s, t, d) && i == d + j
    ensures WordBoundary(s, i) == WordBoundary(t, j)
  {
    assert t[j - 1] == s[i - 1];
    if i < |s| {
      assert t[j] == s[i];
    }
  }

  lemma {:induction false} GroupsCut(s: string, p: nat, k: nat, n: nat)
    requires p < n <= |s| && s[n - 1] == '['
    ensures Groups(s, p, k) == Groups(s[..n], p, k)
    ensures Groups(s, p, k).Some? ==> Groups(s, p, k).value < n
    decreases k
  {
    if k > 0 {
      SkipCut(s, p, n);
      var q := SkipSeparator(s, p);
      DigitsCut(s, q, 4, n);
      if DigitsAt(s, q, 4) {
        GroupsCut(s, q + 4, k - 1, n);
      }
    }
  }

  lemma {:induction false} GroupsDrop(s: string, t: string, d: nat, p: nat, p': nat, k: nat)
    requires d <= p <= |s| && Shifted(s, t, d) && p == d + p'
    ensures Groups(s, p, k) == ShiftBy(Groups(t, p', k), d)
    decreases k
  {
    if k > 0 {
      SkipDrop(s, t, d, p, p');
      var q, q' := SkipSeparator(s, p), SkipSeparator(t, p');
      DigitsDrop(s, t, d, q, q', 4);
      if DigitsAt(s, q, 4) {
        GroupsDrop(s, t, d, q + 4, q' + 4, k - 1);
      }
    }
  }

  lemma CardCut(s: string, i: nat, n: nat)
    requires i < n <= |s| && s[n - 1] == '['
    ensures CardAt(s, i) == CardAt(s[..n], i)
  {
    BoundaryCut(s, i, n);
    DigitsCut(s, i, 4, n);
    if WordBoundary(s, i) && DigitsAt(s, i, 4) {
      GroupsCut(s, i + 4, 3, n);
      var g := Groups(s, i + 4, 3);
      if g.Some? {
        BoundaryCut(s, g.value, n);
      }
    }
  }

  lemma CardDrop(s: string, t: string, d: nat, i: nat, j: nat)
    requires d < i <= |s| && Shifted(s, t, d) && i == d + j
    ensures CardAt(s, i) == ShiftBy(CardAt(t, j), d)
  {
    BoundaryDrop(s, t, d, i, j);
    DigitsDrop(s, t, d, i, j, 4);
    if WordBoundary(s, i) && DigitsAt(s, i, 4) {
      GroupsDrop(s, t, d, i + 4, j + 4, 3);
      var g, g' := Groups(s, i + 4, 3), Groups(t, j + 4, 3);
      if g.Some? {
        BoundaryDrop(s, t, d, g.value, g'.value);
      }
    }
  }

  lemma SsnCut(s: string, i: nat, n: nat)
    requires i < n <= |s| && s[n - 1] == '['
    ensures SsnAt(s, i) == SsnAt(s[..n], i)
  {
    var t := s[..n];
    BoundaryCut(s, i, n);
    DigitsCut(s, i, 3, n);
    if DigitsAt(s, i, 3) && s[i + 3] == '-' {
      assert t[i + 3] == s[i + 3];
      DigitsCut(s, i + 4, 2, n);
      if DigitsAt(s, i + 4, 2) && s[i + 6] == '-' {
        assert t[i + 6] == s[i + 6];
        DigitsCut(s, i + 7, 4, n);
        if DigitsAt(s, i + 7, 4) {
          BoundaryCut(s, i + 11, n);
        }
      }
    } else if DigitsAt(s, i, 3) {
      assert t[i + 3] == s[i + 3];
    }
  }

  lemma SsnDrop(s: string, t: string, d: nat, i: nat, j: nat)
    requires d < i <= |s| && Shifted(s, t, d) && i == d + j
    ensures SsnAt(s, i) == ShiftBy(SsnAt(t, j), d)
  {
    BoundaryDrop(s, t, d, i, j);
    DigitsDrop(s, t, d, i, j, 3);
    if DigitsAt(s, i, 3) && i + 3 < |s| {
      assert t[j + 3] == s[i + 3];
      DigitsDrop(s, t, d, i + 4, j + 4, 2);
      if DigitsAt(s, i + 4, 2) && i + 6 < |s| {
        assert t[j + 6] == s[i + 6];
        DigitsDrop(s, t, d, i + 7, j + 7, 4);
        if DigitsAt(s, i + 7, 4) {
          BoundaryDrop(s, t, d, i + 11, j + 11);
        }
      }
    }
  }

  lemma MatchAtCut(k: Kind, s: string, i: nat, n: nat)
    requires i < n <= |s| && s[n - 1] == '['
    ensures MatchAt(k, s, i) == MatchAt(k, s[..n], i)
  {
    match k
    case Email => EmailCut(s, i, n);
    case CreditCard => CardCut(s, i, n);
    case Ssn => SsnCut(s, i, n);
  }

  lemma MatchAtDrop(k: Kind, s: string, t: string, d: nat, i: nat, j: nat)
    requires 0 < j && d + j <= |s| && Shifted(s, t, d) && i == d + j
    ensures MatchAt(k, s, i) == ShiftBy(MatchAt(k, t, j), d)
  {
    match k
    case Email => EmailDrop(s, t, d, i, j);
    case CreditCard => CardDrop(s, t, d, i, j);
    case Ssn => SsnDrop(s, t, d, i, j);
  }

  lemma MatcherCutLocal(k: Kind)
    ensures CutLocal(MatcherOf(k))
  {
    forall s: string, i: nat, n: nat | i < n <= |s| && s[n - 1] == '['
      ensures MatcherOf(k)(s, i) == MatcherOf(k)(s[..n], i)
    {
      MatchAtCut(k, s, i, n);
    }
  }

  lemma MatcherDropLocal(k: Kind)
    ensures DropLocal(MatcherOf(k))
  {
    forall s: string, t: string, d: nat, j: nat | 0 < j && d + j <= |s| && Shifted(s, t, d)
      ensures MatcherOf(k)(s, d + j) == ShiftBy(MatcherOf(k)(t, j), d)
    {
      MatchAtDrop(k, s, t, d, d + j, j);
    }
  }

  /** None of the three patterns reads before the character ahead of its start or past a '['. */
  lemma MatcherLocal(k: Kind)
    ensures Local(MatcherOf(k))
  {
    MatcherCutLocal(k);
    MatcherDropLocal(k);
  }
}
