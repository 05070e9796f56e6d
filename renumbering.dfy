/**
 * The fast pass records the same number of entries whatever value the
 * counter starts from.
 *
 * Two runs of the fast pass over the same text from different counters see,
 * after their first pass, texts that differ only in the ordinals written
 * inside the placeholders they inserted. Such a pair of texts is described
 * here by one template: a sequence of items, each a character both texts
 * share or a placeholder that reads one way in the first text and another
 * way in the second. A pattern never matches inside a placeholder and only
 * reads from the character before its start up to the next '['
 * (`Sound`, `Local`), so it finds its matches at the same items in both
 * texts; replacing them keeps the pair described by a template; and so
 * every later pass records as many entries in both runs.
 */
module Renumbering {
  import opened Wrappers
  import opened Text
  import opened OrderedMap
  import opened Placeholders
  import opened GlobalReplace
  import opened Patterns
  import opened SyncPass

  /** A character both texts share, or a placeholder that reads `p1` in the first text and `p2` in the second. */
  datatype Item = Lit(c: char) | Ph(p1: string, p2: string)

  /** How an item reads in the first (`first`) or the second text. */
  function Piece(x: Item, first: bool): string
  {
    match x
    case Lit(c) => [c]
    case Ph(p1, p2) => if first then p1 else p2
  }

  /** The first or the second text a template describes. */
  function Render(T: seq<Item>, first: bool): string
    decreases |T|
  {
    if T == [] then [] else Piece(T[0], first) + Render(T[1..], first)
  }

  /** Both readings of a placeholder item are placeholders. */
  predicate WfItem(x: Item)
  {
    x.Ph? ==> IsPlaceholder(x.p1) && IsPlaceholder(x.p2)
  }

  predicate Wf(T: seq<Item>)
  {
    forall i :: 0 <= i < |T| ==> WfItem(T[i])
  }

  predicate AllLit(T: seq<Item>)
  {
    forall i :: 0 <= i < |T| ==> T[i].Lit?
  }

  /** Where item `k` starts in the first or the second text. */
  function Pos(T: seq<Item>, k: nat, first: bool): nat
    requires k <= |T|
  {
    |Render(T[..k], first)|
  }

  /** A text of plain characters only, as a template. */
  function Lits(t: string): (T: seq<Item>)
    ensures |T| == |t| && AllLit(T)
    ensures forall i :: 0 <= i < |t| ==> T[i] == Lit(t[i])
  {
    seq(|t|, i requires 0 <= i < |t| => Lit(t[i]))
  }

  lemma {:induction false} RenderConcat(A: seq<Item>, B: seq<Item>, first: bool)
    ensures Render(A + B, first) == Render(A, first) + Render(B, first)
    decreases |A|
  {
    if A == [] {
      assert A + B == B;
    } else {
      assert (A + B)[0] == A[0];
      assert (A + B)[1..] == A[1..] + B;
      RenderConcat(A[1..], B, first);
      ConcatAssoc(Piece(A[0], first), Render(A[1..], first), Render(B, first));
    }
  }

  /** A template read in pieces: what comes before item `k`, item `k`, and what comes after it. */
  lemma RenderAt(T: seq<Item>, k: nat, first: bool)
    requires k < |T|
    ensures Render(T, first) == Render(T[..k], first) + (Piece(T[k], first) + Render(T[k + 1..], first))
    ensures Pos(T, k + 1, first) == Pos(T, k, first) + |Piece(T[k], first)|
  {
    assert T == T[..k] + T[k..];
    RenderConcat(T[..k], T[k..], first);
    assert T[k..][0] == T[k] && T[k..][1..] == T[k + 1..];
    assert T[..k + 1] == T[..k] + [T[k]];
    RenderConcat(T[..k], [T[k]], first);
    assert Render([T[k]], first) == Piece(T[k], first) + Render([], first);
  }

  /** The text from item `k` on is what the rest of the template reads. */
  lemma RenderFrom(T: seq<Item>, k: nat, first: bool)
    requires k <= |T|
    ensures Pos(T, k, first) <= |Render(T, first)|
    ensures Render(T, first)[Pos(T, k, first)..] == Render(T[k..], first)
  {
    assert T == T[..k] + T[k..];
    RenderConcat(T[..k], T[k..], first);
  }

  /** Item `e` starts where item `a` starts plus the length of the items between them. */
  lemma PosSplit(T: seq<Item>, a: nat, e: nat, first: bool)
    requires a <= e <= |T|
    ensures Pos(T, e, first) == Pos(T, a, first) + |Render(T[a..e], first)|
  {
    assert T[..e] == T[..a] + T[a..e];
    RenderConcat(T[..a], T[a..e], first);
  }

  /** The text between items `a` and `e` is what those items read. */
  lemma RenderSlice(T: seq<Item>, a: nat, e: nat, first: bool)
    requires a <= e <= |T|
    ensures Pos(T, a, first) <= Pos(T, e, first) <= |Render(T, first)|
    ensures Render(T, first)[Pos(T, a, first)..Pos(T, e, first)] == Render(T[a..e], first)
  {
    RenderFrom(T, a, first);
    PosSplit(T, a, e, first);
    RenderSplit(T, a, e, first);
    HeadOfTail(Render(T, first), Pos(T, a, first), Render(T[a..e], first), Render(T[e..], first));
  }

  /** The items from `a` on read as those before `e` followed by those from `e` on. */
  lemma RenderSplit(T: seq<Item>, a: nat, e: nat, first: bool)
    requires a <= e <= |T|
    ensures Render(T[a..], first) == Render(T[a..e], first) + Render(T[e..], first)
  {
    assert T[a..] == T[a..e] + T[e..];
    RenderConcat(T[a..e], T[e..], first);
  }

  lemma HeadOfTail(r: string, x: nat, y: string, z: string)
    requires x <= |r| && r[x..] == y + z
    ensures x + |y| <= |r| && r[x..x + |y|] == y
  {
    assert forall i :: 0 <= i < |y| ==> r[x + i] == r[x..][i] == y[i];
  }

  /** Plain characters read the same in both texts, one character per item. */
  lemma {:induction false} LitRender(S: seq<Item>)
    requires AllLit(S)
    ensures Render(S, true) == Render(S, false)
    ensures |Render(S, true)| == |S|
    ensures forall y :: 0 <= y < |S| ==> Render(S, true)[y] == S[y].c
    decreases |S|
  {
    if S != [] {
      LitRender(S[1..]);
    }
  }

  /** The template of a plain text reads as that text on both sides. */
  lemma LitsRender(t: string)
    ensures Render(Lits(t), true) == t == Render(Lits(t), false) && Wf(Lits(t))
  {
    LitRender(Lits(t));
  }

  /** The last character an item reads as: its own character, or the ']' that closes a placeholder. */
  function LastChar(x: Item): char
  {
    if x.Lit? then x.c else ']'
  }

  /** The first placeholder item at or after `k`, or the end of the template. */
  function NextPh(T: seq<Item>, k: nat): (q: nat)
    requires k <= |T|
    ensures k <= q <= |T| && (q < |T| ==> T[q].Ph?)
    ensures forall i :: k <= i < q ==> T[i].Lit?
    decreases |T| - k
  {
    if k == |T| || T[k].Ph? then k else NextPh(T, k + 1)
  }

  /**
   * What a pattern tried at item `k` may read, with `q` the next placeholder:
   * the character before item `k`, if any, the plain characters up to item
   * `q` and the '[' that opens it. It is the same for both texts.
   */
  function Window(T: seq<Item>, k: nat, q: nat): string
    requires k <= q <= |T|
  {
    (if k == 0 then [] else [LastChar(T[k - 1])]) + Render(T[k..q], true) + (if q < |T| then "[" else [])
  }

  /** Items `k` to `e` are plain, so item `e` starts `e - k` characters after item `k`. */
  lemma PosLits(T: seq<Item>, k: nat, e: nat, first: bool)
    requires k <= e <= |T| && forall i :: k <= i < e ==> T[i].Lit?
    ensures AllLit(T[k..e]) && Pos(T, e, first) == Pos(T, k, first) + (e - k)
  {
    assert AllLit(T[k..e]);
    LitRender(T[k..e]);
    PosSplit(T, k, e, first);
  }

  /** The character before item `k` is the last one item `k - 1` reads as. */
  lemma LastCharAt(T: seq<Item>, k: nat, first: bool)
    requires 0 < k <= |T| && WfItem(T[k - 1])
    ensures 0 < Pos(T, k, first) <= |Render(T, first)|
    ensures Render(T, first)[Pos(T, k, first) - 1] == LastChar(T[k - 1])
  {
    RenderAt(T, k - 1, first);
    PieceLast(T[k - 1], first);
    LastOfMiddle(Render(T[..k - 1], first), Piece(T[k - 1], first), Render(T[k..], first));
  }

  /** An item reads as at least one character, the last of which is `LastChar`. */
  lemma PieceLast(x: Item, first: bool)
    requires WfItem(x)
    ensures var p := Piece(x, first); p != [] && p[|p| - 1] == LastChar(x)
  {
    if x.Ph? {
      assert IsPlaceholder(Piece(x, first));
    }
  }

  lemma LastOfMiddle(x: string, p: string, y: string)
    requires p != []
    ensures (x + (p + y))[|x| + |p| - 1] == p[|p| - 1]
  {
  }

  /**
   * The text from item `k` splits into the plain characters before the next
   * placeholder `q` and the text from `q`, which starts with '[' unless it is empty.
   */
  lemma TextFrom(T: seq<Item>, k: nat, first: bool)
    requires k <= |T| && (NextPh(T, k) < |T| ==> WfItem(T[NextPh(T, k)]))
    ensures var q := NextPh(T, k); var r := Render(T, first); var a := Pos(T, k, first);
      && a <= |r|
      && r[a..] == Render(T[k..q], true) + Render(T[q..], first)
      && |Render(T[k..q], true)| == q - k
      && (q < |T| ==> Render(T[q..], first) != [] && Render(T[q..], first)[0] == '[')
      && (q == |T| ==> Render(T[q..], first) == [])
  {
    var q := NextPh(T, k);
    RenderFrom(T, k, first);
    RenderSplit(T, k, q, first);
    assert AllLit(T[k..q]);
    LitRender(T[k..q]);
    if q < |T| {
      assert T[q..][0] == T[q];
      assert IsPlaceholder(Piece(T[q], first));
    } else {
      assert T[q..] == [];
    }
  }

  /**
   * Cutting a text just after the '[' that follows position `a`, and
   * dropping all of it but the `pre` characters before `a`, leaves `w`.
   */
  lemma WindowCut(r: string, a: nat, pre: string, l: string, z: string, br: bool, w: string, d: nat)
    requires a <= |r| && r[a..] == l + z
    requires br ==> z != [] && z[0] == '['
    requires !br ==> z == []
    requires |pre| <= a && |pre| <= 1 && (pre != [] ==> pre[0] == r[a - 1])
    requires w == pre + l + (if br then "[" else []) && d + |pre| == a
    ensures var n := a + |l| + (if br then 1 else 0);
      && n <= |r|
      && (br ==> r[n - 1] == '[')
      && (!br ==> n == |r|)
      && Shifted(r[..n], w, d)
  {
    var n := a + |l| + (if br then 1 else 0);
    assert forall i :: 0 <= i < |l| ==> r[a + i] == r[a..][i] == l[i];
    if br {
      assert r[a + |l|] == r[a..][|l|] == z[0];
    } else {
      assert n == |r|;
    }
  }

  lemma ShiftedNone(s: string, t: string)
    requires Shifted(s, t, 0)
    ensures s == t
  {
  }

  /** Where the window of the first item lies in either text. */
  lemma WindowTextFirst(T: seq<Item>, first: bool) returns (n: nat)
    requires 0 < |T| && T[0].Lit?
    requires NextPh(T, 0) < |T| ==> WfItem(T[NextPh(T, 0)])
    ensures Pos(T, 0, first) == 0 < n <= |Render(T, first)|
    ensures NextPh(T, 0) < |T| ==> Render(T, first)[n - 1] == '['
    ensures NextPh(T, 0) == |T| ==> n == |Render(T, first)|
    ensures Render(T, first)[..n] == Window(T, 0, NextPh(T, 0))
  {
    var q := NextPh(T, 0);
    var r := Render(T, first);
    var l := Render(T[0..q], true);
    TextFrom(T, 0, first);
    assert T[..0] == [];
    var br := q < |T|;
    WindowCut(r, 0, [], l, Render(T[q..], first), br, Window(T, 0, q), 0);
    n := |l| + (if br then 1 else 0);
    ShiftedNone(r[..n], Window(T, 0, q));
  }

  /** Where the window of a later item `k` lies in either text. */
  lemma WindowTextLater(T: seq<Item>, k: nat, first: bool) returns (n: nat)
    requires 0 < k < |T| && T[k].Lit? && WfItem(T[k - 1])
    requires NextPh(T, k) < |T| ==> WfItem(T[NextPh(T, k)])
    ensures 0 < Pos(T, k, first) < n <= |Render(T, first)|
    ensures NextPh(T, k) < |T| ==> Render(T, first)[n - 1] == '['
    ensures NextPh(T, k) == |T| ==> n == |Render(T, first)|
    ensures Shifted(Render(T, first)[..n], Window(T, k, NextPh(T, k)), Pos(T, k, first) - 1)
  {
    var q := NextPh(T, k);
    var r := Render(T, first);
    var a := Pos(T, k, first);
    var l := Render(T[k..q], true);
    TextFrom(T, k, first);
    LastCharAt(T, k, first);
    var br := q < |T|;
    WindowCut(r, a, [LastChar(T[k - 1])], l, Render(T[q..], first), br, Window(T, k, q), a - 1);
    n := a + |l| + (if br then 1 else 0);
  }

  /** The items next to the plain run from `k` are well formed. */
  predicate Around(T: seq<Item>, k: nat)
    requires k <= |T|
  {
    && (NextPh(T, k) < |T| ==> WfItem(T[NextPh(T, k)]))
    && (0 < k ==> WfItem(T[k - 1]))
  }

  /**
   * A pattern tried at a plain item reads the same window in both texts: its
   * match there is the match in the window, shifted to where the item starts.
   */
  lemma WindowMatch(m: Matcher, T: seq<Item>, k: nat, first: bool)
    requires Local(m) && k < |T| && T[k].Lit? && Around(T, k)
    ensures var j := if k == 0 then 0 else 1;
      && j <= Pos(T, k, first) <= |Render(T, first)|
      && m(Render(T, first), Pos(T, k, first)) == ShiftBy(m(Window(T, k, NextPh(T, k)), j), Pos(T, k, first) - j)
  {
    var r := Render(T, first);
    var a := Pos(T, k, first);
    var br := NextPh(T, k) < |T|;
    if k == 0 {
      var n := WindowTextFirst(T, first);
      CutWindow(m, r, a, n, br);
    } else {
      var n := WindowTextLater(T, k, first);
      CutWindow(m, r, a, n, br);
      DropWindow(m, r[..n], a, Window(T, k, NextPh(T, k)));
    }
  }

  lemma CutWindow(m: Matcher, r: string, a: nat, n: nat, br: bool)
    requires CutLocal(m) && a < n <= |r|
    requires br ==> r[n - 1] == '['
    requires !br ==> n == |r|
    ensures m(r, a) == m(r[..n], a)
  {
    if !br {
      assert r[..n] == r;
    }
  }

  lemma DropWindow(m: Matcher, s: string, a: nat, w: string)
    requires DropLocal(m) && 0 < a <= |s| && Shifted(s, w, a - 1)
    ensures m(s, a) == ShiftBy(m(w, 1), a - 1)
  {
    assert m(s, (a - 1) + 1) == ShiftBy(m(w, 1), a - 1);
  }

  /** The window of item `k` is the plain characters up to `q`, after one character unless `k` is 0, then '['. */
  lemma WindowShape(T: seq<Item>, k: nat)
    requires k <= |T|
    ensures var q := NextPh(T, k); var j := if k == 0 then 0 else 1; var W := Window(T, k, q);
      && |W| == j + (q - k) + (if q < |T| then 1 else 0)
      && (q < |T| ==> W[j + (q - k)] == '[')
  {
    var q := NextPh(T, k);
    assert AllLit(T[k..q]);
    LitRender(T[k..q]);
  }

  /**
   * The match a pattern has at plain item `k`, read in the window and
   * counted in items: it ends at item `e`, before the next placeholder.
   */
  function MatchItem(m: Matcher, T: seq<Item>, k: nat): (e: Option<nat>)
    requires k < |T|
    ensures e.Some? ==> k < e.value <= NextPh(T, k)
  {
    var j := if k == 0 then 0 else 1;
    var q := NextPh(T, k);
    match m(Window(T, k, q), j)
    case None => None
    case Some(v) => if j < v && k + (v - j) <= q then Some(k + (v - j)) else None
  }

  /** `MatchItem` in terms of the match in the window. */
  lemma MatchItemIs(m: Matcher, T: seq<Item>, k: nat)
    requires k < |T|
    ensures var j := if k == 0 then 0 else 1; var q := NextPh(T, k); var r := m(Window(T, k, q), j);
      && (r.None? ==> MatchItem(m, T, k).None?)
      && (r.Some? && j < r.value && k + (r.value - j) <= q ==> MatchItem(m, T, k) == Some(k + (r.value - j)))
  {
  }

  /**
   * A clean match in a window ends before the '[' that closes it: it spans
   * at most the `n` plain characters after position `j`.
   */
  lemma CleanWindow(m: Matcher, W: string, j: nat, n: nat, br: bool)
    requires Sound(m) && |W| == j + n + (if br then 1 else 0) && (br ==> W[j + n] == '[')
    ensures m(W, j).Some? ==> j < m(W, j).value <= j + n
  {
    if m(W, j).Some? {
      var v := m(W, j).value;
      assert CleanMatch(m, W, j);
      assert forall i :: j <= i < v ==> W[i] == W[j..v][i - j];
    }
  }

  /** A sound pattern's match in the window of item `k` is what `MatchItem` counts in items. */
  lemma MatchItemEnd(m: Matcher, T: seq<Item>, k: nat)
    requires Sound(m) && k < |T|
    ensures var j := if k == 0 then 0 else 1; var r := m(Window(T, k, NextPh(T, k)), j);
      && (r.None? <==> MatchItem(m, T, k).None?)
      && (r.Some? ==> MatchItem(m, T, k).value == k + (r.value - j) && j < r.value)
  {
    WindowShape(T, k);
    MatchItemIs(m, T, k);
    var j := if k == 0 then 0 else 1;
    var q := NextPh(T, k);
    CleanWindow(m, Window(T, k, q), j, q - k, q < |T|);
  }

  /** At a plain item, the pattern matches in either text exactly as `MatchItem` says. */
  lemma MatchSide(m: Matcher, T: seq<Item>, k: nat, first: bool)
    requires Local(m) && Sound(m) && k < |T| && T[k].Lit? && Around(T, k)
    ensures MatchItem(m, T, k).None? ==> m(Render(T, first), Pos(T, k, first)).None?
    ensures MatchItem(m, T, k).Some? ==> m(Render(T, first), Pos(T, k, first)) == Some(Pos(T, MatchItem(m, T, k).value, first))
  {
    WindowMatch(m, T, k, first);
    MatchShift(m, T, k, first);
  }

  /** The step of `MatchSide` once the match in the text is known to be the match in the window, shifted. */
  lemma MatchShift(m: Matcher, T: seq<Item>, k: nat, first: bool)
    requires Sound(m) && k < |T| && T[k].Lit?
    requires var j := if k == 0 then 0 else 1;
      && j <= Pos(T, k, first) <= |Render(T, first)|
      && m(Render(T, first), Pos(T, k, first)) == ShiftBy(m(Window(T, k, NextPh(T, k)), j), Pos(T, k, first) - j)
    ensures MatchItem(m, T, k).None? ==> m(Render(T, first), Pos(T, k, first)).None?
    ensures MatchItem(m, T, k).Some? ==> m(Render(T, first), Pos(T, k, first)) == Some(Pos(T, MatchItem(m, T, k).value, first))
  {
    MatchItemEnd(m, T, k);
    if MatchItem(m, T, k).Some? {
      PosLits(T, k, MatchItem(m, T, k).value, first);
    }
  }

  /** A placeholder item is a placeholder token in either text. */
  lemma PhAt(T: seq<Item>, k: nat, first: bool)
    requires k < |T| && T[k].Ph? && WfItem(T[k])
    ensures var R := Render(T, first); var h := Pos(T, k, first);
      && h < Pos(T, k + 1, first) <= |R|
      && R[h] == '['
      && TokenAt(R[h..]) == Pos(T, k + 1, first) - h
  {
    var p := Piece(T[k], first);
    assert IsPlaceholder(p);
    RenderFrom(T, k, first);
    RenderFrom(T, k + 1, first);
    RenderAt(T, k, first);
    assert T[k..][0] == T[k] && T[k..][1..] == T[k + 1..];
    TokenAtPlaceholder(p, Render(T[k + 1..], first));
  }

  /** A sound pattern matches neither at a '[' nor inside a placeholder. */
  lemma CleanStart(m: Matcher, s: string, x: nat)
    requires Sound(m)
    ensures m(s, x).Some? ==> x < |s| && s[x] != '[' && StartsOutsideTokens(s, x)
  {
    if m(s, x).Some? {
      assert CleanMatch(m, s, x);
      assert s[x..m(s, x).value][0] == s[x];
    }
  }

  /** Nothing matches where a placeholder token of length `n` lies. */
  lemma NoMatchInToken(m: Matcher, s: string, h: nat, n: nat, x: nat)
    requires Sound(m) && h <= x < h + n && h < |s| && s[h] == '[' && TokenAt(s[h..]) == n
    ensures m(s, x).None?
  {
    CleanStart(m, s, x);
  }

  /** Positions that begin no match are passed over. */
  lemma {:induction false} FindFromPast(m: Matcher, s: string, pos: nat, q: nat)
    requires Bounded(m) && pos <= q <= |s|
    requires forall x :: pos <= x < q ==> m(s, x).None?
    ensures FindFrom(m, s, pos) == FindFrom(m, s, q)
    decreases q - pos
  {
    if pos < q {
      FindFromPast(m, s, pos + 1, q);
    }
  }

  /** Where a placeholder item lies, nothing matches in either text. */
  lemma PhSide(m: Matcher, T: seq<Item>, k: nat, first: bool)
    requires Sound(m) && k < |T| && T[k].Ph? && WfItem(T[k])
    ensures Pos(T, k, first) < Pos(T, k + 1, first) <= |Render(T, first)|
    ensures FindFrom(m, Render(T, first), Pos(T, k, first)) == FindFrom(m, Render(T, first), Pos(T, k + 1, first))
  {
    PhAt(T, k, first);
    var R := Render(T, first);
    var h := Pos(T, k, first);
    forall x | h <= x < Pos(T, k + 1, first)
      ensures m(R, x).None?
    {
      NoMatchInToken(m, R, h, Pos(T, k + 1, first) - h, x);
    }
    FindFromPast(m, R, h, Pos(T, k + 1, first));
  }

  /** The pattern matches at plain item `k` of one of the texts as `MatchItem` says. */
  predicate SideAgrees(m: Matcher, T: seq<Item>, k: nat, first: bool)
    requires k < |T|
  {
    match MatchItem(m, T, k)
    case None => m(Render(T, first), Pos(T, k, first)).None?
    case Some(e) => m(Render(T, first), Pos(T, k, first)) == Some(Pos(T, e, first))
  }

  /** At every plain item the pattern matches in the text as `MatchItem` says. */
  ghost predicate ItemMatches(m: Matcher, T: seq<Item>, first: bool)
  {
    forall k :: 0 <= k < |T| && T[k].Lit? ==> SideAgrees(m, T, k, first)
  }

  /** A local, sound pattern matches in either text of a template as `MatchItem` says. */
  lemma ItemMatchesOf(m: Matcher, T: seq<Item>, first: bool)
    requires Local(m) && Sound(m) && Wf(T)
    ensures ItemMatches(m, T, first)
  {
    forall k | 0 <= k < |T| && T[k].Lit?
      ensures SideAgrees(m, T, k, first)
    {
      assert Around(T, k);
      MatchSide(m, T, k, first);
    }
  }

  /**
   * The leftmost match from item `k`, as items: it starts at a plain item
   * and ends at most at the next placeholder.
   */
  function FindItem(m: Matcher, T: seq<Item>, k: nat): (r: Option<(nat, nat)>)
    requires k <= |T|
    ensures r.Some? ==> k <= r.value.0 < |T| && r.value.0 < r.value.1 <= NextPh(T, r.value.0)
    decreases |T| - k
  {
    if k == |T| then None
    else if T[k].Ph? then FindItem(m, T, k + 1)
    else match MatchItem(m, T, k)
      case Some(e) => Some((k, e))
      case None => FindItem(m, T, k + 1)
  }

  /** A span of items, as a span of positions in one of the texts. */
  function PosSpan(T: seq<Item>, sp: (nat, nat), first: bool): (nat, nat)
    requires sp.0 <= |T| && sp.1 <= |T|
  {
    (Pos(T, sp.0, first), Pos(T, sp.1, first))
  }

  /** The leftmost match from item `k`, in either text, is the one `FindItem` finds. */
  lemma {:induction false} FindSide(m: Matcher, T: seq<Item>, k: nat, first: bool)
    requires Sound(m) && Wf(T) && ItemMatches(m, T, first) && k <= |T|
    ensures Pos(T, k, first) <= |Render(T, first)|
    ensures FindItem(m, T, k).None? ==> FindFrom(m, Render(T, first), Pos(T, k, first)).None?
    ensures FindItem(m, T, k).Some? ==>
      FindFrom(m, Render(T, first), Pos(T, k, first)) == Some(PosSpan(T, FindItem(m, T, k).value, first))
    decreases |T| - k
  {
    if k == |T| {
      RenderFrom(T, k, first);
      assert T[k..] == [];
    } else if T[k].Ph? {
      PhSide(m, T, k, first);
      FindSide(m, T, k + 1, first);
    } else {
      assert SideAgrees(m, T, k, first);
      LitSide(m, T, k, first, MatchItem(m, T, k));
      if MatchItem(m, T, k).None? {
        FindSide(m, T, k + 1, first);
      }
    }
  }

  /** At a plain item, the replace takes the match `MatchItem` finds, or moves on to the next item. */
  lemma LitSide(m: Matcher, T: seq<Item>, k: nat, first: bool, e: Option<nat>)
    requires Bounded(m) && k < |T| && T[k].Lit? && (e.Some? ==> k < e.value <= |T|)
    requires e.None? ==> m(Render(T, first), Pos(T, k, first)).None?
    requires e.Some? ==> m(Render(T, first), Pos(T, k, first)) == Some(Pos(T, e.value, first))
    ensures Pos(T, k, first) < Pos(T, k + 1, first) <= |Render(T, first)|
    ensures e.None? ==>
      FindFrom(m, Render(T, first), Pos(T, k, first)) == FindFrom(m, Render(T, first), Pos(T, k + 1, first))
    ensures e.Some? ==>
      FindFrom(m, Render(T, first), Pos(T, k, first)) == Some(PosSpan(T, (k, e.value), first))
  {
    PosLit(T, k, first);
    PosBound(T, k + 1, first);
    FindFromAt(m, Render(T, first), Pos(T, k, first));
  }

  /** A plain item is one character wide. */
  lemma PosLit(T: seq<Item>, k: nat, first: bool)
    requires k < |T| && T[k].Lit?
    ensures Pos(T, k + 1, first) == Pos(T, k, first) + 1
  {
    PosLits(T, k, k + 1, first);
  }

  lemma PosBound(T: seq<Item>, k: nat, first: bool)
    requires k <= |T|
    ensures Pos(T, k, first) <= |Render(T, first)|
  {
    RenderFrom(T, k, first);
  }

  /** The first step of `FindFrom`. */
  lemma FindFromAt(m: Matcher, s: string, pos: nat)
    requires Bounded(m) && pos < |s|
    ensures m(s, pos).None? ==> FindFrom(m, s, pos) == FindFrom(m, s, pos + 1)
    ensures m(s, pos).Some? ==> FindFrom(m, s, pos) == Some((pos, m(s, pos).value))
  {
  }

  /** The spans of items a replace visits from item `k`, as `Matches` finds them in the text. */
  function MatchesItem(m: Matcher, T: seq<Item>, k: nat): (ms: seq<(nat, nat)>)
    requires k <= |T|
    ensures Ordered(ms, k, |T|)
    decreases |T| - k
  {
    match FindItem(m, T, k)
    case None => []
    case Some((a, b)) =>
      var rest := MatchesItem(m, T, b);
      var ms := [(a, b)] + rest;
      assert forall i :: 0 < i < |ms| ==> ms[i] == rest[i - 1];
      ms
  }

  /** Spans of items, as spans of positions in one of the texts. */
  function PosSpans(T: seq<Item>, ms: seq<(nat, nat)>, first: bool): (ps: seq<(nat, nat)>)
    requires forall i :: 0 <= i < |ms| ==> ms[i].0 < ms[i].1 <= |T|
    ensures |ps| == |ms|
  {
    seq(|ms|, i requires 0 <= i < |ms| => PosSpan(T, ms[i], first))
  }

  lemma PosSpansCons(T: seq<Item>, sp: (nat, nat), ms: seq<(nat, nat)>, first: bool)
    requires sp.0 < sp.1 <= |T| && forall i :: 0 <= i < |ms| ==> ms[i].0 < ms[i].1 <= |T|
    ensures PosSpans(T, [sp] + ms, first) == [PosSpan(T, sp, first)] + PosSpans(T, ms, first)
  {
    var xs := [sp] + ms;
    assert forall i :: 0 < i < |xs| ==> xs[i] == ms[i - 1];
  }

  /** The spans a replace visits from item `k`, in either text, are those `MatchesItem` finds. */
  lemma {:induction false} MatchesSide(m: Matcher, T: seq<Item>, k: nat, first: bool)
    requires Sound(m) && Wf(T) && ItemMatches(m, T, first) && k <= |T|
    ensures Pos(T, k, first) <= |Render(T, first)|
    ensures Matches(m, Render(T, first), Pos(T, k, first)) == PosSpans(T, MatchesItem(m, T, k), first)
    decreases |T| - k
  {
    FindSide(m, T, k, first);
    MatchesStep(m, Render(T, first), Pos(T, k, first));
    if FindItem(m, T, k).Some? {
      var (a, b) := FindItem(m, T, k).value;
      MatchesSide(m, T, b, first);
      PosSpansCons(T, (a, b), MatchesItem(m, T, b), first);
    }
  }

  /** Each span covers plain items only. */
  predicate PlainSpans(T: seq<Item>, ms: seq<(nat, nat)>)
  {
    forall i :: 0 <= i < |ms| ==> ms[i].0 < |T| && ms[i].1 <= NextPh(T, ms[i].0)
  }

  /** Ordered spans from item `k` on, each of plain items. */
  predicate Spans(T: seq<Item>, k: nat, ms: seq<(nat, nat)>)
  {
    k <= |T| && Ordered(ms, k, |T|) && PlainSpans(T, ms)
  }

  /** Every span `MatchesItem` finds covers plain items only. */
  lemma {:induction false} MatchesItemPlain(m: Matcher, T: seq<Item>, k: nat)
    requires k <= |T|
    ensures PlainSpans(T, MatchesItem(m, T, k))
    decreases |T| - k
  {
    if FindItem(m, T, k).Some? {
      var (a, b) := FindItem(m, T, k).value;
      MatchesItemPlain(m, T, b);
      var ms := MatchesItem(m, T, k);
      assert forall i :: 0 < i < |ms| ==> ms[i] == MatchesItem(m, T, b)[i - 1];
    }
  }

  /** Spans of plain items keep their order and bounds as spans of positions. */
  lemma PosSpansOrdered(T: seq<Item>, ms: seq<(nat, nat)>, k: nat, first: bool)
    requires Spans(T, k, ms)
    ensures Ordered(PosSpans(T, ms, first), Pos(T, k, first), |Render(T, first)|)
  {
    var ps := PosSpans(T, ms, first);
    forall i | 0 <= i < |ms|
      ensures ps[i].0 < ps[i].1 <= |Render(T, first)|
    {
      PosLits(T, ms[i].0, ms[i].1, first);
      RenderFrom(T, ms[i].1, first);
    }
    forall i, j | 0 <= i < j < |ms|
      ensures ps[i].1 <= ps[j].0
    {
      PosSplit(T, ms[i].1, ms[j].0, first);
    }
    if ms != [] {
      PosSplit(T, k, ms[0].0, first);
    }
  }

  /**
   * The template of the two texts after the replace: each span of items
   * becomes one placeholder item, which reads `mint(c1 + i)` in the first
   * text and `mint(c2 + i)` in the second.
   */
  function SubstItems(T: seq<Item>, k: nat, ms: seq<(nat, nat)>, mint: Minter, c1: nat, c2: nat): seq<Item>
    requires k <= |T| && Ordered(ms, k, |T|)
    decreases |ms|
  {
    if ms == [] then T[k..]
    else
      var (a, b) := ms[0];
      assert Ordered(ms[1..], b, |T|) by {
        assert forall i :: 0 <= i < |ms| - 1 ==> ms[1..][i] == ms[i + 1];
      }
      T[k..a] + [Ph(mint(c1), mint(c2))] + SubstItems(T, b, ms[1..], mint, c1 + 1, c2 + 1)
  }

  /** The spans after the first are ordered from its end, and plain. */
  lemma SpansTail(T: seq<Item>, k: nat, ms: seq<(nat, nat)>, first: bool)
    requires Spans(T, k, ms) && ms != []
    ensures Spans(T, ms[0].1, ms[1..])
    ensures PosSpans(T, ms, first) == [PosSpan(T, ms[0], first)] + PosSpans(T, ms[1..], first)
  {
    SpansRest(T, k, ms);
    assert ms == [ms[0]] + ms[1..];
    PosSpansCons(T, ms[0], ms[1..], first);
  }

  lemma SpansRest(T: seq<Item>, k: nat, ms: seq<(nat, nat)>)
    requires Spans(T, k, ms) && ms != []
    ensures Spans(T, ms[0].1, ms[1..])
  {
    assert forall i :: 0 <= i < |ms| - 1 ==> ms[1..][i] == ms[i + 1];
  }

  /** Plain items, then one item, then more items, read in order. */
  lemma RenderAround(A: seq<Item>, x: Item, B: seq<Item>, first: bool)
    ensures Render(A + [x] + B, first) == Render(A, first) + (Piece(x, first) + Render(B, first))
  {
    RenderConcat(A + [x], B, first);
    RenderConcat(A, [x], first);
    assert Render([x], first) == Piece(x, first) + Render([], first) == Piece(x, first);
    ConcatAssoc(Render(A, first), Piece(x, first), Render(B, first));
  }

  /** The first step of `SubstItems`. */
  lemma SubstItemsHead(T: seq<Item>, k: nat, ms: seq<(nat, nat)>, mint: Minter, c1: nat, c2: nat)
    requires k <= |T| && Ordered(ms, k, |T|) && ms != []
    ensures Ordered(ms[1..], ms[0].1, |T|)
    ensures SubstItems(T, k, ms, mint, c1, c2)
      == T[k..ms[0].0] + [Ph(mint(c1), mint(c2))] + SubstItems(T, ms[0].1, ms[1..], mint, c1 + 1, c2 + 1)
  {
    assert forall i :: 0 <= i < |ms| - 1 ==> ms[1..][i] == ms[i + 1];
  }

  /**
   * The text a replace of the spans produces from item `k` on, in one of
   * the texts: what comes before each span is kept, and the span becomes
   * the placeholder for the next ordinal.
   */
  function SideText(T: seq<Item>, k: nat, ms: seq<(nat, nat)>, mint: Minter, c: nat, first: bool): string
    requires Spans(T, k, ms)
    decreases |ms|
  {
    if ms == [] then Render(T[k..], first)
    else
      SpansTail(T, k, ms, first);
      Render(T[k..ms[0].0], first) + (mint(c) + SideText(T, ms[0].1, ms[1..], mint, c + 1, first))
  }

  /** `SideText` is what `Substitute` produces over the spans as positions in the text. */
  lemma {:induction false} SideTextSubstitute(T: seq<Item>, k: nat, ms: seq<(nat, nat)>, mint: Minter, c: nat, first: bool)
    requires Spans(T, k, ms)
    ensures Pos(T, k, first) <= |Render(T, first)|
    ensures Ordered(PosSpans(T, ms, first), Pos(T, k, first), |Render(T, first)|)
    ensures Substitute(Render(T, first), Pos(T, k, first), PosSpans(T, ms, first), mint, c).text == SideText(T, k, ms, mint, c, first)
    decreases |ms|
  {
    RenderFrom(T, k, first);
    PosSpansOrdered(T, ms, k, first);
    if ms != [] {
      var (a, b) := ms[0];
      var ps := PosSpans(T, ms, first);
      SpansTail(T, k, ms, first);
      SideTextSubstitute(T, b, ms[1..], mint, c + 1, first);
      assert ps[0].1 == Pos(T, b, first) && ps[1..] == PosSpans(T, ms[1..], first);
      RenderSlice(T, k, a, first);
      SubstituteHead(Render(T, first), Pos(T, k, first), ps, mint, c);
    }
  }

  /**
   * Replacing the spans in either text, with that text's counter, gives the
   * text that side of `SubstItems` reads.
   */
  lemma {:induction false} SubstSide(T: seq<Item>, k: nat, ms: seq<(nat, nat)>, mint: Minter, c1: nat, c2: nat)
    requires Spans(T, k, ms)
    ensures SideText(T, k, ms, mint, c1, true) == Render(SubstItems(T, k, ms, mint, c1, c2), true)
    ensures SideText(T, k, ms, mint, c2, false) == Render(SubstItems(T, k, ms, mint, c1, c2), false)
    decreases |ms|
  {
    if ms != [] {
      var (a, b) := ms[0];
      var x := Ph(mint(c1), mint(c2));
      var rest := SubstItems(T, b, ms[1..], mint, c1 + 1, c2 + 1);
      SpansTail(T, k, ms, true);
      SubstSide(T, b, ms[1..], mint, c1 + 1, c2 + 1);
      SubstItemsHead(T, k, ms, mint, c1, c2);
      RenderAround(T[k..a], x, rest, true);
      RenderAround(T[k..a], x, rest, false);
    }
  }

  /** Item 0 starts both texts. */
  lemma PosZero(T: seq<Item>, first: bool)
    ensures Pos(T, 0, first) == 0
  {
    assert T[..0] == [];
  }

  lemma WfConcat(A: seq<Item>, B: seq<Item>)
    requires Wf(A) && Wf(B)
    ensures Wf(A + B)
  {
    assert forall i :: |A| <= i < |A + B| ==> (A + B)[i] == B[i - |A|];
  }

  /** When every ordinal reads as a placeholder, replacing spans keeps a template well formed. */
  lemma {:induction false} SubstItemsWf(T: seq<Item>, k: nat, ms: seq<(nat, nat)>, mint: Minter, c1: nat, c2: nat)
    requires Wf(T) && k <= |T| && Ordered(ms, k, |T|) && Mints(mint)
    ensures Wf(SubstItems(T, k, ms, mint, c1, c2))
    decreases |ms|
  {
    if ms == [] {
      assert forall i :: 0 <= i < |T| - k ==> T[k..][i] == T[k + i];
    } else {
      var (a, b) := ms[0];
      SubstItemsHead(T, k, ms, mint, c1, c2);
      SubstItemsWf(T, b, ms[1..], mint, c1 + 1, c2 + 1);
      assert forall i :: 0 <= i < a - k ==> T[k..a][i] == T[k + i];
      assert WfItem(Ph(mint(c1), mint(c2)));
      WfConcat(T[k..a], [Ph(mint(c1), mint(c2))]);
      WfConcat(T[k..a] + [Ph(mint(c1), mint(c2))], SubstItems(T, b, ms[1..], mint, c1 + 1, c2 + 1));
    }
  }

  /**
   * One global replace over both texts of a template, each with its own
   * counter, records as many entries in both and leaves two texts that one
   * template describes again.
   */
  lemma PassTwin(m: Matcher, tag: string, T: seq<Item>, c1: nat, c2: nat) returns (U: seq<Item>)
    requires Local(m) && Sound(m) && IsTag(tag) && Wf(T)
    ensures Wf(U)
    ensures Render(U, true) == Pass(m, tag, Render(T, true), c1).text
    ensures Render(U, false) == Pass(m, tag, Render(T, false), c2).text
    ensures |Pass(m, tag, Render(T, true), c1).minted| == |Pass(m, tag, Render(T, false), c2).minted|
  {
    ItemMatchesOf(m, T, true);
    ItemMatchesOf(m, T, false);
    U := PassItems(m, tag, T, c1, c2);
  }

  lemma PassItems(m: Matcher, tag: string, T: seq<Item>, c1: nat, c2: nat) returns (U: seq<Item>)
    requires Sound(m) && IsTag(tag) && Wf(T) && ItemMatches(m, T, true) && ItemMatches(m, T, false)
    ensures Wf(U)
    ensures Render(U, true) == Pass(m, tag, Render(T, true), c1).text
    ensures Render(U, false) == Pass(m, tag, Render(T, false), c2).text
    ensures |Pass(m, tag, Render(T, true), c1).minted| == |Pass(m, tag, Render(T, false), c2).minted|
  {
    var ms := MatchesItem(m, T, 0);
    var mint := MintOf(tag);
    PosZero(T, true);
    PosZero(T, false);
    MatchesSide(m, T, 0, true);
    MatchesSide(m, T, 0, false);
    MatchesItemPlain(m, T, 0);
    SideTextSubstitute(T, 0, ms, mint, c1, true);
    SideTextSubstitute(T, 0, ms, mint, c2, false);
    SubstSide(T, 0, ms, mint, c1, c2);
    MintOfMints(tag);
    SubstItemsWf(T, 0, ms, mint, c1, c2);
    U := SubstItems(T, 0, ms, mint, c1, c2);
  }

  /** The i-th fast pass, over both texts of a template, as `PassTwin` describes it. */
  lemma FastPassTwin(i: nat, T: seq<Item>, c1: nat, c2: nat) returns (U: seq<Item>)
    requires i < |PatternOrder| && Wf(T)
    ensures i < |FastPasses| && Wf(U)
    ensures Render(U, true) == FastPasses[i](Render(T, true), c1).text
    ensures Render(U, false) == FastPasses[i](Render(T, false), c2).text
    ensures |FastPasses[i](Render(T, true), c1).minted| == |FastPasses[i](Render(T, false), c2).minted|
  {
    var k := PatternOrder[i];
    FastPassAt(i, Render(T, true), c1);
    FastPassAt(i, Render(T, false), c2);
    MatcherLocal(k);
    MatcherSound(k);
    U := PassTwin(MatcherOf(k), TagOf(k), T, c1, c2);
  }

  /**
   * Running passes in turn over two texts records as many entries in both
   * when the first pass does and the remaining passes do over its outputs.
   */
  lemma SyncWithCount(ps: seq<Passer>, qs: seq<Passer>, t1: string, t2: string, c1: nat, c2: nat, u1: string, u2: string, n: nat)
    requires ps != [] && ps[1..] == qs
    requires ps[0](t1, c1).text == u1 && |ps[0](t1, c1).minted| == n
    requires ps[0](t2, c2).text == u2 && |ps[0](t2, c2).minted| == n
    requires |SyncWith(qs, u1, c1 + n).minted| == |SyncWith(qs, u2, c2 + n).minted|
    ensures |SyncWith(ps, t1, c1).minted| == |SyncWith(ps, t2, c2).minted|
  {
  }

  /**
   * The fast passes from the i-th on, over both texts of a template, each
   * text with its own counter, record as many entries.
   */
  lemma {:induction false} SyncTwin(i: nat, T: seq<Item>, c1: nat, c2: nat)
    requires i <= |PatternOrder| && Wf(T)
    ensures i <= |FastPasses|
    ensures |SyncWith(FastPasses[i..], Render(T, true), c1).minted| == |SyncWith(FastPasses[i..], Render(T, false), c2).minted|
    decreases |PatternOrder| - i
  {
    if i < |PatternOrder| {
      var U := FastPassTwin(i, T, c1, c2);
      var n := |FastPasses[i](Render(T, true), c1).minted|;
      var ps := FastPasses[i..];
      assert ps[0] == FastPasses[i] && ps[1..] == FastPasses[i + 1..];
      SyncTwin(i + 1, U, c1 + n, c2 + n);
      SyncWithCount(ps, FastPasses[i + 1..], Render(T, true), Render(T, false), c1, c2, Render(U, true), Render(U, false), n);
    } else {
      assert FastPasses[i..] == [];
    }
  }

  /** The fast pass records as many entries whatever value the counter starts from. */
  lemma SyncRenumber(t: string, c1: nat, c2: nat)
    ensures |Sync(t, c1).minted| == |Sync(t, c2).minted|
  {
    LitsRender(t);
    SyncTwin(0, Lits(t), c1, c2);
    assert FastPasses[0..] == FastPasses;
  }

  /** So does the fast pass the paste handler runs, deferred or not. */
  lemma FastPassRenumber(t: string, c1: nat, c2: nat)
    ensures |FastPass(t, c1).minted| == |FastPass(t, c2).minted|
  {
    FastPassIsSync(t, c1);
    FastPassIsSync(t, c2);
    SyncRenumber(t, c1, c2);
  }
}
