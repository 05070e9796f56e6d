/**
 * Placeholders `[TYPE_n]` and the texts built from them.
 *
 * A text produced by the pattern pass is a sequence of plain characters
 * (none of them '[') and placeholder tokens. `Tok` recognises such texts,
 * `TokenSet` collects their tokens and `ExpandKeys` puts back, for every token
 * that a dictionary knows, the value the dictionary holds for it. These are
 * the specification-side tools for the round trip between the pattern pass
 * and the observer's reverse substitution.
 */
module Placeholders {
  import opened Text

  /** A placeholder type name: `EMAIL`, `CREDITCARD`, `SSN`, `PER`, `LOC`. */
  predicate IsTag(t: string)
  {
    |t| >= 1 && forall i :: 0 <= i < |t| ==> IsUpper(t[i])
  }

  predicate IsBodyChar(c: char) { IsUpper(c) || IsDigit(c) || c == '_' }

  /**
   * The shape of a placeholder: '[' then an upper-case letter, then upper-case
   * letters, digits and '_', then ']'.
   */
  predicate IsPlaceholder(p: string)
  {
    && |p| >= 3
    && p[0] == '[' && p[|p| - 1] == ']'
    && IsUpper(p[1])
    && forall i :: 1 <= i < |p| - 1 ==> IsBodyChar(p[i])
  }

  /** The placeholder `[${tag}_${n}]` minted for ordinal `n`. */
  function Placeholder(tag: string, n: nat): (p: string)
    requires IsTag(tag)
    ensures IsPlaceholder(p)
    ensures |p| == |tag| + |NatToString(n)| + 3
  {
    "[" + tag + "_" + NatToString(n) + "]"
  }

  /** Two minted placeholders are equal only when their type and ordinal are. */
  lemma PlaceholderInjective(t1: string, n1: nat, t2: string, n2: nat)
    requires IsTag(t1) && IsTag(t2)
    requires Placeholder(t1, n1) == Placeholder(t2, n2)
    ensures t1 == t2 && n1 == n2
  {
    var p := Placeholder(t1, n1);
    var q := Placeholder(t2, n2);
    assert p[1 + |t1|] == '_' && q[1 + |t2|] == '_';
    assert forall j :: 1 <= j < 1 + |t1| ==> p[j] == t1[j - 1];
    assert forall j :: 1 <= j < 1 + |t2| ==> q[j] == t2[j - 1];
    assert |t1| == |t2|;
    assert t1 == p[1..1 + |t1|] == q[1..1 + |t2|] == t2;
    assert NatToString(n1) == p[2 + |t1|..|p| - 1] == q[2 + |t2|..|q| - 1] == NatToString(n2);
    NatToStringInjective(n1, n2);
  }

  /** The first index at or after `i` whose character cannot be inside a placeholder. */
  function BodyEnd(s: string, i: nat): (j: nat)
    requires i <= |s|
    ensures i <= j <= |s|
    ensures forall k :: i <= k < j ==> IsBodyChar(s[k])
    ensures j < |s| ==> !IsBodyChar(s[j])
    decreases |s| - i
  {
    if i < |s| && IsBodyChar(s[i]) then BodyEnd(s, i + 1) else i
  }

  /** The length of the placeholder at the front of `s`, 0 when there is none. */
  function TokenAt(s: string): (n: nat)
    ensures n > 0 ==> n <= |s| && IsPlaceholder(s[..n])
    ensures n == 0 ==> !IsPlaceholder(s)
  {
    if |s| >= 3 && s[0] == '[' && IsUpper(s[1]) then
      var j := BodyEnd(s, 1);
      if j < |s| && s[j] == ']' then j + 1 else 0
    else 0
  }

  /** A placeholder at the front is recognised whatever follows it. */
  lemma TokenAtPlaceholder(p: string, y: string)
    requires IsPlaceholder(p)
    ensures TokenAt(p + y) == |p|
  {
    var s := p + y;
    assert forall k :: 1 <= k < |p| - 1 ==> s[k] == p[k];
    assert s[|p| - 1] == ']';
    var j := BodyEnd(s, 1);
    assert j == |p| - 1;
  }

  /** `s` is plain characters other than '[' and placeholder tokens. */
  predicate Tok(s: string)
    decreases |s|
  {
    if s == [] then true
    else if s[0] != '[' then Tok(s[1..])
    else TokenAt(s) > 0 && Tok(s[TokenAt(s)..])
  }

  /** The placeholder tokens of `s`. */
  function TokenSet(s: string): set<string>
    decreases |s|
  {
    if s == [] then {}
    else if s[0] == '[' && TokenAt(s) > 0 then {s[..TokenAt(s)]} + TokenSet(s[TokenAt(s)..])
    else TokenSet(s[1..])
  }

  /** `s` with every token that `d` knows replaced by its value in `d`. */
  function ExpandKeys(s: string, d: map<string, string>): string
    decreases |s|
  {
    if s == [] then []
    else if s[0] == '[' && TokenAt(s) > 0 then
      var t := s[..TokenAt(s)];
      (if t in d then d[t] else t) + ExpandKeys(s[TokenAt(s)..], d)
    else [s[0]] + ExpandKeys(s[1..], d)
  }

  lemma {:induction false} TokenSetShape(s: string)
    ensures forall t :: t in TokenSet(s) ==> IsPlaceholder(t) && |t| <= |s|
    decreases |s|
  {
    if s == [] {
    } else if s[0] == '[' && TokenAt(s) > 0 {
      TokenSetShape(s[TokenAt(s)..]);
    } else {
      TokenSetShape(s[1..]);
    }
  }

  /** A text without '[' is plain: no tokens, and expansion leaves it as it is. */
  lemma {:induction false} PlainText(x: string, d: map<string, string>)
    requires NoOpenBracket(x)
    ensures Tok(x) && TokenSet(x) == {} && ExpandKeys(x, d) == x
    decreases |x|
  {
    if x != [] {
      PlainText(x[1..], d);
    }
  }

  /** Tokenised texts compose: tokens and expansion of `x + y` are those of `x` and of `y`. */
  lemma TokConcat(x: string, y: string, d: map<string, string>)
    requires Tok(x)
    ensures Tok(x + y) == Tok(y)
    ensures TokenSet(x + y) == TokenSet(x) + TokenSet(y)
    ensures ExpandKeys(x + y, d) == ExpandKeys(x, d) + ExpandKeys(y, d)
  {
    TokConcatTok(x, y);
    TokConcatTokens(x, y);
    TokConcatExpand(x, y, d);
  }

  /**
   * Putting a placeholder `p` where a plain text `v` stood, between a
   * tokenised `u` and the rest: what that does to tokenisation, the token
   * set and expansion, seen from both sides.
   */
  lemma Splice(u: string, v: string, z: string, p: string, w: string, d: map<string, string>)
    requires Tok(u) && NoOpenBracket(v) && IsPlaceholder(p)
    ensures Tok(v + z) == Tok(z) && Tok(u + (v + z)) == Tok(z) && Tok(u + (p + w)) == Tok(w)
    ensures TokenSet(u + (v + z)) == TokenSet(u) + TokenSet(z)
    ensures TokenSet(u + (p + w)) == TokenSet(u) + ({p} + TokenSet(w))
    ensures ExpandKeys(u + (v + z), d) == ExpandKeys(u, d) + (v + ExpandKeys(z, d))
    ensures ExpandKeys(u + (p + w), d) == ExpandKeys(u, d) + ((if p in d then d[p] else p) + ExpandKeys(w, d))
  {
    PlainText(v, d);
    TokConcat(v, z, d);
    TokConcat(u, v + z, d);
    TokenHead(p, w, d);
    TokConcat(u, p + w, d);
  }

  lemma {:induction false} TokConcatTok(x: string, y: string)
    requires Tok(x)
    ensures Tok(x + y) == Tok(y)
    decreases |x|
  {
    if x == [] {
      assert x + y == y;
    } else if x[0] != '[' {
      assert (x + y)[0] == x[0] && (x + y)[1..] == x[1..] + y;
      TokConcatTok(x[1..], y);
    } else {
      var n := TokenAt(x);
      assert x == x[..n] + x[n..];
      TokenAtPlaceholder(x[..n], x[n..] + y);
      assert x + y == x[..n] + (x[n..] + y);
      assert (x + y)[n..] == x[n..] + y;
      TokConcatTok(x[n..], y);
    }
  }

  lemma {:induction false} TokConcatTokens(x: string, y: string)
    requires Tok(x)
    ensures TokenSet(x + y) == TokenSet(x) + TokenSet(y)
    decreases |x|
  {
    if x == [] {
      assert x + y == y;
    } else if x[0] != '[' {
      assert (x + y)[0] == x[0] && (x + y)[1..] == x[1..] + y;
      TokConcatTokens(x[1..], y);
    } else {
      var n := TokenAt(x);
      assert x == x[..n] + x[n..];
      TokenAtPlaceholder(x[..n], x[n..] + y);
      assert x + y == x[..n] + (x[n..] + y);
      assert (x + y)[..n] == x[..n];
      assert (x + y)[n..] == x[n..] + y;
      TokConcatTokens(x[n..], y);
    }
  }

  lemma {:induction false} TokConcatExpand(x: string, y: string, d: map<string, string>)
    requires Tok(x)
    ensures ExpandKeys(x + y, d) == ExpandKeys(x, d) + ExpandKeys(y, d)
    decreases |x|
  {
    if x == [] {
      assert x + y == y;
    } else {
      var n := if x[0] != '[' then 1 else TokenAt(x);
      var t := x[..n];
      var w := x[n..];
      assert x == t + w && x + y == t + (w + y);
      TokConcatExpand(w, y, d);
      var h;
      if x[0] != '[' {
        assert t == [x[0]];
        PlainHead(x[0], w, d);
        PlainHead(x[0], w + y, d);
        h := t;
      } else {
        TokenHead(t, w, d);
        TokenHead(t, w + y, d);
        h := if t in d then d[t] else t;
      }
      assert ExpandKeys(x + y, d) == h + (ExpandKeys(w, d) + ExpandKeys(y, d));
      assert ExpandKeys(x, d) == h + ExpandKeys(w, d);
      ConcatAssoc(h, ExpandKeys(w, d), ExpandKeys(y, d));
    }
  }

  /** Expansion only looks at the entries of the dictionary for tokens that occur. */
  lemma {:induction false} ExpandCongruent(s: string, d1: map<string, string>, d2: map<string, string>)
    requires forall t :: t in TokenSet(s) ==> (t in d1 <==> t in d2) && (t in d1 ==> d1[t] == d2[t])
    ensures ExpandKeys(s, d1) == ExpandKeys(s, d2)
    decreases |s|
  {
    if s == [] {
    } else if s[0] == '[' && TokenAt(s) > 0 {
      ExpandCongruent(s[TokenAt(s)..], d1, d2);
    } else {
      ExpandCongruent(s[1..], d1, d2);
    }
  }

  lemma ExpandEmpty(s: string)
    ensures ExpandKeys(s, map[]) == s
    decreases |s|
  {
    if s != [] {
      if s[0] == '[' && TokenAt(s) > 0 {
        ExpandEmpty(s[TokenAt(s)..]);
        assert s == s[..TokenAt(s)] + s[TokenAt(s)..];
      } else {
        ExpandEmpty(s[1..]);
      }
    }
  }

  /** A placeholder that starts text beginning with another placeholder is that placeholder. */
  lemma PlaceholderPrefixUnique(k: string, t: string, z: string)
    requires IsPlaceholder(k) && IsPlaceholder(t)
    ensures StartsWith(t + z, k) ==> k == t
  {
    if StartsWith(t + z, k) {
      var s := t + z;
      assert forall j :: 1 <= j < |k| - 1 ==> s[j] == k[j] && s[j] != ']';
      assert forall j :: 1 <= j < |t| - 1 ==> s[j] == t[j] && s[j] != ']';
      assert s[|t| - 1] == ']' && s[|k| - 1] == ']';
      assert |k| == |t|;
      assert k == s[..|k|] == t;
    }
  }

  /** `replaceAll` steps over a first character where the pattern does not start. */
  lemma ReplaceAllSkip(s: string, k: string, v: string)
    requires k != [] && |s| >= |k| && !StartsWith(s, k)
    ensures ReplaceAll(s, k, v) == [s[0]] + ReplaceAll(s[1..], k, v)
  {
  }

  /** A first character other than the pattern's own cannot start it. */
  lemma FirstCharMiss(s: string, k: string)
    requires k != [] && |s| >= |k| && s[0] != k[0]
    ensures !StartsWith(s, k)
  {
    assert s[..|k|][0] != k[0];
  }

  /** `replaceAll` of a literal pattern starting with '[' passes over text without '['. */
  lemma {:induction false} ReplaceAllPlainPrefix(a: string, z: string, k: string, v: string)
    requires NoOpenBracket(a) && k != [] && k[0] == '['
    ensures ReplaceAll(a + z, k, v) == a + ReplaceAll(z, k, v)
    decreases |a|
  {
    if a == [] {
      assert a + z == z;
    } else {
      var t := a[1..] + z;
      var r := ReplaceAll(z, k, v);
      assert a == [a[0]] + a[1..];
      ConcatAssoc([a[0]], a[1..], z);
      ConcatAssoc([a[0]], a[1..], r);
      ReplaceAllPlainHead(a[0], t, k, v);
      ReplaceAllPlainPrefix(a[1..], z, k, v);
    }
  }

  /** A character that cannot start the pattern is passed over. */
  lemma ReplaceAllPlainHead(c: char, t: string, k: string, v: string)
    requires k != [] && c != k[0]
    ensures ReplaceAll([c] + t, k, v) == [c] + ReplaceAll(t, k, v)
  {
    var s := [c] + t;
    assert s[1..] == t;
    if |s| < |k| {
      assert ReplaceAll(t, k, v) == t;
    } else {
      FirstCharMiss(s, k);
    }
  }

  lemma PlainHead(c: char, s: string, d: map<string, string>)
    requires c != '['
    ensures Tok([c] + s) == Tok(s) && TokenSet([c] + s) == TokenSet(s)
    ensures ExpandKeys([c] + s, d) == [c] + ExpandKeys(s, d)
  {
    assert ([c] + s)[1..] == s;
  }

  lemma TokenHead(t: string, s: string, d: map<string, string>)
    requires IsPlaceholder(t)
    ensures Tok(t + s) == Tok(s) && TokenSet(t + s) == {t} + TokenSet(s)
    ensures ExpandKeys(t + s, d) == (if t in d then d[t] else t) + ExpandKeys(s, d)
  {
    TokenAtPlaceholder(t, s);
    assert (t + s)[..|t|] == t && (t + s)[|t|..] == s;
  }

  /**
   * On a tokenised text, `replaceAll(k, v)` for a placeholder `k` replaces
   * exactly the tokens equal to `k`, i.e. it is the expansion by `{k: v}`.
   */
  lemma {:induction false} ReplaceAllIsExpansion(x: string, k: string, v: string)
    requires Tok(x) && IsPlaceholder(k)
    ensures ReplaceAll(x, k, v) == ExpandKeys(x, map[k := v])
    decreases |x|
  {
    var d := map[k := v];
    if x == [] {
    } else if |x| < |k| {
      TokenSetShape(x);
      ExpandCongruent(x, d, map[]);
      ExpandEmpty(x);
    } else if x[0] != '[' {
      assert x == [x[0]] + x[1..];
      PlainHead(x[0], x[1..], d);
      ReplaceAllIsExpansion(x[1..], k, v);
      assert x[..|k|][0] != k[0];
    } else {
      var n := TokenAt(x);
      var t := x[..n];
      var rest := x[n..];
      assert x == t + rest;
      TokenHead(t, rest, d);
      ReplaceAllIsExpansion(rest, k, v);
      if t == k {
        assert x[..|k|] == k;
      } else {
        PlaceholderPrefixUnique(k, t, rest);
        ReplaceAllTokenMiss(t, rest, k, v);
      }
    }
  }

  lemma ReplaceAllTokenMiss(t: string, rest: string, k: string, v: string)
    requires IsPlaceholder(t) && IsPlaceholder(k) && t != k
    requires |t + rest| >= |k|
    ensures ReplaceAll(t + rest, k, v) == t + ReplaceAll(rest, k, v)
  {
    var x := t + rest;
    PlaceholderPrefixUnique(k, t, rest);
    ReplaceAllSkip(x, k, v);
    PlaceholderTail(t, rest);
    ReplaceAllPlainPrefix(t[1..], rest, k, v);
    ConcatAssoc([t[0]], t[1..], ReplaceAll(rest, k, v));
  }

  /** A placeholder is '[' followed by text without '['. */
  lemma PlaceholderTail(t: string, rest: string)
    requires IsPlaceholder(t)
    ensures NoOpenBracket(t[1..]) && t == [t[0]] + t[1..]
    ensures (t + rest)[0] == t[0] && (t + rest)[1..] == t[1..] + rest
  {
  }

  /**
   * Expanding first by `{k: v}` and then by `d` (which does not know `k`) is
   * expanding by both at once, provided `v` has no '[' wherever `k` occurs.
   */
  lemma ExpandCompose(c: string, k: string, v: string, d: map<string, string>)
    requires Tok(c) && k !in d
    requires k in TokenSet(c) ==> NoOpenBracket(v)
    ensures Tok(ExpandKeys(c, map[k := v]))
    ensures TokenSet(ExpandKeys(c, map[k := v])) == TokenSet(c) - {k}
    ensures ExpandKeys(ExpandKeys(c, map[k := v]), d) == ExpandKeys(c, d[k := v])
  {
    ExpandOneTokens(c, k, v);
    ExpandOneThen(c, k, v, d);
  }

  /** Expanding one key whose value has no '[' keeps the text tokenised and drops that key's token. */
  lemma {:induction false} ExpandOneTokens(c: string, k: string, v: string)
    requires Tok(c)
    requires k in TokenSet(c) ==> NoOpenBracket(v)
    ensures Tok(ExpandKeys(c, map[k := v]))
    ensures TokenSet(ExpandKeys(c, map[k := v])) == TokenSet(c) - {k}
    decreases |c|
  {
    var a := map[k := v];
    if c == [] {
    } else if c[0] != '[' {
      assert c == [c[0]] + c[1..];
      PlainHead(c[0], c[1..], a);
      ExpandOneTokens(c[1..], k, v);
      PlainHead(c[0], ExpandKeys(c[1..], a), a);
    } else {
      var n := TokenAt(c);
      var t := c[..n];
      var rest := c[n..];
      assert c == t + rest;
      TokenHead(t, rest, a);
      ExpandOneTokens(rest, k, v);
      var w := ExpandKeys(rest, a);
      if t == k {
        PlainText(v, a);
        TokConcat(v, w, a);
      } else {
        TokenHead(t, w, a);
      }
    }
  }

  /** Expanding one key and then `d`, which does not know it, is expanding by `d` with that key added. */
  lemma {:induction false} ExpandOneThen(c: string, k: string, v: string, d: map<string, string>)
    requires Tok(c) && k !in d
    requires k in TokenSet(c) ==> NoOpenBracket(v)
    ensures ExpandKeys(ExpandKeys(c, map[k := v]), d) == ExpandKeys(c, d[k := v])
    decreases |c|
  {
    var a := map[k := v];
    if c == [] {
    } else if c[0] != '[' {
      assert c == [c[0]] + c[1..];
      PlainHead(c[0], c[1..], a);
      PlainHead(c[0], c[1..], d[k := v]);
      ExpandOneThen(c[1..], k, v, d);
      PlainHead(c[0], ExpandKeys(c[1..], a), d);
    } else {
      var n := TokenAt(c);
      var t := c[..n];
      var rest := c[n..];
      assert c == t + rest;
      TokenHead(t, rest, a);
      TokenHead(t, rest, d[k := v]);
      ExpandOneThen(rest, k, v, d);
      var w := ExpandKeys(rest, a);
      if t == k {
        PlainText(v, d);
        TokConcat(v, w, d);
      } else {
        TokenHead(t, w, d);
      }
    }
  }
}
