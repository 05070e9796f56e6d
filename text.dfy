/**
 * Character classes and the string operations the engine relies on:
 * `includes`, `replaceAll` with a literal pattern, a case-insensitive
 * global replace of a literal word, `trim`, and the decimal rendering of
 * the placeholder ordinal. Everything is ASCII: `\d`, `\w` and `\s` are the
 * ASCII classes, and case folding maps only 'A'..'Z' to 'a'..'z'.
 */
module Text {

  /** Concatenation is associative (stated once so that proofs can cite it). */
  lemma ConcatAssoc<T>(a: seq<T>, b: seq<T>, c: seq<T>)
    ensures a + (b + c) == (a + b) + c
  {
  }

  predicate IsDigit(c: char) { '0' <= c <= '9' }
  predicate IsUpper(c: char) { 'A' <= c <= 'Z' }
  predicate IsLower(c: char) { 'a' <= c <= 'z' }
  predicate IsLetter(c: char) { IsUpper(c) || IsLower(c) }
  predicate IsAlnum(c: char) { IsLetter(c) || IsDigit(c) }

  /** The regular-expression class `\w`. */
  predicate IsWordChar(c: char) { IsAlnum(c) || c == '_' }

  /** The ASCII part of `\s`, which is also what `String.prototype.trim` strips. */
  predicate IsSpace(c: char)
  {
    c == ' ' || c == '\t' || c == '\n' || c == '\r' || c == '\U{000B}' || c == '\U{000C}'
  }

  predicate NoOpenBracket(s: string) { forall i :: 0 <= i < |s| ==> s[i] != '[' }
  predicate NoBrackets(s: string) { forall i :: 0 <= i < |s| ==> s[i] != '[' && s[i] != ']' }
  predicate NoDollar(s: string) { forall i :: 0 <= i < |s| ==> s[i] != '$' }

  /**
   * Free of '[', ']' and '$': text that neither the placeholder grammar nor
   * a replacement template gives any special meaning.
   */
  predicate Inert(s: string) { forall i :: 0 <= i < |s| ==> s[i] != '[' && s[i] != ']' && s[i] != '$' }

  predicate StartsWith(s: string, p: string) { |p| <= |s| && s[..|p|] == p }

  /** `s.includes(p)`: some suffix of `s` starts with `p` (the empty pattern is always included). */
  predicate Contains(s: string, p: string)
    decreases |s|
  {
    StartsWith(s, p) || (s != [] && Contains(s[1..], p))
  }

  /**
   * `s.replaceAll(p, v)` for a literal pattern: occurrences are taken left to
   * right without overlap; the empty pattern inserts `v` around every character.
   */
  function ReplaceAll(s: string, p: string, v: string): string
    decreases |s|
  {
    if p == [] then
      (if s == [] then v else v + [s[0]] + ReplaceAll(s[1..], p, v))
    else if |s| < |p| then s
    else if s[..|p|] == p then v + ReplaceAll(s[|p|..], p, v)
    else [s[0]] + ReplaceAll(s[1..], p, v)
  }

  /** A pattern that does not occur is not replaced. */
  lemma {:induction false} ReplaceAllAbsent(s: string, p: string, v: string)
    requires !Contains(s, p)
    ensures ReplaceAll(s, p, v) == s
    decreases |s|
  {
    if |s| >= |p| {
      ReplaceAllAbsent(s[1..], p, v);
    }
  }

  /**
   * The replacement template of `replace` and `replaceAll` when the pattern
   * is a string (so there are no capture groups): "$$" stands for '$', "$&"
   * for the matched text, "$`" for the text before the match and "$'" for the
   * text after it; every other character, '$' included, stands for itself.
   */
  function Template(v: string, matched: string, before: string, after: string): string
    decreases |v|
  {
    if v == [] then []
    else
      var (piece, width) := TemplateHead(v, matched, before, after);
      piece + Template(v[width..], matched, before, after)
  }

  /** What the first one or two characters of a non-empty template stand for, and how many they are. */
  function TemplateHead(v: string, matched: string, before: string, after: string): (r: (string, nat))
    requires v != []
    ensures 1 <= r.1 <= |v|
    ensures v[0] != '$' ==> r == ([v[0]], 1)
  {
    if v[0] == '$' && |v| >= 2 && v[1] == '$' then ("$", 2)
    else if v[0] == '$' && |v| >= 2 && v[1] == '&' then (matched, 2)
    else if v[0] == '$' && |v| >= 2 && v[1] == '`' then (before, 2)
    else if v[0] == '$' && |v| >= 2 && v[1] == '\'' then (after, 2)
    else ([v[0]], 1)
  }

  /** A template without '$' is inserted as it is. */
  lemma {:induction false} TemplateLiteral(v: string, matched: string, before: string, after: string)
    requires NoDollar(v)
    ensures Template(v, matched, before, after) == v
    decreases |v|
  {
    if v != [] {
      TemplateLiteral(v[1..], matched, before, after);
      assert v == [v[0]] + v[1..];
    }
  }

  /**
   * `s.replaceAll(p, v)` as JavaScript does it, on the part `rest` of the text
   * that follows the part `before` already scanned: every occurrence, left
   * to right and without overlap, becomes the template `v` expanded for
   * that occurrence.
   */
  function JsReplaceAllFrom(before: string, rest: string, p: string, v: string): string
    decreases |rest|
  {
    if p == [] then
      Template(v, p, before, rest) + (if rest == [] then [] else [rest[0]] + JsReplaceAllFrom(before + [rest[0]], rest[1..], p, v))
    else if |rest| < |p| then rest
    else if rest[..|p|] == p then Template(v, p, before, rest[|p|..]) + JsReplaceAllFrom(before + p, rest[|p|..], p, v)
    else [rest[0]] + JsReplaceAllFrom(before + [rest[0]], rest[1..], p, v)
  }

  function JsReplaceAll(s: string, p: string, v: string): string
  {
    JsReplaceAllFrom([], s, p, v)
  }

  /** With a replacement value free of '$', JavaScript's `replaceAll` is the literal replacement. */
  lemma {:induction false} JsReplaceAllFromLiteral(before: string, rest: string, p: string, v: string)
    requires NoDollar(v)
    ensures JsReplaceAllFrom(before, rest, p, v) == ReplaceAll(rest, p, v)
    decreases |rest|
  {
    if p == [] {
      TemplateLiteral(v, p, before, rest);
      if rest != [] {
        JsReplaceAllFromLiteral(before + [rest[0]], rest[1..], p, v);
      }
    } else if |rest| >= |p| {
      if rest[..|p|] == p {
        TemplateLiteral(v, p, before, rest[|p|..]);
        JsReplaceAllFromLiteral(before + p, rest[|p|..], p, v);
      } else {
        JsReplaceAllFromLiteral(before + [rest[0]], rest[1..], p, v);
      }
    }
  }

  lemma JsReplaceAllLiteral(s: string, p: string, v: string)
    requires NoDollar(v)
    ensures JsReplaceAll(s, p, v) == ReplaceAll(s, p, v)
  {
    JsReplaceAllFromLiteral([], s, p, v);
  }

  // ---------------------------------------------------------------------
  // Case-insensitive matching (the `i` flag of a regular expression built
  // from an escaped literal word).

  function Lower(c: char): (l: char)
    ensures IsUpper(c) ==> IsLower(l)
    ensures !IsUpper(c) ==> l == c
  {
    if IsUpper(c) then (c as int + 32) as char else c
  }

  predicate EqualsIgnoreCase(a: string, b: string)
  {
    |a| == |b| && forall i :: 0 <= i < |a| ==> Lower(a[i]) == Lower(b[i])
  }

  predicate StartsWithIgnoreCase(s: string, w: string)
  {
    |w| <= |s| && EqualsIgnoreCase(s[..|w|], w)
  }

  predicate ContainsIgnoreCase(s: string, w: string)
    decreases |s|
  {
    StartsWithIgnoreCase(s, w) || (s != [] && ContainsIgnoreCase(s[1..], w))
  }

  /**
   * `s.replace(new RegExp(escape(w), 'gi'), v)`: every leftmost,
   * non-overlapping case-insensitive occurrence of the literal `w` becomes `v`.
   */
  function ReplaceAllIgnoreCase(s: string, w: string, v: string): (r: string)
    requires w != []
    ensures !ContainsIgnoreCase(s, w) ==> r == s
    decreases |s|
  {
    if |s| < |w| then s
    else if StartsWithIgnoreCase(s, w) then v + ReplaceAllIgnoreCase(s[|w|..], w, v)
    else [s[0]] + ReplaceAllIgnoreCase(s[1..], w, v)
  }

  /** A string that begins with '[' and ends with ']', as every placeholder does. */
  predicate Bracketed(v: string)
  {
    |v| >= 2 && v[0] == '[' && v[|v| - 1] == ']'
  }

  lemma LowerIsBracket(c: char)
    ensures Lower(c) == '[' ==> c == '['
    ensures Lower(c) == ']' ==> c == ']'
  {
  }

  lemma {:induction false} ContainsIgnoreCaseLength(s: string, w: string)
    requires ContainsIgnoreCase(s, w)
    ensures |w| <= |s|
    decreases |s|
  {
    if !StartsWithIgnoreCase(s, w) {
      ContainsIgnoreCaseLength(s[1..], w);
    }
  }

  lemma {:induction false} ContainsIgnoreCaseSuffix(s: string, k: nat, w: string)
    requires k <= |s|
    requires !ContainsIgnoreCase(s, w)
    ensures !ContainsIgnoreCase(s[k..], w)
    decreases k
  {
    if k > 0 {
      assert s[1..][k - 1..] == s[k..];
      ContainsIgnoreCaseSuffix(s[1..], k - 1, w);
    }
  }

  /**
   * An occurrence of a bracket-free word in `v + y`, where `v` ends with ']',
   * lies inside `v` or inside `y`: it cannot run across the closing bracket.
   */
  lemma {:induction false} BracketedConcat(v: string, y: string, u: string)
    requires |v| >= 1 && v[|v| - 1] == ']'
    requires u != [] && NoBrackets(u)
    requires ContainsIgnoreCase(v + y, u)
    ensures ContainsIgnoreCase(v, u) || ContainsIgnoreCase(y, u)
    decreases |v|
  {
    if StartsWithIgnoreCase(v + y, u) {
      if |u| <= |v| {
        assert (v + y)[..|u|] == v[..|u|];
        assert StartsWithIgnoreCase(v, u);
      } else {
        assert Lower((v + y)[|v| - 1]) == Lower(u[|v| - 1]);
        LowerIsBracket(u[|v| - 1]);
        assert false;
      }
    } else {
      assert (v + y)[1..] == v[1..] + y;
      if |v| == 1 {
        assert v[1..] + y == y;
      } else {
        BracketedConcat(v[1..], y, u);
      }
    }
  }

  /**
   * Replacing by a text that starts with '[' never makes a word without '['
   * appear at the very front of the result.
   */
  lemma {:induction false} ReplacedPrefix(s: string, w: string, v: string, u: string)
    requires w != [] && v != [] && v[0] == '['
    requires u != [] && NoOpenBracket(u)
    requires StartsWithIgnoreCase(ReplaceAllIgnoreCase(s, w, v), u)
    ensures StartsWithIgnoreCase(s, u)
    decreases |s|
  {
    var r := ReplaceAllIgnoreCase(s, w, v);
    if |s| < |w| {
    } else if StartsWithIgnoreCase(s, w) {
      assert r[0] == '[';
      assert Lower(r[0]) == Lower(u[0]);
      LowerIsBracket(u[0]);
    } else {
      var r1 := ReplaceAllIgnoreCase(s[1..], w, v);
      assert r == [s[0]] + r1;
      if |u| > 1 {
        assert r1[..|u| - 1] == r[1..|u|];
        assert StartsWithIgnoreCase(r1, u[1..]);
        ReplacedPrefix(s[1..], w, v, u[1..]);
        assert s[1..][..|u| - 1] == s[1..|u|];
      }
      assert |u| <= |s|;
      assert forall i :: 0 <= i < |u| ==> Lower(s[i]) == Lower(u[i]) by {
        forall i | 0 <= i < |u| ensures Lower(s[i]) == Lower(u[i]) {
          if i > 0 {
            assert s[1..][..|u| - 1][i - 1] == s[i];
          } else {
            assert r[..|u|][0] == s[0];
          }
        }
      }
    }
  }

  /**
   * After the case-insensitive replacement of `w` by a bracketed `v` that does
   * not itself contain `w`, no case-insensitive occurrence of `w` is left.
   */
  lemma {:induction false} NoOccurrenceAfterReplace(s: string, w: string, v: string)
    requires w != [] && NoBrackets(w)
    requires Bracketed(v) && !ContainsIgnoreCase(v, w)
    ensures !ContainsIgnoreCase(ReplaceAllIgnoreCase(s, w, v), w)
    decreases |s|
  {
    var r := ReplaceAllIgnoreCase(s, w, v);
    if |s| < |w| {
      if ContainsIgnoreCase(r, w) {
        ContainsIgnoreCaseLength(r, w);
      }
    } else if StartsWithIgnoreCase(s, w) {
      var rest := ReplaceAllIgnoreCase(s[|w|..], w, v);
      NoOccurrenceAfterReplace(s[|w|..], w, v);
      if ContainsIgnoreCase(r, w) {
        BracketedConcat(v, rest, w);
      }
    } else {
      var r1 := ReplaceAllIgnoreCase(s[1..], w, v);
      NoOccurrenceAfterReplace(s[1..], w, v);
      assert r[1..] == r1;
      if StartsWithIgnoreCase(r, w) {
        ReplacedPrefix(s, w, v, w);
      }
    }
  }

  /**
   * The case-insensitive replacement of `w` by a bracketed `v` never creates an
   * occurrence of another bracket-free word `u` that was absent and that `v`
   * does not contain.
   */
  lemma {:induction false} ReplacePreservesAbsence(s: string, w: string, v: string, u: string)
    requires w != [] && Bracketed(v)
    requires u != [] && NoBrackets(u) && !ContainsIgnoreCase(v, u)
    requires !ContainsIgnoreCase(s, u)
    ensures !ContainsIgnoreCase(ReplaceAllIgnoreCase(s, w, v), u)
    decreases |s|
  {
    var r := ReplaceAllIgnoreCase(s, w, v);
    if |s| < |w| {
    } else if StartsWithIgnoreCase(s, w) {
      var rest := ReplaceAllIgnoreCase(s[|w|..], w, v);
      ContainsIgnoreCaseSuffix(s, |w|, u);
      ReplacePreservesAbsence(s[|w|..], w, v, u);
      if ContainsIgnoreCase(r, u) {
        BracketedConcat(v, rest, u);
      }
    } else {
      var r1 := ReplaceAllIgnoreCase(s[1..], w, v);
      ReplacePreservesAbsence(s[1..], w, v, u);
      assert r[1..] == r1;
      if StartsWithIgnoreCase(r, u) {
        ReplacedPrefix(s, w, v, u);
      }
    }
  }

  // ---------------------------------------------------------------------
  // trim()

  function TrimStart(s: string): (r: string)
    ensures |r| <= |s| && r == s[|s| - |r|..]
    ensures forall i :: 0 <= i < |s| - |r| ==> IsSpace(s[i])
    ensures r == [] || !IsSpace(r[0])
    decreases |s|
  {
    if s != [] && IsSpace(s[0]) then TrimStart(s[1..]) else s
  }

  function TrimEnd(s: string): (r: string)
    ensures |r| <= |s| && r == s[..|r|]
    ensures forall i :: |r| <= i < |s| ==> IsSpace(s[i])
    ensures r == [] || !IsSpace(r[|r| - 1])
    decreases |s|
  {
    if s != [] && IsSpace(s[|s| - 1]) then TrimEnd(s[..|s| - 1]) else s
  }

  /** `r` stands at offset `i` of `s`, and everything of `s` before and after it is white space. */
  predicate TrimmedAt(s: string, r: string, i: nat)
  {
    && i + |r| <= |s| && s[i..i + |r|] == r
    && (forall j :: 0 <= j < i ==> IsSpace(s[j]))
    && (forall j :: i + |r| <= j < |s| ==> IsSpace(s[j]))
  }

  /** `s.trim()`: the longest middle part of `s` with no leading or trailing white space. */
  function Trim(s: string): (r: string)
    ensures exists i :: TrimmedAt(s, r, i)
    ensures r == [] || (!IsSpace(r[0]) && !IsSpace(r[|r| - 1]))
    ensures (s == [] || (!IsSpace(s[0]) && !IsSpace(s[|s| - 1]))) ==> r == s
  {
    var a := TrimStart(s);
    var r := TrimEnd(a);
    assert TrimmedAt(s, r, |s| - |a|) by {
      assert s[|s| - |a|..|s| - |a| + |r|] == a[..|r|];
    }
    r
  }

  // ---------------------------------------------------------------------
  // Decimal rendering of the ordinal in `[TYPE_n]`.

  function DigitChar(d: nat): (c: char)
    requires d < 10
    ensures IsDigit(c)
  {
    ('0' as int + d) as char
  }

  function NatToString(n: nat): (r: string)
    ensures |r| >= 1 && (|r| == 1 <==> n < 10)
    ensures forall i :: 0 <= i < |r| ==> IsDigit(r[i])
    decreases n
  {
    if n < 10 then [DigitChar(n)] else NatToString(n / 10) + [DigitChar(n % 10)]
  }

  function DigitValue(c: char): nat
    requires IsDigit(c)
  {
    c as int - '0' as int
  }

  /** The number a string of decimal digits spells, most significant digit first. */
  function DecValue(s: string): nat
    requires forall i :: 0 <= i < |s| ==> IsDigit(s[i])
    decreases |s|
  {
    if s == [] then 0 else 10 * DecValue(s[..|s| - 1]) + DigitValue(s[|s| - 1])
  }

  /** The ordinal's rendering spells the ordinal. */
  lemma {:induction false} NatToStringValue(n: nat)
    ensures DecValue(NatToString(n)) == n
    decreases n
  {
    var r := NatToString(n);
    if n < 10 {
      assert r[..0] == [];
    } else {
      assert r[..|r| - 1] == NatToString(n / 10);
      NatToStringValue(n / 10);
    }
  }

  /** Different ordinals render differently, so minted placeholders never collide. */
  lemma NatToStringInjective(a: nat, b: nat)
    requires NatToString(a) == NatToString(b)
    ensures a == b
  {
    NatToStringValue(a);
    NatToStringValue(b);
  }
}
