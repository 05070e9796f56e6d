/**
 * The deep pass of `anonymizeTextAsync`: once the classifier has answered,
 * its entities are stitched into whole words, and every stitched word that
 * names a person or a place is replaced, case-insensitively and everywhere
 * in the fast pass's output, by a fresh placeholder.
 *
 * `DeepFrom` is the loop over the stitched words; `Async` is the whole call
 * (fast pass, then the deep pass, or the fast pass's output alone when the
 * classifier cannot be reached, fails or finds nothing).
 */
module DeepPass {
  import opened Wrappers
  import opened Text
  import opened OrderedMap
  import opened Placeholders
  import opened GlobalReplace
  import opened SyncPass
  import opened Stitcher

  /** `label.includes('PER') || label.includes('LOC')`. */
  predicate Redactable(lbl: string)
  {
    Contains(lbl, "PER") || Contains(lbl, "LOC")
  }

  /**
   * The placeholder type of a label: "PER" when the label mentions a
   * person, even if it also mentions a place, and "LOC" otherwise. The type
   * chosen for a redactable label always occurs in it.
   */
  function TypeOf(lbl: string): (t: string)
    ensures IsTag(t)
    ensures Redactable(lbl) ==> Contains(lbl, t)
    ensures t == "PER" <==> Contains(lbl, "PER")
  {
    if Contains(lbl, "PER") then "PER" else "LOC"
  }

  /**
   * A stitched word is redacted when its label is redactable and its trimmed
   * text is longer than two characters. The stitched entity has no `label`
   * field, so `entity.tag || entity.label || ""` is its tag.
   */
  predicate Redacts(e: Merged)
  {
    Redactable(e.tag) && |Trim(e.word)| > 2
  }

  /** The entry a redacted word records when the counter is at `n`: its placeholder and its trimmed text. */
  function Mint(e: Merged, n: nat): Entry
  {
    (Placeholder(TypeOf(e.tag), n), Trim(e.word))
  }

  /**
   * The deep loop over the stitched words `ms`, with the text at `text` and
   * the counter at `c`: each redacted word mints the next placeholder,
   * records the trimmed word under it and replaces every case-insensitive
   * occurrence of the trimmed word in the text.
   */
  function DeepFrom(ms: seq<Merged>, text: string, c: nat): PassResult
    decreases |ms|
  {
    if ms == [] then PassResult(text, [])
    else if Redacts(ms[0]) then
      var e := Mint(ms[0], c);
      var rest := DeepFrom(ms[1..], ReplaceAllIgnoreCase(text, e.1, e.0), c + 1);
      PassResult(rest.text, [e] + rest.minted)
    else DeepFrom(ms[1..], text, c)
  }

  /**
   * One step of the deep loop, keeping the entries recorded so far: once the
   * first word is handled (redacted or skipped), what is left is the loop
   * over the other words from the new text and counter.
   */
  lemma DeepStep(ms: seq<Merged>, text: string, c: nat, recorded: Entries, whole: PassResult,
                 ms': seq<Merged>, text': string, c': nat, recorded': Entries)
    requires ms != [] && ms' == ms[1..]
    requires DeepFrom(ms, text, c).text == whole.text
    requires recorded + DeepFrom(ms, text, c).minted == whole.minted
    requires Redacts(ms[0]) ==> var e := Mint(ms[0], c);
      text' == ReplaceAllIgnoreCase(text, e.1, e.0) && c' == c + 1 && recorded' == recorded + [e]
    requires !Redacts(ms[0]) ==> text' == text && c' == c && recorded' == recorded
    ensures DeepFrom(ms', text', c').text == whole.text
    ensures recorded' + DeepFrom(ms', text', c').minted == whole.minted
  {
    if Redacts(ms[0]) {
      ConcatAssoc(recorded, [Mint(ms[0], c)], DeepFrom(ms', text', c').minted);
    }
  }

  /** The stitched words that are redacted, in order. */
  function Redacted(ms: seq<Merged>): (r: seq<Merged>)
    ensures |r| <= |ms|
    decreases |ms|
  {
    if ms == [] then []
    else if Redacts(ms[0]) then [ms[0]] + Redacted(ms[1..])
    else Redacted(ms[1..])
  }

  /** `f` applied to each of `r`, with a number counted up from `c`. */
  function Numbered(f: (Merged, nat) -> Entry, r: seq<Merged>, c: nat): (m: Entries)
    ensures |m| == |r|
    decreases |r|
  {
    if r == [] then [] else [f(r[0], c)] + Numbered(f, r[1..], c + 1)
  }

  lemma {:induction false} NumberedAt(f: (Merged, nat) -> Entry, r: seq<Merged>, c: nat, i: nat)
    requires i < |r|
    ensures Numbered(f, r, c)[i] == f(r[i], c + i)
    decreases i
  {
    if i > 0 {
      var rest, d, j := r[1..], c + 1, i - 1;
      NumberedAt(f, rest, d, j);
      assert Numbered(f, r, c)[i] == Numbered(f, rest, d)[j];
      assert rest[j] == r[i] && d + j == c + i;
    }
  }

  /** The entries minted for the words `r`, one each, with ordinals counted from `c`. */
  function MintAll(r: seq<Merged>, c: nat): (m: Entries)
    ensures |m| == |r|
  {
    Numbered(Mint, r, c)
  }

  lemma MintAllAt(r: seq<Merged>, c: nat, i: nat)
    requires i < |r|
    ensures MintAll(r, c)[i] == Mint(r[i], c + i)
  {
    NumberedAt(Mint, r, c, i);
  }

  /**
   * The deep loop records one entry per redacted word, in order: the i-th
   * is the placeholder with ordinal `c + i` and the type of the i-th
   * redacted word's label, standing for that word trimmed. So the counter
   * moves on once per redacted word.
   */
  lemma {:induction false} DeepMinted(ms: seq<Merged>, text: string, c: nat)
    ensures DeepFrom(ms, text, c).minted == MintAll(Redacted(ms), c)
    decreases |ms|
  {
    if ms != [] {
      if Redacts(ms[0]) {
        var e := Mint(ms[0], c);
        DeepMinted(ms[1..], ReplaceAllIgnoreCase(text, e.1, e.0), c + 1);
        assert Redacted(ms)[1..] == Redacted(ms[1..]);
      } else {
        DeepMinted(ms[1..], text, c);
      }
    }
  }

  /** The placeholder a redacted word mints carries the counter's value as its ordinal. */
  lemma MintOrdinal(e: Merged, n: nat)
    ensures KeyWithOrdinal(Mint(e, n).0, n)
  {
    assert IsTag(TypeOf(e.tag));
  }

  /** The i-th entry minted from `c` carries the ordinal `c + i`. */
  lemma MintAllOrdinals(r: seq<Merged>, c: nat)
    ensures OrdinalsFrom(MintAll(r, c), c)
  {
    forall i | 0 <= i < |MintAll(r, c)| ensures KeyWithOrdinal(MintAll(r, c)[i].0, c + i) {
      MintAllAt(r, c, i);
      MintOrdinal(r[i], c + i);
    }
  }

  /** The placeholders the deep loop mints are pairwise different. */
  lemma DeepMintedDistinct(ms: seq<Merged>, text: string, c: nat)
    ensures DistinctKeys(DeepFrom(ms, text, c).minted)
  {
    DeepMinted(ms, text, c);
    MintAllOrdinals(Redacted(ms), c);
    OrdinalKeysDistinct(MintAll(Redacted(ms), c), c);
  }

  /**
   * Every word the deep loop records can be looked up under its placeholder
   * in the memory the entries are assigned into, whatever that memory held.
   */
  lemma DeepRegistered(mem: Entries, ms: seq<Merged>, text: string, c: nat)
    ensures var m := DeepFrom(ms, text, c).minted;
      forall i :: 0 <= i < |m| ==> Get(PutAll(mem, m), m[i].0) == Some(m[i].1)
  {
    DeepMintedDistinct(ms, text, c);
    PutAllGet(mem, DeepFrom(ms, text, c).minted);
  }

  /** No placeholder among the entries `m` contains `u`, ignoring case. */
  ghost predicate Avoids(m: Entries, u: string)
  {
    forall j :: 0 <= j < |m| ==> !ContainsIgnoreCase(m[j].0, u)
  }

  lemma AvoidsCons(e: Entry, m: Entries, u: string)
    requires Avoids([e] + m, u)
    ensures !ContainsIgnoreCase(e.0, u) && Avoids(m, u)
  {
    assert ([e] + m)[0] == e;
    forall j | 0 <= j < |m| ensures !ContainsIgnoreCase(m[j].0, u) {
      assert ([e] + m)[j + 1] == m[j];
    }
  }

  /**
   * A word without brackets that is absent from the text and from every
   * placeholder the loop mints stays absent: each replacement puts in only
   * a placeholder, and the word cannot be formed across its brackets.
   */
  lemma {:induction false} DeepPreservesAbsence(ms: seq<Merged>, text: string, c: nat, u: string)
    requires u != [] && NoBrackets(u) && !ContainsIgnoreCase(text, u)
    requires Avoids(DeepFrom(ms, text, c).minted, u)
    ensures !ContainsIgnoreCase(DeepFrom(ms, text, c).text, u)
    decreases |ms|
  {
    if ms != [] {
      if Redacts(ms[0]) {
        var e := Mint(ms[0], c);
        var t1 := ReplaceAllIgnoreCase(text, e.1, e.0);
        AvoidsCons(e, DeepFrom(ms[1..], t1, c + 1).minted, u);
        ReplacePreservesAbsence(text, e.1, e.0, u);
        DeepPreservesAbsence(ms[1..], t1, c + 1, u);
      } else {
        DeepPreservesAbsence(ms[1..], text, c, u);
      }
    }
  }

  /** A word the loop has just replaced everywhere stays absent to the end. */
  lemma ScrubbedStaysAbsent(ms: seq<Merged>, text: string, e: Entry, c: nat)
    requires e.1 != [] && NoBrackets(e.1) && IsPlaceholder(e.0) && !ContainsIgnoreCase(e.0, e.1)
    requires Avoids(DeepFrom(ms, ReplaceAllIgnoreCase(text, e.1, e.0), c).minted, e.1)
    ensures !ContainsIgnoreCase(DeepFrom(ms, ReplaceAllIgnoreCase(text, e.1, e.0), c).text, e.1)
  {
    NoOccurrenceAfterReplace(text, e.1, e.0);
    DeepPreservesAbsence(ms, ReplaceAllIgnoreCase(text, e.1, e.0), c, e.1);
  }

  /**
   * After the deep loop no case-insensitive occurrence of a recorded word is
   * left in the text, provided the word holds no bracket and does not occur
   * in its own placeholder or in any placeholder minted after it (the word
   * "Per", for one, occurs in "[PER_5]").
   */
  lemma {:induction false} DeepNoOccurrence(ms: seq<Merged>, text: string, c: nat, i: nat)
    requires i < |DeepFrom(ms, text, c).minted|
    requires var m := DeepFrom(ms, text, c).minted;
      NoBrackets(m[i].1) && Avoids(m[i..], m[i].1)
    ensures !ContainsIgnoreCase(DeepFrom(ms, text, c).text, DeepFrom(ms, text, c).minted[i].1)
    decreases |ms|
  {
    if ms != [] {
      if Redacts(ms[0]) {
        var e := Mint(ms[0], c);
        var t1 := ReplaceAllIgnoreCase(text, e.1, e.0);
        var m := DeepFrom(ms, text, c).minted;
        var rest := DeepFrom(ms[1..], t1, c + 1).minted;
        assert m == [e] + rest;
        if i == 0 {
          assert m[0..] == [e] + rest;
          AvoidsCons(e, rest, e.1);
          ScrubbedStaysAbsent(ms[1..], text, e, c + 1);
        } else {
          assert m[i..] == rest[i - 1..] && m[i] == rest[i - 1];
          DeepNoOccurrence(ms[1..], t1, c + 1, i - 1);
        }
      } else {
        DeepNoOccurrence(ms[1..], text, c, i);
      }
    }
  }

  /**
   * How the classifier's answer comes back to `anonymizeTextAsync`: the
   * extension context is gone (`chrome.runtime.id` is missing), the message
   * failed (the call threw or its promise was rejected), or a response
   * arrived, with or without an `entities` list.
   */
  datatype Reply = NoRuntime | Failed | Response(entities: Option<seq<Entity>>)

  /**
   * What the call does after the fast pass produced `anonymized`, with the
   * counter at `c`: the deep loop over the stitched entities when a
   * response carries them, and nothing otherwise.
   */
  function DeepResult(anonymized: string, reply: Reply, c: nat): PassResult
  {
    match reply
    case Response(Some(es)) => DeepFrom(Stitch(es), anonymized, c)
    case _ => PassResult(anonymized, [])
  }

  /** `anonymizeTextAsync(text)` with the counter at `c`: both passes and everything they record. */
  function Async(text: string, reply: Reply, c: nat): (r: PassResult)
  {
    var s := Sync(text, c);
    var d := DeepResult(s.text, reply, c + |s.minted|);
    PassResult(d.text, s.minted + d.minted)
  }

  /**
   * When the classifier cannot be reached, fails, or answers without
   * entities (or with none), the call's result is the fast pass's result.
   */
  lemma AsyncFallback(text: string, reply: Reply, c: nat)
    requires !reply.Response? || reply.entities.None? || reply.entities.value == []
    ensures Async(text, reply, c) == Sync(text, c)
  {
    var s := Sync(text, c);
    assert s.minted + [] == s.minted;
  }
}
