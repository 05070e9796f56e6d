/**
 * The entity stitcher inside `anonymizeTextAsync`: the classifier returns
 * word pieces, and a piece whose word starts with "##" continues the word
 * before it. The loop keeps a current word and tag; a continuation appends
 * to the word (without the "##") and keeps the tag, any other piece flushes
 * the current word when it is not empty and starts a new one with its own
 * label.
 */
module Stitcher {
  import opened Wrappers
  import opened Text

  /** One classifier result: the word piece and its two optional label fields. */
  datatype Entity = Entity(word: string, entityGroup: Option<string>, entity: Option<string>)

  /** A stitched entity. */
  datatype Merged = Merged(word: string, tag: string)

  /** `entity.entity_group || entity.entity || ""`: the first label field that is present and not empty. */
  function Label(e: Entity): string
  {
    if e.entityGroup.Some? && e.entityGroup.value != [] then e.entityGroup.value
    else if e.entity.Some? && e.entity.value != [] then e.entity.value
    else ""
  }

  predicate IsContinuation(e: Entity)
  {
    StartsWith(e.word, "##")
  }

  /**
   * What a piece adds to the text: `word.replace('##', '')` for a
   * continuation, whose first "##" is the leading one, else the word itself.
   */
  function Piece(e: Entity): string
  {
    if IsContinuation(e) then e.word[2..] else e.word
  }

  /** The loop's variables: `merged`, `curWord`, `curTag`. */
  datatype StitchState = StitchState(merged: seq<Merged>, curWord: string, curTag: string)

  const Start := StitchState([], "", "")

  /** `merged` after `if (curWord) merged.push({word: curWord, tag: curTag})`. */
  function Flush(st: StitchState): seq<Merged>
  {
    if st.curWord != [] then st.merged + [Merged(st.curWord, st.curTag)] else st.merged
  }

  /** One iteration of the `forEach` over the classifier's results. */
  function Step(st: StitchState, e: Entity): StitchState
  {
    if IsContinuation(e) then st.(curWord := st.curWord + Piece(e))
    else StitchState(Flush(st), e.word, Label(e))
  }

  /** The loop over `es` from state `st`. */
  function Fold(st: StitchState, es: seq<Entity>): StitchState
    decreases |es|
  {
    if es == [] then st else Fold(Step(st, es[0]), es[1..])
  }

  /** The stitched entities of `es`: the loop from the empty state, then the final flush. */
  function Stitch(es: seq<Entity>): seq<Merged>
  {
    Flush(Fold(Start, es))
  }

  /** The stitching loop itself, over the classifier's results in order. */
  method StitchEntities(es: seq<Entity>) returns (merged: seq<Merged>)
    ensures merged == Stitch(es)
  {
    merged := [];
    var curWord := "";
    var curTag := "";
    var i := 0;
    while i < |es|
      invariant 0 <= i <= |es|
      invariant Fold(StitchState(merged, curWord, curTag), es[i..]) == Fold(Start, es)
    {
      var e := es[i];
      assert es[i..][0] == e && es[i..][1..] == es[i + 1..];
      if StartsWith(e.word, "##") {
        curWord := curWord + e.word[2..];
      } else {
        if curWord != [] {
          merged := merged + [Merged(curWord, curTag)];
        }
        curWord := e.word;
        curTag := Label(e);
      }
      i := i + 1;
    }
    assert es[i..] == [];
    if curWord != [] {
      merged := merged + [Merged(curWord, curTag)];
    }
  }

  /** The words of stitched entities, run together. */
  function Words(ms: seq<Merged>): string
    decreases |ms|
  {
    if ms == [] then [] else ms[0].word + Words(ms[1..])
  }

  /** The pieces of classifier results, run together. */
  function Pieces(es: seq<Entity>): string
    decreases |es|
  {
    if es == [] then [] else Piece(es[0]) + Pieces(es[1..])
  }

  lemma {:induction false} WordsSnoc(ms: seq<Merged>, m: Merged)
    ensures Words(ms + [m]) == Words(ms) + m.word
    decreases |ms|
  {
    if ms == [] {
      assert [m][1..] == [];
    } else {
      assert (ms + [m])[1..] == ms[1..] + [m];
      WordsSnoc(ms[1..], m);
      ConcatAssoc(ms[0].word, Words(ms[1..]), m.word);
    }
  }

  lemma FlushWords(st: StitchState)
    ensures Words(Flush(st)) == Words(st.merged) + st.curWord
  {
    if st.curWord != [] {
      WordsSnoc(st.merged, Merged(st.curWord, st.curTag));
    }
  }

  /** Nothing is lost or reordered: the loop from `st` ends with the words so far, the current word and the pieces. */
  lemma {:induction false} FoldWords(st: StitchState, es: seq<Entity>)
    ensures Words(Flush(Fold(st, es))) == Words(st.merged) + st.curWord + Pieces(es)
    decreases |es|
  {
    if es == [] {
      FlushWords(st);
    } else {
      var st' := Step(st, es[0]);
      FoldWords(st', es[1..]);
      FlushWords(st);
      ConcatAssoc(Words(st.merged), st.curWord, Piece(es[0]));
      ConcatAssoc(Words(st.merged) + st.curWord, Piece(es[0]), Pieces(es[1..]));
    }
  }

  /** The stitched words, run together, are the pieces run together, each continuation without its "##". */
  lemma StitchWords(es: seq<Entity>)
    ensures Words(Stitch(es)) == Pieces(es)
  {
    FoldWords(Start, es);
  }

  /** The loop adds at most one entity per classifier result. */
  lemma {:induction false} FoldCount(st: StitchState, es: seq<Entity>)
    ensures |Flush(Fold(st, es))| <= |st.merged| + (if st.curWord != [] then 1 else 0) + |es|
    decreases |es|
  {
    if es != [] {
      FoldCount(Step(st, es[0]), es[1..]);
    }
  }

  /** There are never more stitched entities than classifier results. */
  lemma StitchCount(es: seq<Entity>)
    ensures |Stitch(es)| <= |es|
  {
    FoldCount(Start, es);
  }

  /** No stitched entity has an empty word. */
  predicate NonEmptyWords(ms: seq<Merged>)
  {
    forall i :: 0 <= i < |ms| ==> ms[i].word != []
  }

  lemma {:induction false} FoldNonEmpty(st: StitchState, es: seq<Entity>)
    requires NonEmptyWords(st.merged)
    ensures NonEmptyWords(Flush(Fold(st, es)))
    decreases |es|
  {
    if es != [] {
      FoldNonEmpty(Step(st, es[0]), es[1..]);
    }
  }

  lemma StitchNonEmpty(es: seq<Entity>)
    ensures NonEmptyWords(Stitch(es))
  {
    FoldNonEmpty(Start, es);
  }

  /** The number of continuations `es` starts with. */
  function Lead(es: seq<Entity>): (n: nat)
    ensures n <= |es|
    ensures forall j :: 0 <= j < n ==> IsContinuation(es[j])
    ensures n < |es| ==> !IsContinuation(es[n])
    decreases |es|
  {
    if es != [] && IsContinuation(es[0]) then 1 + Lead(es[1..]) else 0
  }

  /** A word is kept when it is not empty. */
  function Keep(m: Merged): seq<Merged>
  {
    if m.word != [] then [m] else []
  }

  /**
   * The words of `es`, grouped by the pieces that start them: `es[0]` opens a
   * word, which the continuations right after it extend, and the word takes
   * the label of `es[0]`.
   */
  function Starts(es: seq<Entity>): seq<Merged>
    decreases |es|
  {
    if es == [] then []
    else
      var n := 1 + Lead(es[1..]);
      Keep(Merged(es[0].word + Pieces(es[1..n]), Label(es[0]))) + Starts(es[n..])
  }

  /**
   * What the stitcher is meant to produce: the continuations before the first
   * piece that starts a word form an untagged word; after that, each piece
   * that starts a word, with the continuations that follow it, forms a word
   * tagged with that piece's label; empty words are dropped.
   */
  function Grouped(es: seq<Entity>): seq<Merged>
  {
    var n := Lead(es);
    Keep(Merged(Pieces(es[..n]), "")) + Starts(es[n..])
  }

  lemma PiecesCons(es: seq<Entity>, n: nat)
    requires 0 < n <= |es|
    ensures Pieces(es[..n]) == Piece(es[0]) + Pieces(es[1..n])
  {
    assert es[..n][1..] == es[1..n];
  }

  /**
   * The loop from `st` over `es`: the continuations `es` starts with extend
   * the current word, which is then flushed with the current tag, and the
   * rest is grouped by the pieces that start words.
   */
  lemma {:induction false} FoldGroups(st: StitchState, es: seq<Entity>)
    ensures Flush(Fold(st, es)) == st.merged + Keep(Merged(st.curWord + Pieces(es[..Lead(es)]), st.curTag)) + Starts(es[Lead(es)..])
    decreases |es|
  {
    if es == [] {
      assert st.curWord + [] == st.curWord;
    } else {
      FoldGroups(Step(st, es[0]), es[1..]);
      if IsContinuation(es[0]) {
        GroupsContinue(st, es);
      } else {
        GroupsStart(st, es);
      }
    }
  }

  /** `Fold` from `st` over `es` ends as `FoldGroups` says. */
  ghost predicate FoldsToGroups(st: StitchState, es: seq<Entity>)
  {
    Flush(Fold(st, es)) == st.merged + Keep(Merged(st.curWord + Pieces(es[..Lead(es)]), st.curTag)) + Starts(es[Lead(es)..])
  }

  /** A continuation extends the current word. */
  lemma GroupsContinue(st: StitchState, es: seq<Entity>)
    requires es != [] && IsContinuation(es[0]) && FoldsToGroups(Step(st, es[0]), es[1..])
    ensures FoldsToGroups(st, es)
  {
    var n := Lead(es);
    PiecesCons(es, n);
    assert es[1..][..n - 1] == es[1..n] && es[1..][n - 1..] == es[n..];
    ConcatAssoc(st.curWord, Piece(es[0]), Pieces(es[1..n]));
  }

  /** A piece that starts a word flushes the current word and opens the next group. */
  lemma GroupsStart(st: StitchState, es: seq<Entity>)
    requires es != [] && !IsContinuation(es[0]) && FoldsToGroups(Step(st, es[0]), es[1..])
    ensures FoldsToGroups(st, es)
  {
    var l := Lead(es[1..]);
    var head := Keep(Merged(es[0].word + Pieces(es[1..1 + l]), Label(es[0])));
    var rest := Starts(es[1 + l..]);
    assert es[1..][..l] == es[1..1 + l] && es[1..][l..] == es[1 + l..];
    assert Flush(Fold(st, es)) == Flush(st) + head + rest;
    assert Starts(es) == head + rest;
    FlushKeep(st);
    ConcatAssoc(st.merged + Keep(Merged(st.curWord, st.curTag)), head, rest);
    assert Lead(es) == 0 && es[..0] == [] && es[0..] == es && st.curWord + [] == st.curWord;
  }

  /** The final flush keeps the current word when it is not empty. */
  lemma FlushKeep(st: StitchState)
    ensures Flush(st) == st.merged + Keep(Merged(st.curWord, st.curTag))
  {
    if st.curWord == [] {
      assert st.merged + [] == st.merged;
    }
  }

  /**
   * Continuations never change the tag: each stitched entity carries the
   * label of the piece that started its word, and the words come out in
   * order, empty ones dropped.
   */
  lemma StitchGroups(es: seq<Entity>)
    ensures Stitch(es) == Grouped(es)
  {
    FoldGroups(Start, es);
    assert Start.curWord + Pieces(es[..Lead(es)]) == Pieces(es[..Lead(es)]);
    assert [] + Keep(Merged(Pieces(es[..Lead(es)]), "")) == Keep(Merged(Pieces(es[..Lead(es)]), ""));
  }

  /**
   * After the loop over `es`, the current tag is the label of the last piece
   * of `es` that starts a word, or the tag it had when there is none.
   */
  lemma {:induction false} FoldCurTag(st: StitchState, es: seq<Entity>)
    ensures (forall j :: 0 <= j < |es| ==> IsContinuation(es[j])) ==> Fold(st, es).curTag == st.curTag
    ensures forall j :: 0 <= j < |es| && !IsContinuation(es[j]) && (forall k :: j < k < |es| ==> IsContinuation(es[k])) ==>
      Fold(st, es).curTag == Label(es[j])
    decreases |es|
  {
    if es != [] {
      var st' := Step(st, es[0]);
      FoldCurTag(st', es[1..]);
      assert forall j :: 0 < j < |es| ==> es[1..][j - 1] == es[j];
    }
  }
}
