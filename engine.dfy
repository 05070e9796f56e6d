/**
 * The content script's state and its handlers.
 *
 * `Engine` holds the script's globals: the protection switch, the ordinal
 * counter, the placeholder memory, the re-entrancy guard and the timers.
 * Timers and awaited promises are explicit events: a handler that sets a
 * timer records it in the state, and the environment later calls the
 * method for the timer firing; a handler that awaits the classifier returns
 * a `Pending`, and the environment later resumes it with the reply.
 */
module Engine {
  import opened Wrappers
  import opened Text
  import opened OrderedMap
  import opened Placeholders
  import opened GlobalReplace
  import opened Patterns
  import opened SyncPass
  import opened Observer
  import opened Stitcher
  import opened DeepPass
  import Renumbering

  /** The prompt editor: the element the handlers read and rewrite. */
  class Editor {
    var text: string

    constructor (text: string)
      ensures this.text == text
    {
      this.text := text;
    }
  }

  /** A text node of the page. */
  class TextNode {
    var value: string

    constructor (value: string)
      ensures this.value == value
    {
      this.value := value;
    }
  }

  /**
   * The node a mutation record points the observer at (the parent of a
   * changed text node, or the record's own target): whether it is editable,
   * its tag name, and the text nodes a tree walk from it visits, in
   * document order.
   */
  datatype Target = Target(editable: bool, tagName: string, nodes: seq<TextNode>)

  /** A tree walk visits each text node once. */
  predicate Walked(nodes: seq<TextNode>)
  {
    forall i, j :: 0 <= i < j < |nodes| ==> nodes[i] != nodes[j]
  }

  /**
   * A deep pass waiting for the classifier's reply: the editor to write to,
   * the text the result is compared with, and the fast pass's output the
   * deep pass goes on from. After a typing pause the comparison is with the
   * text read when the timer fired; after a paste, with the fast pass's
   * output that was pasted.
   */
  datatype Pending =
    | AfterPause(editor: Editor?, shown: string, anonymized: string)
    | AfterPaste(editor: Editor?, shown: string, anonymized: string)

  /**
   * What the editor holds after `insertTextUniversally(text)` ran on it with
   * the guard clear: the text, unless the editor already held it up to
   * surrounding whitespace, in which case nothing is written.
   */
  function Written(current: string, text: string): (r: string)
    ensures Trim(r) == Trim(text)
    ensures Trim(current) == Trim(text) ==> r == current
    ensures Trim(current) != Trim(text) ==> r == text
  {
    if Trim(current) == Trim(text) then current else text
  }

  class Engine {
    /** `isProtectionEnabled` */
    var enabled: bool
    /** `localCounter`: the ordinal of the next placeholder. */
    var counter: nat
    /** `memoryMap`: placeholder to real text, in insertion order. */
    var memory: Entries
    /** `isInternalChange`: set while the script writes to the editor itself. */
    var guard: bool
    /** The 100 ms timers that will clear the guard, not yet fired. */
    var releases: nat
    /** `typingTimer`: the pending typing-pause timer, with the editor its callback holds. */
    var typingTimer: Option<Editor>

    /**
     * Starts as the script does: protection on, the counter at 1, nothing
     * remembered, the guard clear and no timer pending.
     */
    constructor ()
      ensures enabled && counter == 1 && memory == []
      ensures !guard && releases == 0 && typingTimer == None
    {
      enabled := true;
      counter := 1;
      memory := [];
      guard := false;
      releases := 0;
      typingTimer := None;
    }

    /**
     * The stored settings arrive: protection is on unless it was stored as
     * `false`, and the memory is the stored one, or empty when none was stored.
     */
    method Load(protection: Option<bool>, stored: Option<Entries>)
      modifies this`enabled, this`memory
      ensures enabled <==> protection != Some(false)
      ensures memory == if stored.Some? then stored.value else []
    {
      enabled := protection != Some(false);
      memory := if stored.Some? then stored.value else [];
    }

    /** `saveToMap`: remembers `realText` under `placeholder`, overwriting an earlier value in place. */
    method SaveToMap(realText: string, placeholder: string)
      modifies this`memory
      ensures memory == Put(old(memory), placeholder, realText)
    {
      memory := Put(memory, placeholder, realText);
    }

    /**
     * `text.replace(pattern, callback)` for one pattern of the fast pass:
     * each match, leftmost first, becomes the placeholder the callback
     * renders from the counter, and the callback remembers the match under
     * it. The output is what `Substitute` describes for the pattern's
     * matches, the counter moves on once per match and the memory takes
     * every recorded entry in order.
     */
    method ReplaceMatches(m: Matcher, mint: Minter, s: string) returns (out: string)
      requires Bounded(m)
      modifies this`counter, this`memory
      ensures var r := Substitute(s, 0, Matches(m, s, 0), mint, old(counter));
        && out == r.text
        && counter == old(counter) + |r.minted|
        && memory == PutAll(old(memory), r.minted)
    {
      var ms := Matches(m, s, 0);
      ghost var whole := Substitute(s, 0, ms, mint, counter);
      ghost var recorded: Entries := [];
      out := [];
      var pos: nat := 0;
      var j := 0;
      assert ms[0..] == ms;
      while j < |ms|
        invariant j <= |ms| && pos <= |s|
        invariant Ordered(ms[j..], pos, |s|)
        invariant out + Substitute(s, pos, ms[j..], mint, counter).text == whole.text
        invariant recorded + Substitute(s, pos, ms[j..], mint, counter).minted == whole.minted
        invariant counter == old(counter) + |recorded|
        invariant memory == PutAll(old(memory), recorded)
        decreases |ms| - j
      {
        ghost var rest, pos0, out0, recorded0, c0 := ms[j..], pos, out, recorded, counter;
        var a, b := ms[j].0, ms[j].1;
        assert rest[0] == (a, b) && rest[1..] == ms[j + 1..];
        ghost var e := (mint(counter), s[a..b]);
        PutAllSnoc(old(memory), recorded, e.0, e.1);
        out := ReplaceOne(s, pos, a, b, mint, out);
        recorded := recorded + [e];
        pos := b;
        j := j + 1;
        SubstituteStep(s, pos0, rest, mint, c0, out0, recorded0, whole, pos, ms[j..], counter, out, recorded);
      }
      assert recorded == whole.minted;
      out := out + s[pos..];
    }

    /**
     * The replace callback for the match `s[a..b]`: renders the placeholder
     * from the counter, moves the counter on, remembers the match under the
     * placeholder, and the output takes the text before the match and the
     * placeholder.
     */
    method ReplaceOne(s: string, pos: nat, a: nat, b: nat, mint: Minter, out: string) returns (out': string)
      requires pos <= a <= b <= |s|
      modifies this`counter, this`memory
      ensures out' == out + (s[pos..a] + mint(old(counter)))
      ensures counter == old(counter) + 1
      ensures memory == Put(old(memory), mint(old(counter)), s[a..b])
    {
      var placeholder := mint(counter);
      counter := counter + 1;
      SaveToMap(s[a..b], placeholder);
      out' := out + (s[pos..a] + placeholder);
    }

    /**
     * `anonymizeTextSync`: the global replaces of the three patterns in
     * declaration order, each over the previous one's output. The result is
     * the fast pass `Sync` with the counter's old value; the counter moves on
     * once per recorded entry and the memory takes them all in order.
     */
    method AnonymizeSync(text: string) returns (anonymized: string)
      modifies this`counter, this`memory
      ensures anonymized == FastPass(text, old(counter)).text
      ensures counter == old(counter) + |FastPass(text, old(counter)).minted|
      ensures memory == PutAll(old(memory), FastPass(text, old(counter)).minted)
    {
      FastPassIsSync(text, counter);
      anonymized := RunPatterns(text);
    }

    /** The loop of `anonymizeTextSync`, proved against `Sync`. */
    method RunPatterns(text: string) returns (anonymized: string)
      modifies this`counter, this`memory
      ensures anonymized == Sync(text, old(counter)).text
      ensures counter == old(counter) + |Sync(text, old(counter)).minted|
      ensures memory == PutAll(old(memory), Sync(text, old(counter)).minted)
    {
      ghost var whole := Sync(text, counter);
      ghost var recorded: Entries := [];
      anonymized := text;
      var k := 0;
      while k < |PatternOrder|
        invariant k <= |PatternOrder|
        invariant SyncWith(FastPasses[k..], anonymized, counter).text == whole.text
        invariant recorded + SyncWith(FastPasses[k..], anonymized, counter).minted == whole.minted
        invariant counter == old(counter) + |recorded|
        invariant memory == PutAll(old(memory), recorded)
        decreases |PatternOrder| - k
      {
        ghost var anonymized0, recorded0, c0 := anonymized, recorded, counter;
        ghost var p := FastPasses[k](anonymized, counter);
        assert FastPasses[k..][0] == FastPasses[k];
        PutAllConcat(old(memory), recorded, p.minted);
        anonymized := RunPattern(k, anonymized);
        recorded := recorded + p.minted;
        k := k + 1;
        assert FastPasses[k - 1..][1..] == FastPasses[k..];
        SyncStep(FastPasses[k - 1..], anonymized0, c0, recorded0, whole, FastPasses[k..], anonymized, counter, recorded);
      }
      assert FastPasses[k..] == [];
      assert recorded + [] == recorded;
    }

    /** The `k`-th pattern's global replace, minting from the counter as it goes. */
    method RunPattern(k: nat, text: string) returns (anonymized: string)
      requires k < |PatternOrder|
      modifies this`counter, this`memory
      ensures k < |FastPasses|
      ensures anonymized == FastPasses[k](text, old(counter)).text
      ensures counter == old(counter) + |FastPasses[k](text, old(counter)).minted|
      ensures memory == PutAll(old(memory), FastPasses[k](text, old(counter)).minted)
    {
      var kind := PatternOrder[k];
      FastPassAt(k, text, counter);
      anonymized := ReplaceMatches(MatcherOf(kind), MintOf(TagOf(kind)), text);
    }

    /**
     * `insertTextUniversally`: does nothing while the guard is set.
     * Otherwise it sets the guard, finds nothing to do when there is no
     * editor or the editor already holds the text up to surrounding
     * whitespace, and else writes the text and dispatches an input event,
     * which the input handler ignores because the guard is set. On every
     * path past the first check (the `finally` block) it schedules the timer
     * that clears the guard.
     */
    method InsertText(editor: Editor?, text: string)
      modifies this, editor
      decreases if guard then 0 else 2
      ensures old(guard) ==> unchanged(this) && (editor != null ==> editor.text == old(editor.text))
      ensures !old(guard) ==> guard && releases == old(releases) + 1
      ensures !old(guard) && editor != null ==> editor.text == Written(old(editor.text), text)
      ensures enabled == old(enabled) && counter == old(counter) && memory == old(memory)
      ensures typingTimer == old(typingTimer)
    {
      if guard {
        return;
      }
      guard := true;
      if editor != null {
        var currentText := editor.text;
        if Trim(currentText) != Trim(text) {
          editor.text := text;
          OnInput(editor);
        }
      }
      releases := releases + 1;
    }

    /**
     * The input handler: ignored while protection is off or the guard is
     * set, and when there is no editor or it is empty. Otherwise the fast
     * pass runs over the editor's text, its output is written back when it
     * differs, and the typing-pause timer is set afresh (an earlier one is
     * cleared, so at most one is pending).
     */
    method OnInput(editor: Editor?)
      modifies this, editor
      decreases if guard then 1 else 5
      ensures !old(enabled) || old(guard) || editor == null || old(editor.text) == [] ==>
        unchanged(this) && (editor != null ==> editor.text == old(editor.text))
      ensures old(enabled) && !old(guard) && editor != null && old(editor.text) != [] ==>
        var s := FastPass(old(editor.text), old(counter));
        && counter == old(counter) + |s.minted|
        && memory == PutAll(old(memory), s.minted)
        && typingTimer == Some(editor)
        && (s.text != old(editor.text) ==> guard && releases == old(releases) + 1 && editor.text == Written(old(editor.text), s.text))
        && (s.text == old(editor.text) ==> !guard && releases == old(releases) && editor.text == old(editor.text))
      ensures enabled == old(enabled)
    {
      if !enabled || guard {
        return;
      }
      if editor == null {
        return;
      }
      if editor.text == [] {
        return;
      }
      ghost var s := Typed(editor);
    }

    /**
     * The input handler past its checks: the fast pass over the editor's
     * text and the typing-pause timer set afresh. The fast pass leaves the
     * timer alone, so setting the timer first gives the same state as the
     * handler's order.
     */
    method Typed(editor: Editor) returns (ghost s: PassResult)
      requires !guard
      modifies this, editor
      decreases 4
      ensures s == FastPass(old(editor.text), old(counter))
      ensures counter == old(counter) + |s.minted|
      ensures memory == PutAll(old(memory), s.minted)
      ensures typingTimer == Some(editor)
      ensures s.text != old(editor.text) ==> guard && releases == old(releases) + 1 && editor.text == Written(old(editor.text), s.text)
      ensures s.text == old(editor.text) ==> !guard && releases == old(releases) && editor.text == old(editor.text)
      ensures enabled == old(enabled)
    {
      var text := editor.text;
      typingTimer := Some(editor);
      s := AnonymizeEditor(editor, text);
    }

    /**
     * The input handler's fast pass over the editor's text `text`: its
     * output is written back through `InsertText` when it differs.
     */
    method AnonymizeEditor(editor: Editor, text: string) returns (ghost s: PassResult)
      requires !guard && editor.text == text
      modifies this, editor
      decreases 3
      ensures s == FastPass(text, old(counter))
      ensures counter == old(counter) + |s.minted|
      ensures memory == PutAll(old(memory), s.minted)
      ensures s.text != text ==> guard && releases == old(releases) + 1 && editor.text == Written(text, s.text)
      ensures s.text == text ==> !guard && releases == old(releases) && editor.text == text
      ensures enabled == old(enabled) && typingTimer == old(typingTimer)
    {
      s := FastPass(text, counter);
      var fastAnon := AnonymizeSync(text);
      assert fastAnon == s.text;
      if fastAnon != text {
        InsertText(editor, fastAnon);
        assert editor.text == Written(text, fastAnon);
      }
    }

    /** One of the 100 ms timers fires and clears the guard. */
    method ReleaseFires()
      requires releases > 0
      modifies this`guard, this`releases
      ensures !guard && releases == old(releases) - 1
    {
      guard := false;
      releases := releases - 1;
    }

    /**
     * The typing-pause timer fires. With the guard set it does nothing.
     * Otherwise it reads the editor and starts `anonymizeTextAsync`: the fast
     * pass runs now, and the deep pass waits for the classifier.
     */
    method PauseFires() returns (k: Option<Pending>)
      requires typingTimer.Some?
      modifies this`typingTimer, this`counter, this`memory
      ensures typingTimer == None
      ensures old(guard) ==> k == None && counter == old(counter) && memory == old(memory)
      ensures !old(guard) ==>
        var editor := old(typingTimer.value);
        var s := FastPass(old(editor.text), old(counter));
        && k == Some(AfterPause(editor, old(editor.text), s.text))
        && counter == old(counter) + |s.minted|
        && memory == PutAll(old(memory), s.minted)
    {
      var editor := typingTimer.value;
      typingTimer := None;
      if guard {
        return None;
      }
      var currentText := editor.text;
      var anonymized := AnonymizeSync(currentText);
      k := Some(AfterPause(editor, currentText, anonymized));
    }

    /**
     * The paste handler: ignored while protection is off or the guard is
     * set, and when the clipboard holds no text. Otherwise the paste is
     * stopped, the fast pass's output is inserted instead, and
     * `anonymizeTextAsync` starts over the original clipboard text, so its
     * own fast pass mints a second set of placeholders.
     */
    method OnPaste(target: Editor?, pasted: Option<string>) returns (prevented: bool, k: Option<Pending>, ghost fast: PassResult, ghost mid: nat, ghost again: PassResult)
      modifies this, target
      ensures prevented <==> old(enabled) && !old(guard) && pasted.Some? && pasted.value != []
      ensures !prevented ==> k == None && unchanged(this) && (target != null ==> target.text == old(target.text))
      ensures prevented ==> fast == FastPass(pasted.value, old(counter)) && mid == old(counter) + |fast.minted|
      ensures prevented ==> again == FastPass(pasted.value, mid)
      ensures prevented ==> k == Some(AfterPaste(target, fast.text, again.text))
      ensures prevented ==> counter == mid + |again.minted|
      ensures prevented ==> |again.minted| == |fast.minted| && counter == old(counter) + 2 * |fast.minted|
      ensures prevented ==> memory == PutAll(PutAll(old(memory), fast.minted), again.minted)
      ensures prevented ==> guard && releases == old(releases) + 1
      ensures prevented ==> target != null ==> target.text == Written(old(target.text), fast.text)
      ensures prevented ==> enabled == old(enabled) && typingTimer == old(typingTimer)
    {
      if !enabled || guard {
        return false, None, PassResult([], []), 0, PassResult([], []);
      }
      if pasted.None? || pasted.value == [] {
        return false, None, PassResult([], []), 0, PassResult([], []);
      }
      prevented := true;
      var pending;
      pending, fast, mid, again := Paste(target, pasted.value);
      k := Some(pending);
    }

    /**
     * The paste handler once it has stopped the paste: the fast pass inserted
     * (`fast`, from the counter at the start), then the fast pass that
     * `anonymizeTextAsync` runs first (`again`, from the counter `mid` the
     * first one left).
     */
    method Paste(target: Editor?, text: string) returns (k: Pending, ghost fast: PassResult, ghost mid: nat, ghost again: PassResult)
      requires !guard
      modifies this, target
      ensures fast == FastPass(text, old(counter)) && mid == old(counter) + |fast.minted|
      ensures again == FastPass(text, mid)
      ensures k == AfterPaste(target, fast.text, again.text)
      ensures counter == mid + |again.minted|
      ensures |again.minted| == |fast.minted| && counter == old(counter) + 2 * |fast.minted|
      ensures memory == PutAll(PutAll(old(memory), fast.minted), again.minted)
      ensures guard && releases == old(releases) + 1
      ensures target != null ==> target.text == Written(old(target.text), fast.text)
      ensures enabled == old(enabled) && typingTimer == old(typingTimer)
    {
      var fastAnon;
      fastAnon, fast := PasteFast(target, text);
      mid := counter;
      again := FastPass(text, counter);
      var anonymized := AnonymizeSync(text);
      k := AfterPaste(target, fastAnon, anonymized);
      Renumbering.FastPassRenumber(text, old(counter), mid);
      assert counter == mid + |again.minted|;
      assert memory == PutAll(PutAll(old(memory), fast.minted), again.minted);
      assert target != null ==> target.text == Written(old(target.text), fast.text);
    }

    /**
     * The synchronous half of the paste handler: the pasted text goes through
     * the fast pass and the result is inserted into the editor, which leaves
     * the guard set until its release fires.
     */
    method PasteFast(target: Editor?, text: string) returns (fastAnon: string, ghost fast: PassResult)
      requires !guard
      modifies this, target
      ensures fast == FastPass(text, old(counter))
      ensures fastAnon == fast.text
      ensures counter == old(counter) + |fast.minted|
      ensures memory == PutAll(old(memory), fast.minted)
      ensures guard && releases == old(releases) + 1
      ensures enabled == old(enabled) && typingTimer == old(typingTimer)
      ensures target != null ==> target.text == Written(old(target.text), fastAnon)
    {
      fast := FastPass(text, counter);
      fastAnon := AnonymizeSync(text);
      InsertText(target, fastAnon);
    }

    /**
     * The rest of `anonymizeTextAsync` once the classifier's reply is in:
     * when it carries entities, they are stitched and each redacted word is
     * replaced, as `DeepResult` describes, with the counter where it stands
     * now; otherwise the fast pass's output is the result.
     */
    method DeepSubstitute(anonymized: string, reply: Reply) returns (out: string)
      modifies this`counter, this`memory
      ensures var d := DeepResult(anonymized, reply, old(counter));
        && out == d.text
        && counter == old(counter) + |d.minted|
        && memory == PutAll(old(memory), d.minted)
    {
      out := anonymized;
      if reply.Response? && reply.entities.Some? {
        var merged := StitchEntities(reply.entities.value);
        ghost var whole := DeepFrom(merged, anonymized, counter);
        ghost var recorded: Entries := [];
        var i := 0;
        assert merged[0..] == merged;
        while i < |merged|
          invariant i <= |merged|
          invariant DeepFrom(merged[i..], out, counter).text == whole.text
          invariant recorded + DeepFrom(merged[i..], out, counter).minted == whole.minted
          invariant counter == old(counter) + |recorded|
          invariant memory == PutAll(old(memory), recorded)
          decreases |merged| - i
        {
          ghost var out0, c0, recorded0, rest0 := out, counter, recorded, merged[i..];
          var m := merged[i];
          out := RedactWord(m, out);
          if Redacts(m) {
            ghost var e := Mint(m, c0);
            PutAllSnoc(old(memory), recorded, e.0, e.1);
            recorded := recorded + [e];
          }
          i := i + 1;
          assert rest0[0] == m && rest0[1..] == merged[i..];
          DeepStep(rest0, out0, c0, recorded0, whole, merged[i..], out, counter, recorded);
        }
        assert merged[i..] == [];
        assert recorded + [] == recorded;
      }
    }

    /**
     * The callback of the deep loop for one stitched word: a word whose
     * label names a person or a place and whose trimmed text is longer than
     * two characters mints the next placeholder, is remembered under it, and
     * every case-insensitive occurrence of it in the text is replaced.
     */
    method RedactWord(entity: Merged, text: string) returns (out: string)
      modifies this`counter, this`memory
      ensures Redacts(entity) ==> var e := Mint(entity, old(counter));
        && out == ReplaceAllIgnoreCase(text, e.1, e.0)
        && counter == old(counter) + 1
        && memory == Put(old(memory), e.0, e.1)
      ensures !Redacts(entity) ==> out == text && counter == old(counter) && memory == old(memory)
    {
      out := text;
      var lbl := entity.tag;
      if Redactable(lbl) {
        var clean := Trim(entity.word);
        if |clean| > 2 {
          var placeholder := Placeholder(TypeOf(lbl), counter);
          counter := counter + 1;
          SaveToMap(clean, placeholder);
          out := ReplaceAllIgnoreCase(out, clean, placeholder);
        }
      }
    }

    /**
     * The awaiting handler resumes with the classifier's reply: the deep
     * pass finishes, and its result is inserted when it differs from the
     * text the handler compares it with.
     */
    method Resume(k: Pending, reply: Reply)
      modifies this, k.editor
      ensures var d := DeepResult(k.anonymized, reply, old(counter));
        && counter == old(counter) + |d.minted|
        && memory == PutAll(old(memory), d.minted)
        && (d.text == k.shown || old(guard) ==>
              guard == old(guard) && releases == old(releases) && (k.editor != null ==> k.editor.text == old(k.editor.text)))
        && (d.text != k.shown && !old(guard) ==>
              guard && releases == old(releases) + 1 && (k.editor != null ==> k.editor.text == Written(old(k.editor.text), d.text)))
      ensures enabled == old(enabled) && typingTimer == old(typingTimer)
    {
      var deep := DeepSubstitute(k.anonymized, reply);
      if deep != k.shown {
        InsertText(k.editor, deep);
      }
    }

    /**
     * The walk over one text node: every remembered placeholder occurring in
     * the value, in insertion order, is replaced by its real text, and the
     * node is written only when something was replaced.
     */
    method RestoreNode(node: TextNode) returns (written: bool)
      modifies node
      ensures var r := Restore(memory, old(node.value)); written == r.changed && node.value == r.text
      ensures (forall i :: 0 <= i < |memory| ==> !Contains(old(node.value), memory[i].0)) ==> !written && node.value == old(node.value)
    {
      var val := node.value;
      var changed := false;
      ghost var whole := Restore(memory, val);
      RestoreUnchanged(ReplaceAll, memory, val);
      if forall i :: 0 <= i < |memory| ==> !Contains(val, memory[i].0) {
        RestoreNothing(ReplaceAll, memory, val);
      }
      var i := 0;
      assert memory[0..] == memory;
      while i < |memory|
        invariant i <= |memory|
        invariant RestoreBy(ReplaceAll, memory[i..], val).text == whole.text
        invariant (changed || RestoreBy(ReplaceAll, memory[i..], val).changed) == whole.changed
        invariant node.value == old(node.value)
        decreases |memory| - i
      {
        ghost var val0, changed0 := val, changed;
        var (placeholder, realText) := memory[i];
        if Contains(val, placeholder) {
          val := ReplaceAll(val, placeholder, realText);
          changed := true;
        }
        i := i + 1;
        assert memory[i - 1..][0] == (placeholder, realText) && memory[i - 1..][1..] == memory[i..];
        RestoreStep(ReplaceAll, memory[i - 1..], val0, changed0, whole, memory[i..], val, changed);
      }
      assert memory[i..] == [];
      assert RestoreBy(ReplaceAll, memory[i..], val) == Restored(val, false);
      if changed {
        node.value := val;
      }
      written := changed;
    }

    /**
     * The observer's work on one mutation record's node: nothing when there
     * is none, or it is editable or a TEXTAREA; otherwise every text node
     * under it is restored, one after another.
     */
    method ObserveTarget(t: Option<Target>) returns (written: seq<bool>)
      requires t.Some? ==> Walked(t.value.nodes)
      modifies set n | t.Some? && n in t.value.nodes
      ensures t.None? || t.value.editable || t.value.tagName == "TEXTAREA" ==> written == []
      ensures t.Some? && (t.value.editable || t.value.tagName == "TEXTAREA") ==>
        forall n :: n in t.value.nodes ==> n.value == old(n.value)
      ensures t.Some? && !t.value.editable && t.value.tagName != "TEXTAREA" ==>
        var ns := t.value.nodes;
        && |written| == |ns|
        && forall j :: 0 <= j < |ns| ==>
          var r := Restore(memory, old(ns[j].value)); written[j] == r.changed && ns[j].value == r.text
    {
      written := [];
      if t.None? || t.value.editable || t.value.tagName == "TEXTAREA" {
        return;
      }
      var ns := t.value.nodes;
      var i := 0;
      while i < |ns|
        invariant i <= |ns| && |written| == i
        invariant forall j :: 0 <= j < i ==>
          var r := Restore(memory, old(ns[j].value)); written[j] == r.changed && ns[j].value == r.text
        invariant forall j :: i <= j < |ns| ==> ns[j].value == old(ns[j].value)
        decreases |ns| - i
      {
        var w := RestoreNode(ns[i]);
        written := written + [w];
        i := i + 1;
      }
    }

    /**
     * The mutation observer's callback: nothing while protection is off or
     * the memory is empty; otherwise each record's node in turn.
     */
    method Observe(records: seq<Option<Target>>) returns (written: seq<seq<bool>>)
      requires forall i :: 0 <= i < |records| && records[i].Some? ==> Walked(records[i].value.nodes)
      modifies set i, n | 0 <= i < |records| && records[i].Some? && n in records[i].value.nodes :: n
      ensures !enabled || memory == [] ==> written == []
      ensures !enabled || memory == [] ==>
        forall i, n :: 0 <= i < |records| && records[i].Some? && n in records[i].value.nodes ==> n.value == old(n.value)
      ensures enabled && memory != [] ==> |written| == |records|
      ensures forall i :: 0 <= i < |written| && (records[i].None? || records[i].value.editable || records[i].value.tagName == "TEXTAREA") ==>
        written[i] == []
    {
      written := [];
      if !enabled || memory == [] {
        return;
      }
      var i := 0;
      while i < |records|
        invariant i <= |records| && |written| == i
        invariant forall j :: 0 <= j < i && (records[j].None? || records[j].value.editable || records[j].value.tagName == "TEXTAREA") ==>
          written[j] == []
        decreases |records| - i
      {
        var w := ObserveTarget(records[i]);
        written := written + [w];
        i := i + 1;
      }
    }
  }
}
