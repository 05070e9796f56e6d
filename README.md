# Data Guardian content script, modelled in Dafny

Data Guardian is a browser extension that keeps sensitive data out of an AI
chat prompt. Its content script watches the prompt editor.

- **Fast pass.** On every paste and every input event, a fast pass of three
  regular expressions runs over the text. The patterns find an e-mail
  address, a card number and a US social security number. Each match is
  replaced by a numbered placeholder such as `[EMAIL_3]`, and the real text
  is remembered under that placeholder in `memoryMap`.
- **Deep pass.** After a paste, and after a pause in typing, the text also
  goes to a named-entity classifier. Its word pieces are stitched back into
  whole words. Every person or place name longer than two characters gets
  a `[PER_n]` or `[LOC_n]` placeholder, replaced case-insensitively
  everywhere.
- **Observer.** A mutation observer puts the real text back into the page
  wherever a remembered placeholder shows up outside the editor.
- **Re-entrancy guard.** `isInternalChange` stops the script from reacting
  to its own writes. A 100 ms timer clears it.

A small helper file keeps a second, independent dictionary from real
values to stand-ins, with add, reverse lookup and clear.

The modules follow the program's structure:

| module | file | what it holds |
|---|---|---|
| `Text` | text.dfy | `includes`, literal `replaceAll`, JavaScript's template-expanding `replaceAll`, the case-insensitive literal replace, `trim`, ordinal rendering |
| `OrderedMap` | ordered_map.dfy | a JavaScript object as an insertion-ordered list of entries: get, set, delete |
| `Placeholders` | placeholders.dfy | the placeholder shape, tokenised text and expansion of placeholders by a dictionary |
| `GlobalReplace` | global_replace.dfy | `String.prototype.replace` with a global pattern and a callback: leftmost matches, then substitution |
| `Patterns` | patterns.dfy | the three fast-pass patterns as matchers |
| `SyncPass` | sync_pass.dfy | `anonymizeTextSync` as a function of the text and the counter |
| `Renumbering` | renumbering.dfy | why the fast pass records as many entries whatever the counter starts from |
| `Stitcher` | stitcher.dfy | the entity-stitching loop |
| `DeepPass` | deep_pass.dfy | the deep loop and `anonymizeTextAsync` as a whole |
| `Observer` | observer.dfy | the observer's reverse substitution and the round trip |
| `Engine` | engine.dfy | the script's globals as a class; its handlers, timers and the awaited classifier reply as methods |
| `AnonymizationMap` | anonymization_map.dfy | the helper dictionary |

Handlers that change state are methods of `Engine.Engine`. Each is proved
against the functions of the modules above. The properties are lemmas
about those functions. The most important ones are:

- `SyncRoundTrip`: for a text without '[', the observer's loop over the
  memory gives back exactly the text the fast pass anonymised. The memory
  need only be keyed by distinct placeholders; what it held before may be
  any text. A text that already holds a placeholder need not come back:
  "[EMAIL_1] a@b.co" at counter 1 is restored as "a@b.co a@b.co".
- `DeepNoOccurrence`: after the deep loop, a redacted word no longer occurs
  in the text, when the word holds no bracket and occurs in none of the
  placeholders minted from it on. Without that condition the word can
  survive inside a placeholder: "Per" occurs in "[PER_5]".
- `SyncRenumber`: the fast pass records as many entries whatever the
  counter starts from, so a paste, which runs it twice, consumes two
  ordinals per match.

## Model

| member | source | states |
|---|---|---|
| Text.NatToString | content.js:38 | the ordinal is rendered as one or more decimal digits, a single digit exactly below ten |
| Text.NatToStringValue | content.js:38 | the digits rendered for the counter read back, in base ten, as the counter itself |
| Text.NatToStringInjective | content.js:38 | different counter values render differently, so placeholders minted from different ordinals never coincide |
| Text.Trim | content.js:75 | `trim()` gives the contiguous middle of the word with only white space cut off either side, starting and ending with no white space, and keeps a word that has none |
| Text.ReplaceAllAbsent | content.js:187-188 | `replaceAll` of a placeholder that does not occur leaves the value unchanged |
| Text.JsReplaceAllLiteral | content.js:188 | JavaScript's `replaceAll`, which expands `$$`, `$&`, `` $` `` and `$'` in the replacement, equals the literal replacement whenever the replacement holds no '$' |
| Text.ReplaceAllIgnoreCase | content.js:79-80 | the `gi` replace of the escaped word leaves a text without a case-insensitive occurrence unchanged |
| Text.NoOccurrenceAfterReplace | content.js:79-80 | after replacing a bracket-free word by a bracketed placeholder that does not contain it, no case-insensitive occurrence of the word is left |
| Text.ReplacePreservesAbsence | content.js:79-80 | that replace never creates an occurrence of another bracket-free word that was absent and is not in the placeholder |
| OrderedMap.Put | content.js:27 | `obj[k] = v`: afterwards `k` maps to `v`, every other key keeps its value, an existing key keeps its position, and a new key is appended at the end |
| OrderedMap.PutAll | content.js:37-42 | a run of `saveToMap` calls keeps keys distinct and leaves the keys it does not assign untouched |
| OrderedMap.PutAllGet | content.js:39 | after assigning entries with pairwise different keys, each key holds the value assigned to it |
| OrderedMap.Remove | anonymizationMap.js:31 | `delete obj[k]`: `k` is gone, every other key keeps its value, and deleting the first key of a dictionary removes exactly the first entry |
| Placeholders.Placeholder | content.js:38 | `[${TYPE}_${n}]` has the placeholder shape ('[', an upper-case letter, then upper-case letters, digits and '_', then ']'), three characters longer than the type and the ordinal together |
| Placeholders.PlaceholderInjective | content.js:77 | two minted placeholders are equal only if their type and ordinal are equal |
| Placeholders.ReplaceAllIsExpansion | content.js:188 | on a text made of plain characters and placeholders, `replaceAll(k, v)` for a placeholder `k` replaces exactly the tokens equal to `k` |
| Placeholders.ExpandCompose | content.js:186-191 | restoring one placeholder and then the others is the same as restoring them all at once, when the restored text has no '[' |
| GlobalReplace.FindFromLeftmost | content.js:37 | the global replace takes the leftmost match: no earlier position from the scan point starts one, and when none is found, no position does |
| GlobalReplace.Matches | content.js:37 | the matches a global replace visits are non-empty, inside the text and left to right without overlap |
| GlobalReplace.MatchesAreMatches | content.js:37 | every visited span is a match of the pattern at its start |
| GlobalReplace.MatchesCover | content.js:37 | no match is missed: every position where the pattern matches lies inside a visited span |
| GlobalReplace.SubstituteMinted | content.js:37-41 | the i-th match becomes the placeholder for ordinal `c + i`, and the callback records exactly the matched text under it |
| GlobalReplace.PassTokens | content.js:37-42 | a pattern pass keeps the text tokenised and adds exactly the placeholders it records |
| GlobalReplace.PassExpand | content.js:37-42 | expanding a pass's output with a dictionary that holds what it recorded gives back its input's expansion |
| Patterns.TagOf | content.js:36-38 | `type.toUpperCase()` for the three keys `email`, `creditCard` and `ssn` is a valid placeholder type |
| Patterns.EmailAt | content.js:9 | the e-mail scanner at `i`: the whole run of local-part characters (at least one), then '@', then the run of domain characters cut back to its last '.' that two letters follow, then every letter after that dot; the match, when there is one, is non-empty and ends inside the text |
| Patterns.CardAt | content.js:10 | the card scanner at `i`: `\b`, four digits, then three groups of four digits, each after a separator that is taken whenever one is present, then `\b`; the match is non-empty and ends inside the text |
| Patterns.SsnAt | content.js:11 | the SSN scanner at `i`: `\b`, three digits, '-', two digits, '-', four digits, `\b`; a match is always eleven characters and ends inside the text |
| Patterns.MatchAt | content.js:8-12 | the pattern table: each key is tried with its own scanner, and any match is non-empty and ends inside the text |
| Patterns.EmailExample | content.js:9 | `a@b.co` matches whole |
| Patterns.EmailBacktrackExample | content.js:9 | in `x@a.bc.d` the domain gives back `.d`, whose top-level part has one letter, so the match is `x@a.bc` |
| Patterns.EmailShortTldExample | content.js:9 | `a@b.c` does not match: the top-level part needs two letters |
| Patterns.CardJoinedExample | content.js:10 | separators are optional: `4111 1111 11111111` matches whole |
| Patterns.CardDoubleSeparatorExample | content.js:10 | at most one separator between groups: `4111--1111-1111-1111` does not match |
| Patterns.CardBoundaryExample | content.js:10 | no match right after a letter: in `x4111 1111 1111 1111` nothing matches at the first digit |
| Patterns.SsnExamples | content.js:11 | `123-45-6789` matches; `123-45-67890` (no word boundary at the end) and `123 45 6789` do not |
| Patterns.RunEndRun | content.js:9-11 | a greedy `+` or `{2,}` run takes every character of its class from where it starts and stops at the first one outside it |
| Patterns.LastTldDotLast | content.js:9 | the greedy domain gives characters back from the right until `\.[a-zA-Z]{2,}` fits: no such dot lies after the one it takes, and when it finds none, there is none |
| Patterns.EmailShape | content.js:9 | an e-mail match is non-empty, made of local-part characters and '@', and contains an '@' |
| Patterns.CardShape | content.js:10 | a card match starts with a digit at a word boundary and holds only digits and separators |
| Patterns.SsnShape | content.js:11 | an SSN match starts with a digit at a word boundary and holds only digits and '-' |
| Patterns.MatchAtShape | content.js:8-12 | a match of any of the three patterns is non-empty and free of '[', ']' and '$' |
| Patterns.MatchOutsideToken | content.js:8-12 | no match starts inside a placeholder already in the text, so earlier placeholders are never rewritten |
| Patterns.MatcherSound | content.js:8-12 | all three patterns are sound matchers: bounded, clean and outside placeholders |
| Patterns.MatcherLocal | content.js:8-12 | each pattern reads at most the character before its start and nothing past the next '[': cutting the text after a '[' or dropping a prefix before that character leaves its matches where they were |
| SyncPass.FastPassAt | content.js:36-37 | the k-th pass of `anonymizeTextSync` is the global replace of the k-th pattern in declaration order |
| SyncPass.FastPassIsSync | content.js:34-45 | the fast pass the handlers' contracts name is `anonymizeTextSync` |
| SyncPass.PassMinted | content.js:37-41 | one pattern pass records, as its i-th entry, the placeholder with ordinal `c + i` for a non-empty, bracket-free match |
| SyncPass.PassOfGood | content.js:36-42 | each of the three pattern passes numbers its entries from the counter, keeps tokenised text tokenised, adds exactly the placeholders it records and can be undone by expansion |
| SyncPass.SyncMinted | content.js:34-45 | across the three passes, the entries carry the ordinals `c`, `c + 1`, ... in order |
| SyncPass.SyncMintedDistinct | content.js:38 | the placeholders one fast pass records are pairwise different |
| SyncPass.SyncUnchanged | content.js:34-45 | a text none of the patterns matches comes back unchanged, and nothing is recorded |
| SyncPass.SyncTok | content.js:34-45 | the fast pass keeps a tokenised text tokenised |
| SyncPass.SyncTokens | content.js:34-45 | the placeholders left in the fast pass's output are exactly those of its input and the ones it recorded |
| SyncPass.SyncExpand | content.js:34-45 | expanding the fast pass's output with any dictionary that holds its entries gives back the input's expansion |
| Renumbering.ItemMatchesOf | content.js:8-12 | in both texts of a template (texts that differ only in the ordinals of some placeholders), a pattern matches at each shared character exactly where `MatchItem` says, ending at the same shared character |
| Renumbering.FindSide | content.js:37 | the leftmost match from any item on, in either text, starts and ends at the items `FindItem` names |
| Renumbering.MatchesSide | content.js:37 | the spans a global replace visits in either text are the item spans `MatchesItem` finds, at that text's positions |
| Renumbering.SideTextSubstitute | content.js:37-41 | replacing those spans in either text gives `SideText`: the text between spans kept, each span the placeholder for the next ordinal |
| Renumbering.SubstSide | content.js:37-41 | the two replaced texts, each from its own counter, are again the two texts of one template, `SubstItems` |
| Renumbering.SubstItemsWf | content.js:38 | the new template's placeholders read as placeholders in both texts |
| Renumbering.PassTwin | content.js:37-42 | one pattern pass over both texts of a template, each with its own counter, records the same number of entries and leaves the two texts of a new template |
| Renumbering.SyncTwin | content.js:36-43 | the remaining pattern passes, over both texts of a template, record the same number of entries |
| Renumbering.SyncRenumber | content.js:34-45 | `anonymizeTextSync` records the same number of entries whatever value `localCounter` starts from |
| Renumbering.FastPassRenumber | content.js:34-45 | the same for the fast pass the handlers' contracts name |
| Stitcher.StitchEntities | content.js:57-70 | the stitching loop computes `Stitch`, the fold of one step per classifier result followed by the final flush |
| Stitcher.StitchWords | content.js:57-70 | the stitched words, run together, are the pieces run together, each continuation without its "##", so nothing is lost or reordered |
| Stitcher.StitchCount | content.js:57-70 | there are never more stitched entities than classifier results |
| Stitcher.StitchNonEmpty | content.js:65-70 | no stitched entity has an empty word |
| Stitcher.Lead | content.js:63 | the number of continuations a run of classifier results starts with: all of them are continuations and the next one is not |
| Stitcher.FoldGroups | content.js:61-70 | from any loop state, the continuations at the head extend the current word, which is flushed with the current tag; the rest is grouped word by word |
| Stitcher.StitchGroups | content.js:57-70 | the stitched entities are exactly the words grouped by the pieces that start them, in order, each tagged with the label of its start piece (untagged for leading continuations), empty words dropped |
| Stitcher.FoldCurTag | content.js:61-68 | after the loop the current tag is the label of the last piece that starts a word, or the initial tag when every piece is a continuation |
| DeepPass.TypeOf | content.js:77 | the placeholder type is PER exactly when the label mentions PER, and the chosen type occurs in a redactable label |
| DeepPass.MintAllAt | content.js:77 | the i-th entry minted for the redacted words is that word's placeholder with ordinal `c + i` |
| DeepPass.DeepMinted | content.js:72-84 | the deep loop records one entry per redacted word, in order, numbered from the counter, each holding the trimmed word |
| DeepPass.DeepMintedDistinct | content.js:77 | the placeholders the deep loop mints are pairwise different |
| DeepPass.DeepRegistered | content.js:78 | every word the deep loop records can be looked up under its placeholder in the memory, whatever the memory held before |
| DeepPass.DeepPreservesAbsence | content.js:79-80 | a bracket-free word absent from the text and from every minted placeholder stays absent through the deep loop |
| DeepPass.DeepNoOccurrence | content.js:72-84 | after the deep loop, no case-insensitive occurrence of a redacted word is left, when the word holds no bracket and occurs in none of the placeholders minted from it on |
| DeepPass.AsyncFallback | content.js:48-87 | when the classifier cannot be reached, fails or returns no entities, `anonymizeTextAsync` returns the fast pass's result |
| Observer.RestoreNothing | content.js:186-192 | a value in which no remembered placeholder occurs is left alone and not marked changed |
| Observer.RestoreUnchanged | content.js:185-192 | a value not marked changed is the value read, so skipping the write loses nothing |
| Observer.RestoreAsWrittenLiteral | content.js:186-191 | the loop as written equals the literal restore whenever no real text holds a '$' |
| Observer.RestoreAsWrittenDollar | content.js:188 | the loop as written turns a remembered "a$$b" into "a$b", where the literal restore gives "a$$b" back |
| Observer.TokenContains | content.js:187 | in a tokenised value, `includes(placeholder)` holds only for the placeholders that occur there as whole tokens |
| Observer.RestoreExpands | content.js:186-191 | on a tokenised value, the entry-by-entry loop is the simultaneous expansion of every placeholder by the memory, when the placeholders occurring there stand for text without '['; the other real texts may hold anything |
| Observer.RestoreAsWrittenFor | content.js:186-191 | on a tokenised value, the loop as written equals the literal one when the real texts of the placeholders occurring there hold no '[' or '$', whatever the other entries hold |
| Observer.KeyedPutAll | content.js:37-42 | storing what a fast pass records (numbered on from a counter, distinct, inert) keeps the memory keyed by distinct placeholders, and every recorded placeholder then stands for text without '[' or '$' |
| Observer.DollarFreePutAll | content.js:37-42 | what a fast pass records adds no '$' to the memory's real texts |
| Observer.SyncRoundTrip | content.js:186-191 | round trip: after the fast pass over a text without '[' stores its entries in a memory keyed by distinct placeholders, restoring the anonymised text gives back the original, whatever real texts the memory held before |
| Observer.SyncRoundTripAsWritten | content.js:186-191 | the same round trip for the loop as written, under the same condition: only the entries just recorded are applied, and they hold no '$' |
| Engine.Written | content.js:102-116 | what `insertTextUniversally` leaves in the editor: the new text, unless the editor already holds it up to surrounding white space |
| Engine.Engine.constructor | content.js:14-18 | the globals start with protection on, the counter at 1, an empty memory, the guard clear and no timer |
| Engine.Engine.Load | content.js:21-24 | protection is on unless stored as `false`; the memory is the stored one, or empty |
| Engine.Engine.SaveToMap | content.js:26-31 | `saveToMap` assigns the real text under the placeholder in the memory |
| Engine.Engine.ReplaceOne | content.js:37-41 | the replace callback mints the placeholder from the counter, advances the counter by one and remembers the match |
| Engine.Engine.ReplaceMatches | content.js:37-42 | one global replace: the output, the counter and the memory are those of `Substitute` over the pattern's leftmost matches |
| Engine.Engine.RunPattern | content.js:37-42 | the k-th pattern's replace with the counter where it stands |
| Engine.Engine.RunPatterns | content.js:36-43 | the loop over the three patterns gives `Sync`'s text; the counter advances by, and the memory takes, everything it records, in order |
| Engine.Engine.AnonymizeSync | content.js:34-45 | `anonymizeTextSync` returns the fast pass's text and records its entries in the memory |
| Engine.Engine.InsertText | content.js:91-125 | ignored while the guard is set; otherwise sets the guard, schedules its release, writes the text unless already there up to white space, and changes neither the counter nor the memory |
| Engine.Engine.OnInput | content.js:145-173 | ignored when protection is off, the guard is set, or there is no editor or no text; otherwise runs the fast pass, writes its output back only when it differs, and restarts the pause timer |
| Engine.Engine.Typed | content.js:156-171 | the input handler past its checks: the fast pass over the editor's text, its write-back, and the pause timer set for this editor |
| Engine.Engine.AnonymizeEditor | content.js:156-160 | the fast pass over the editor's text, written back through `insertTextUniversally` exactly when it differs |
| Engine.Engine.ReleaseFires | content.js:123 | the 100 ms timer clears the guard |
| Engine.Engine.PauseFires | content.js:163-168 | the pause timer does nothing while the guard is set; otherwise it starts `anonymizeTextAsync` on the editor's current text, to be compared with that text |
| Engine.Engine.OnPaste | content.js:128-143 | the paste is stopped exactly when protection is on, the guard is clear and the clipboard holds text; the fast pass's output is inserted, and a second fast pass over the clipboard text starts the deep pass, so every match consumes two ordinals |
| Engine.Engine.Paste | content.js:136-140 | the two fast passes over the pasted text, the second numbered on from where the first left the counter; both record the same number of entries, so the counter advances by twice that number, and both sets of entries go into the memory |
| Engine.Engine.PasteFast | content.js:137-138 | the pasted text's fast pass is inserted, leaving the guard set until its release |
| Engine.Engine.RedactWord | content.js:73-83 | a redacted word mints the next placeholder of its type, is remembered trimmed, and is replaced case-insensitively everywhere; any other word changes nothing |
| Engine.Engine.DeepSubstitute | content.js:56-85 | the deep loop over the stitched reply gives `DeepResult`: its text, with the counter advanced by, and the memory holding, every recorded entry |
| Engine.Engine.Resume | content.js:140-170 | the awaited reply finishes the deep pass; its result is inserted exactly when it differs from the compared text and the guard is clear |
| Engine.Engine.RestoreNode | content.js:183-193 | one text node: its value becomes `Restore` of the memory, and it is written only when some placeholder occurred |
| Engine.Engine.ObserveTarget | content.js:179-194 | an editable or TEXTAREA target, or none, is left alone; otherwise each walked text node is restored in turn |
| Engine.Engine.Observe | content.js:176-196 | nothing while protection is off or the memory is empty, and then no node value changes; otherwise one result per mutation record, empty for skipped targets |
| AnonymizationMap.InitialLookup | anonymizationMap.js:4-8 | the dictionary starts with three distinct keys; `CARD_001` leads back to the card number, and a real value is not a stand-in |
| AnonymizationMap.Store.constructor | anonymizationMap.js:4-8 | the dictionary holds the three declared entries, in order, with distinct keys |
| AnonymizationMap.Store.Add | anonymizationMap.js:11-12 | `addToAnonymizationMap` assigns the stand-in to the real value, keeps every other entry and keeps the keys distinct; the stand-in can then be looked up |
| AnonymizationMap.AddThenDeanonymize | anonymizationMap.js:11-26 | after an add, the reverse lookup of the stand-in finds a key that maps to it, and finds the added real value when no other key had that stand-in |
| AnonymizationMap.FirstKeyFor | anonymizationMap.js:19-26 | the reverse lookup finds a key exactly when some entry has the stand-in, and it finds the first such entry in insertion order |
| AnonymizationMap.Store.Deanonymize | anonymizationMap.js:19-26 | `deanonymize` returns the first key in insertion order whose value is the stand-in, or null, and changes nothing |
| AnonymizationMap.KeyList | anonymizationMap.js:30 | `for (let key in obj)` visits the keys of the entries, one per entry, in order |
| AnonymizationMap.Store.Clear | anonymizationMap.js:29-32 | after deleting every key in turn the dictionary is empty, so no stand-in can be looked up |

## Left out

- Storage is not part of this model: the `chrome.storage.local` writes in `saveToMap`, `addToAnonymizationMap` and `clearAnonymizationMap`. The read at start-up is modelled by `Load`, which takes the stored values as parameters.
- background.js and popup.js are not part of this model. The classifier's answer is a parameter (`DeepPass.Reply`), and so is whether the extension context is still alive.
- The file blocker (drop and click handlers) is left out.
- The DOM is reduced to two classes.
  - `Editor` holds one text, standing for `innerText`, `textContent` or `value`. The `closest` lookups, `focus`, the selection and `execCommand` are reduced to writing that text.
  - A mutation record is reduced to its target node, with the text nodes a tree walk visits.
- Timers and promises are explicit events. `setTimeout` records a pending timer, and the environment later calls `ReleaseFires` or `PauseFires`. An `await` returns a `Pending`, which `Resume` later completes. The delays (100 ms, 1500 ms) and the interleavings the browser allows are not modelled.
- `console.log` and `console.warn` are left out.
- Exceptions inside the handlers are left out. One is modelled: the failed classifier call, `Reply.Failed`.
- Text.Trim: strips only the six ASCII white-space characters. JavaScript's `trim()` also strips U+00A0, U+FEFF, U+2028, U+2029 and the other Unicode spaces, so an editor holding "hello\u00A0" and the text "hello" compare equal in `insertTextUniversally` (content.js:103), while `Engine.Written` rewrites the editor.
- DeepPass.Redacts: `|Trim(e.word)| > 2` counts characters, while `clean.length > 2` (content.js:76) counts UTF-16 code units. A word of two characters outside the Basic Multilingual Plane, such as "𝐀𝐁", is redacted by the script but not by the model.
- There is no general regular-expression engine. The three fast-pass patterns are hand-written matchers.
  - Character classes are ASCII. Case-insensitive matching folds only 'A'..'Z'.
  - `localCounter` is an unbounded natural number. JavaScript numbers lose precision past 2^53.
- AnonymizationMap.FirstKeyFor: walks the keys in insertion order. JavaScript visits integer-like keys (such as "42") first, in ascending order, and the model does not capture that.
- AnonymizationMap.Store.Deanonymize: the same key order as `FirstKeyFor`.
- Engine.Engine.Typed: sets the pause timer before the fast pass, where the handler sets it after. The fast pass never touches the timer (`AnonymizeEditor` ensures this), so the state afterwards is the same.
- Engine.Engine.Observe: states which records are skipped and how many results there are. When it runs, it does not state the node values afterwards, because one text node can sit under the targets of several records and then be restored more than once.
- Engine.Engine.ObserveTarget: requires the walked nodes to be distinct, as a tree walk visits each text node once.
- Engine.Engine.RestoreNode: puts real texts back literally (`Observer.Restore`). The code as written expands them as `replaceAll` templates (`Observer.RestoreAsWritten`); see Findings.

## Findings

| source | as written | input that shows it | evidently intended | confidence | as-written member | corrected member |
|---|---|---|---|---|---|---|
| content.js:188 | `val.replaceAll(placeholder, real)` passes the remembered real text as a replacement string, so `$$`, `$&`, `` $` `` and `$'` in it are expanded | memory `{"[PER_1]": "a$$b"}`, text node value `"[PER_1]"`: the node becomes `"a$b"` | the real text is put back exactly, e.g. `replaceAll(placeholder, () => real)` | not executed | Observer.RestoreAsWrittenDollar | Observer.SyncRoundTrip |
