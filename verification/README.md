# Prompt composer store, modelled in Dafny

This project models the composer core of prompt-store's Pinia store (`src/stores/prompts.js`).
The store keeps a catalog of prompts and an ordered list of composer blocks, each block a copy
of a prompt with its own `composerId`. It also keeps a token map from placeholders such as
`[[NAME]]` to values, and the saved compositions. From these it derives four views:

- the composed document (the block contents joined by a blank line);
- the distinct placeholder tokens of that document, in first-seen order;
- the document with every bound token replaced by its value;
- the prompt list filtered by selected tags and a search query.

Modules, leaves first:

- `Wrappers`: `Option`.
- `Strings`: `join`, `includes`, the decimal rendering of a timestamp, ASCII `toLowerCase`,
  and the whitespace test behind `trim`.
- `Seqs`: `filter`, `findIndex`/`indexOf`, and a `Set` filled in insertion order.
- `TokenScanner`: the `/\[\[([A-Z0-9_]+)\]\]/g` scan of `detectedTokens`.
- `Replace`: `escapeRegex`, and `String.prototype.replace` with a global literal pattern,
  including the `$$`, `$&`, `` $` `` and `$'` replacement patterns of section 22.1.3.19.1
  (GetSubstitution) of ECMA-262.
- `Interpolation`: the token map as an insertion-ordered object, and `interpolatedText` as a
  left fold over its entries.
- `Composer`: blocks, `composedText`, composer ids, and saving and loading compositions.
- `Filters`: `filteredPrompts` and the tag toggle.
- `Store`: the class `PromptStore`, whose fields are the store's state and whose methods are its
  actions. The two getters that loop in the source (`interpolatedText`, `detectedTokens`) are
  methods with `while` loops, proved equal to the recursive definitions above.

Behaviour of the code worth noting, which the model follows:

- `setInterpolationTokens` catches a JSON parse error and only logs it. The map stays unchanged,
  but the error is not reported to the caller.
- `removeFromComposer` removes every block with the given `composerId`, not a single one.
- `reorderComposer` accepts any sequence, with no check that it is a permutation of the blocks.
- An unbound token always stays in the interpolated text when every key of the token map is
  itself a token (`Interpolation.UnboundTokenStillDetected`). `setInterpolationToken` accepts
  any key but `__proto__`, and a key that is not a token, such as `A]]`, can destroy it: `A]]` overlaps the
  token `[[A]]`, and binding it to `x` turns `[[A]]` into `[[x`
  (`Interpolation.NonTokenKeyBreaksToken`).
- `setInterpolationToken('__proto__', v)` stores nothing while the map has no own
  `__proto__` key: the assignment runs the inherited `Object.prototype.__proto__` setter, which
  ignores a string, and Vue's reactive proxy passes the write on unchanged. A map that got an
  own `__proto__` key from `JSON.parse` or a loaded record does take the assignment
  (`Interpolation.Put`).
- The saved record is whatever the server answers. `server.js` stores and returns
  `{ id, ...draft, createdAt }`, with its own `id` and `createdAt`, and the model takes the
  answer to be that record (`Composer.Stored`). Reloading reproduces the composition only
  because the server echoes the draft's blocks and tokens back.

## Model

| member | source | states |
|---|---|---|
| Composer.ComposedText | src/stores/prompts.js:40-44 | no blocks give `""`; one block gives exactly its content; the length is the contents plus two characters for each seam |
| Composer.ComposedTextSnoc | src/stores/prompts.js:40-44 | one more block at the end adds `"\n\n"` and its content at the end (only its content when there were no blocks) |
| Composer.TokenOccursInJoin | src/stores/prompts.js:40-44 | a token occurs in the joined text if and only if it occurs in one of the parts: tokens hold no newline, so none straddles a separator |
| Composer.ComposedTokens | src/stores/prompts.js:57-67 | a token is detected in the document if and only if it is detected in some block's content |
| Composer.ReorderKeepsTokens | src/stores/prompts.js:176-178 | a reordering that is a permutation keeps the set of detected tokens |
| TokenScanner.RunLength | src/stores/prompts.js:58 | the greedy run of `[A-Z0-9_]` from a position: all token characters, and the next character is not one |
| TokenScanner.MatchAt | src/stores/prompts.js:58 | a match anchored at a position is at least 5 characters long and lies inside the text |
| TokenScanner.MatchAtSound | src/stores/prompts.js:58 | what the pattern matches is a token: `[[`, one or more of `A-Z0-9_`, `]]` |
| TokenScanner.MatchAtComplete | src/stores/prompts.js:58 | wherever a token sits, the pattern matches there, and matches exactly that token |
| TokenScanner.NoMatchInsideMatch | src/stores/prompts.js:58 | no match starts strictly inside another match |
| TokenScanner.TokensDoNotOverlap | src/stores/prompts.js:58 | occurrences of two different tokens never overlap |
| TokenScanner.Exec | src/stores/prompts.js:62 | `exec` from `lastIndex` finds the leftmost match at or after it, or reports that none starts anywhere after it |
| TokenScanner.ScanFrom | src/stores/prompts.js:62-64 | everything the `exec` loop collects is a token |
| TokenScanner.ScanFindsEveryOccurrence | src/stores/prompts.js:62-64 | resuming after each match (the scan) yields exactly the token occurrence at each position, in position order |
| TokenScanner.OccurrencesMembers | src/stores/prompts.js:57-67 | the occurrence list holds exactly the tokens that occur from the position on |
| TokenScanner.OccurrencesInTextOrder | src/stores/prompts.js:57-67 | of two listed tokens, the one listed first occurs in the text before the other first does |
| TokenScanner.DetectedTokens | src/stores/prompts.js:57-67 | no duplicates; it holds exactly the tokens occurring in the text; it is the occurrence list de-duplicated in first-seen order; empty text gives `[]` |
| TokenScanner.DetectedTokensInTextOrder | src/stores/prompts.js:57-67 | of two detected tokens, the earlier one occurs first in the text |
| TokenScanner.ScanInvariantStart | src/stores/prompts.js:58-61 | before the loop (empty `Set`, `lastIndex` 0) the scan invariant holds |
| TokenScanner.ScanInvariantAdvance | src/stores/prompts.js:62-64 | a turn that finds a match adds it to the set and resumes strictly further on, keeping the invariant |
| TokenScanner.ScanInvariantEnd | src/stores/prompts.js:62-66 | when `exec` finds nothing, the set holds exactly the detected tokens |
| Store.PromptStore.DetectedTokens | src/stores/prompts.js:57-67 | the `while`/`exec` loop returns `TokenScanner.DetectedTokens` of the composed text |
| Seqs.Dedup | src/stores/prompts.js:59-66 | a `Set` filled in order holds no duplicates and exactly the elements added |
| Seqs.DedupFirstSeenOrder | src/stores/prompts.js:59-66 | `Array.from(set)` lists elements in order of their first addition |
| Seqs.AddAllDedup | src/stores/prompts.js:62-64 | adding more elements to the set continues the same de-duplication |
| Replace.EscapeRegex | src/stores/prompts.js:245-247 | the escaped string is a pattern made only of literal atoms, and it matches exactly the original string |
| Replace.ReplaceEscaped | src/stores/prompts.js:50-51 | replacing through `new RegExp(escapeRegex(token), 'g')` replaces the token as literal text |
| Replace.Expand | src/stores/prompts.js:51 | a replacement value without `$` is inserted as it is |
| Replace.PiecesJoin | src/stores/prompts.js:51 | the pieces between leftmost non-overlapping occurrences, joined with the token, give the text back |
| Replace.ReplaceAllIsJoin | src/stores/prompts.js:51 | with a `$`-free value the result is those pieces joined with the value, and no piece contains the token |
| Replace.ReplaceWithItself | src/stores/prompts.js:51 | replacing a `$`-free token by itself leaves the text unchanged |
| Replace.ReplaceAll | src/stores/prompts.js:51 | a non-empty token that does not occur leaves the text unchanged |
| Replace.ReplaceKeepsOccurrence | src/stores/prompts.js:51 | an occurrence of another string that no occurrence of the token overlaps survives the replacement |
| Replace.ReplaceEmptyToken | src/stores/prompts.js:50-51 | an empty token matches before every character and at the end |
| Interpolation.Put | src/stores/prompts.js:185-187 | after `m[k] = v`, `k` maps to `v`; every other key keeps its value; an existing key keeps its place and a new key goes last; `__proto__` that is not yet an own key leaves the map unchanged |
| Interpolation.InterpolateStep | src/stores/prompts.js:49-52 | each entry replaces its token as literal text, then the rest of the entries are applied |
| Interpolation.InterpolateAppend | src/stores/prompts.js:49-52 | applying two runs of entries one after the other is applying them together |
| Interpolation.Interpolate | src/stores/prompts.js:46-55 | entries whose non-empty tokens do not occur leave the text unchanged; with no entries the result is the composed text |
| Interpolation.UnboundTokenSurvives | src/stores/prompts.js:46-55 | a token with no entry still occurs after interpolation when every key is a token |
| Interpolation.UnboundTokenStillDetected | src/stores/prompts.js:46-67 | an unbound detected token is still detected in the interpolated text |
| Interpolation.NonTokenKeyBreaksToken | src/stores/prompts.js:46-67 | without the all-keys-are-tokens requirement the survival fails: binding the key `A]]` to `x` turns the detected token `[[A]]` into `[[x`, where nothing is detected |
| Interpolation.ShortTextHasNoToken | src/stores/prompts.js:57-67 | text shorter than five characters has no detected token |
| Store.PromptStore.InterpolatedText | src/stores/prompts.js:46-55 | the `for` loop over `Object.entries` returns the fold `Interpolate` of the composed text |
| Strings.DecimalInjective | src/stores/prompts.js:165 | different timestamps render differently |
| Composer.ComposerIdInjective | src/stores/prompts.js:165 | two composer ids are equal if and only if their prompt ids and timestamps are |
| Composer.WithoutComposerId | src/stores/prompts.js:170-174 | exactly the blocks with another `composerId` remain, each as often as before; with no match the list is unchanged |
| Composer.WithoutComposerIdAppend | src/stores/prompts.js:171-173 | the removal works piece by piece, so the surviving blocks keep their relative order |
| Composer.WithoutPromptBlocks | src/stores/prompts.js:133 | exactly the blocks of other prompts remain, each as often as before |
| Composer.WithoutPromptBlocksAppend | src/stores/prompts.js:133 | the remaining blocks keep their relative order |
| Composer.WithoutPrompt | src/stores/prompts.js:132 | exactly the prompts with another id remain, each as often as before |
| Composer.WithoutPromptAppend | src/stores/prompts.js:132 | the remaining prompts keep their relative order |
| Composer.MergeIntoFirstBlock | src/stores/prompts.js:118-121 | only the first block of the prompt changes: it takes the server's fields and keeps its `composerId` |
| Composer.ReplaceFirstPrompt | src/stores/prompts.js:113-116 | only the first prompt with the id is replaced, and only when there is one |
| Composer.FindPrompt | src/stores/prompts.js:219 | `find` gives the first prompt with the id, or nothing exactly when no prompt has it |
| Composer.Resolve | src/stores/prompts.js:218-220 | no more prompts than ids, each a catalog prompt under one of the ids |
| Composer.ResolveKeepsKnownIds | src/stores/prompts.js:218-220 | map-find-filter keeps exactly the ids the catalog knows, in their order |
| Composer.ResolveFindsCatalogPrompts | src/stores/prompts.js:218-220 | each resolved prompt is the catalog's first prompt with its id |
| Composer.LoadedBlocks | src/stores/prompts.js:217-224 | no more blocks than stored ids; their ids are the stored ids the catalog knows, in order; each block is the catalog's prompt with the composer id from its own clock reading |
| Composer.LoadedComposerIds | src/stores/prompts.js:221 | two loaded blocks share a composer id exactly when they are the same prompt stamped at the same reading, so duplicates are possible |
| Composer.ReloadedBlocks | src/stores/prompts.js:217-224 | reloading the prompt ids of blocks whose prompts the catalog still holds with the same content gives blocks with the same ids and contents |
| Composer.SaveLoadRoundTrip | src/stores/prompts.js:199-224 | saving and loading against a catalog that still holds every block's prompt with the same content gives the same prompt ids, the same document and the same token map |
| Filters.FilteredKeepsOrder | src/stores/prompts.js:18-38 | the tag filter then the text filter is one order-keeping filter by "passes both" |
| Filters.FilteredMembers | src/stores/prompts.js:18-38 | a prompt is listed if and only if it is in the catalog and passes both filters, as often as in the catalog |
| Filters.ClearedFiltersListAll | src/stores/prompts.js:239-242 | with no tags selected and an empty query every prompt is listed |
| Filters.Toggle | src/stores/prompts.js:230-237 | a tag not selected is pushed; otherwise its first occurrence is spliced out; other tags keep their counts |
| Filters.ToggleFlips | src/stores/prompts.js:230-237 | on a list without repeats, toggling flips whether the tag is selected and keeps the list free of repeats |
| Filters.ToggleTwice | src/stores/prompts.js:230-237 | toggling an unselected tag twice restores the list |
| Store.PromptStore.constructor | src/stores/prompts.js:7-15 | every list starts empty, the token map `{}` and the query `''` |
| Store.PromptStore.LoadPrompts | src/stores/prompts.js:70-81 | the fetched list becomes the catalog |
| Store.PromptStore.AddToComposer | src/stores/prompts.js:161-168 | exactly one block is added at the end, a copy of the prompt with `composerId` = id + `-` + timestamp; the document gains a blank line and the content |
| Store.PromptStore.RemoveFromComposer | src/stores/prompts.js:170-174 | the blocks become `WithoutComposerId` of the old blocks, so the others stay in their relative order |
| Store.PromptStore.ReorderComposer | src/stores/prompts.js:176-178 | the given sequence replaces the blocks as it is |
| Store.PromptStore.ClearComposer | src/stores/prompts.js:180-183 | no blocks and no bindings, so the document is `""` and no tokens are detected |
| Store.PromptStore.SetInterpolationToken | src/stores/prompts.js:185-187 | the map becomes `Put` of the old map: the key is bound, except `__proto__` when it is not already an own key |
| Store.PromptStore.SetInterpolationTokens | src/stores/prompts.js:189-197 | an object replaces the map; text replaces it when it parses and leaves it unchanged when it does not |
| Store.PromptStore.SaveCurrentComposition | src/stores/prompts.js:199-215 | the draft holds the blocks' prompt ids in composer order and the token map; the server's record is appended on success; nothing changes on failure |
| Store.PromptStore.LoadComposition | src/stores/prompts.js:217-224 | the blocks become `LoadedBlocks` of the record's ids; the token map becomes the record's, or `{}` when it has none |
| Store.PromptStore.UpdatePrompt | src/stores/prompts.js:110-127 | on the server's answer the first prompt is replaced and the first block merged; on failure nothing changes |
| Store.PromptStore.DeletePrompt | src/stores/prompts.js:129-138 | on success the prompt and every block of it go, the rest in their relative order; on failure nothing changes |
| Store.PromptStore.SetSearchQuery | src/stores/prompts.js:226-228 | the query is set |
| Store.PromptStore.ToggleTagFilter | src/stores/prompts.js:230-237 | the selected tags become `Toggle` of the old ones; tags without repeats stay without repeats, and the tag's selection flips |
| Store.PromptStore.ClearFilters | src/stores/prompts.js:239-242 | the query and the tags are cleared, and the filtered list is the whole catalog |

## Left out

- Storage calls (`storageService`), `async`/`await` and Vue/Pinia reactivity are left out.
  Each server answer is an input: the fetched list, an `Option<Prompt>`, an accepted flag, or
  a `SaveOutcome`. Getters are functions or methods of the fields.
- `Date.now()` and `new Date().toISOString()` are parameters. `loadComposition` takes a clock
  `nat -> nat` that is read once per loaded block.
- `JSON.parse` is a parameter `string -> Option<TokenMap>`. A string that parses to something
  other than a plain object (a number, `null`, an array) is not modelled. The source would store
  it as the token map.
- Interpolation.TokenMap: JavaScript lists integer-like keys first, in numeric order. The model
  keeps every key in insertion order. Token keys of the form `[[...]]` are never integer-like.
- Store.PromptStore.LoadComposition: the store's token map becomes the record's own `tokens`
  object, so a later `setInterpolationToken` also edits that saved record, and reloading it
  gives the edited map. The model copies the map and leaves `compositions` unchanged. The same
  sharing with the caller's object or array in `setInterpolationTokens` (an object argument)
  and `reorderComposer` is not modelled either.
- Strings.Lower lower-cases ASCII letters only. The source's `toLowerCase` is full Unicode.
  Strings are sequences of characters, not UTF-16 code units.
- Composer.Prompt: a missing `tags` field is modelled as an empty list, which the tag filter
  treats the same way. `title` is optional.
- `isLoading`, `error` and its messages, `console.error` logging, and the rethrowing of
  server errors are left out. A failure is an input that leaves the state unchanged.
- `loadTags`, `loadCompositions`, `addPrompt`, `addTag`, `deleteTag` and the `tags` list are
  not part of this model. They only store server answers and do not touch the composer.
- `src/services/storage.js`, `server.js` and the router are not part of this model, except
  that Composer.Stored takes the server's saved record to be `{ id, ...draft, createdAt }`.
- Replace.ReplaceAllIsJoin: stated for values without `$` only. A value with `$` goes through
  the `$`-pattern expansion (`Replace.Expand`), but no join form is proved for it.
- Replace.ReplaceEmptyToken: stated for values without `$` only, for the same reason.
