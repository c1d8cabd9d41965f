/** The store's state and its actions: the prompt catalog, the saved compositions, the
    composer, the token map and the filter inputs, updated in place. */
module Store {
  import opened Wrappers
  import opened Seqs
  import TokenScanner
  import opened Replace
  import opened Interpolation
  import opened Composer
  import opened Filters

  /** What `setInterpolationTokens` is given: JSON text, or an object used as it is. */
  datatype TokensInput = Json(text: string) | Object(tokens: TokenMap)

  /** The server's answer to `saveComposition`: the id and creation time it assigned, or a
      rejected request. */
  datatype SaveOutcome = Saved(id: string, createdAt: string) | SaveFailed

  class PromptStore {
    var prompts: seq<Prompt>
    var compositions: seq<Composition>
    var composerBlocks: seq<Block>
    var interpolationTokens: TokenMap
    var searchQuery: string
    var selectedTags: seq<string>

    /** Every list empty, the token map `{}`, the query `''`. */
    constructor ()
      ensures prompts == [] && compositions == [] && composerBlocks == []
      ensures interpolationTokens == [] && searchQuery == "" && selectedTags == []
    {
      prompts, compositions, composerBlocks := [], [], [];
      interpolationTokens, searchQuery, selectedTags := [], "", [];
    }

    /** `loadPrompts`: the fetched list becomes the catalog. */
    method LoadPrompts(fetched: seq<Prompt>)
      modifies this`prompts
      ensures prompts == fetched
    {
      prompts := fetched;
    }

    /** The `composedText` getter. */
    function Composed(): string
      reads this
    {
      ComposedText(composerBlocks)
    }

    /** The `filteredPrompts` getter. */
    function Filtered(): seq<Prompt>
      reads this
    {
      FilteredPrompts(prompts, selectedTags, searchQuery)
    }

    /** The `interpolatedText` getter: each entry of the token map, in insertion order,
        replaces its token in the running text through the escaped regular expression. */
    method InterpolatedText() returns (text: string)
      ensures text == Interpolate(Composed(), interpolationTokens)
    {
      var entries := interpolationTokens;
      text := Composed();
      var i := 0;
      while i < |entries|
        invariant i <= |entries|
        invariant Interpolate(text, entries[i..]) == Interpolate(Composed(), entries)
      {
        var token, value := entries[i].token, entries[i].value;
        ReplaceEscaped(text, token, value);
        InterpolateStep(text, entries[i..]);
        assert entries[i..][1..] == entries[i + 1..];
        text := ReplaceRegex(text, EscapeRegex(token), value);
        i := i + 1;
      }
    }

    /** The `detectedTokens` getter: `exec` resumes after each match and every match is
        added to an insertion-ordered set. */
    method DetectedTokens() returns (tokens: seq<string>)
      ensures tokens == TokenScanner.DetectedTokens(Composed())
    {
      var s := Composed();
      var p: nat := 0;
      tokens := [];
      TokenScanner.ScanInvariantStart(s);
      while TokenScanner.Exec(s, p).Some?
        invariant TokenScanner.ScanInvariant(s, tokens, p)
        decreases |s| - p
      {
        var m := TokenScanner.Exec(s, p).value;
        TokenScanner.ScanInvariantAdvance(s, tokens, p, m);
        tokens := Add(tokens, s[m.index..m.End()]);
        p := m.End();
      }
      TokenScanner.ScanInvariantEnd(s, tokens, p);
    }

    /** `addToComposer`: a copy of the prompt with a fresh composer id goes at the end. */
    method AddToComposer(p: Prompt, now: nat)
      modifies this`composerBlocks
      ensures composerBlocks == old(composerBlocks) + [NewBlock(p, now)]
      ensures Composed() == if old(composerBlocks) == [] then p.content else old(Composed()) + "\n\n" + p.content
    {
      ComposedTextSnoc(composerBlocks, NewBlock(p, now));
      composerBlocks := composerBlocks + [NewBlock(p, now)];
    }

    /** `removeFromComposer`. */
    method RemoveFromComposer(composerId: string)
      modifies this`composerBlocks
      ensures composerBlocks == WithoutComposerId(old(composerBlocks), composerId)
    {
      composerBlocks := WithoutComposerId(composerBlocks, composerId);
    }

    /** `reorderComposer`: the given list is taken as it is, with no check that it is a
        permutation of the blocks. */
    method ReorderComposer(newOrder: seq<Block>)
      modifies this`composerBlocks
      ensures composerBlocks == newOrder
    {
      composerBlocks := newOrder;
    }

    /** `clearComposer`: no blocks and no bindings, so nothing to compose or detect. */
    method ClearComposer()
      modifies this`composerBlocks, this`interpolationTokens
      ensures composerBlocks == [] && interpolationTokens == []
      ensures Composed() == "" && TokenScanner.DetectedTokens(Composed()) == []
    {
      composerBlocks := [];
      interpolationTokens := [];
    }

    /** `setInterpolationToken`: one key is bound, the others keep their values (see `Put`
        for `__proto__`). */
    method SetInterpolationToken(token: string, value: string)
      modifies this`interpolationTokens
      ensures interpolationTokens == Put(old(interpolationTokens), token, value)
    {
      interpolationTokens := Put(interpolationTokens, token, value);
    }

    /** `setInterpolationTokens`: an object replaces the map; text replaces it when `parse`
        accepts it and leaves it as it was otherwise. */
    method SetInterpolationTokens(input: TokensInput, parse: string -> Option<TokenMap>)
      modifies this`interpolationTokens
      ensures input.Object? ==> interpolationTokens == input.tokens
      ensures input.Json? ==> interpolationTokens == parse(input.text).GetOr(old(interpolationTokens))
    {
      match input
      case Object(m) =>
        interpolationTokens := m;
      case Json(text) =>
        var parsed := parse(text);
        if parsed.Some? {
          interpolationTokens := parsed.value;
        }
    }

    /** `saveCurrentComposition`: the draft holds the blocks' prompt ids in composer order;
        the stored record is appended only when the server accepts it. */
    method SaveCurrentComposition(name: string, now: string, outcome: SaveOutcome)
      returns (draft: Draft, saved: Option<Composition>)
      modifies this`compositions
      ensures draft == MakeDraft(name, composerBlocks, interpolationTokens, now)
      ensures outcome.Saved? ==> saved == Some(Stored(draft, outcome.id, outcome.createdAt))
      ensures outcome.SaveFailed? ==> saved == None
      ensures compositions == old(compositions) + (if saved.Some? then [saved.value] else [])
    {
      draft := MakeDraft(name, composerBlocks, interpolationTokens, now);
      match outcome
      case Saved(id, createdAt) =>
        saved := Some(Stored(draft, id, createdAt));
        compositions := compositions + [saved.value];
      case SaveFailed =>
        saved := None;
    }

    /** `loadComposition`: the blocks are rebuilt from the catalog and the token map is
        replaced by the record's, or by `{}` when it has none. */
    method LoadComposition(c: Composition, clock: nat -> nat)
      modifies this`composerBlocks, this`interpolationTokens
      ensures composerBlocks == LoadedBlocks(c.blocks, prompts, clock)
      ensures interpolationTokens == c.tokens.GetOr([])
    {
      composerBlocks := LoadedBlocks(c.blocks, prompts, clock);
      interpolationTokens := c.tokens.GetOr([]);
    }

    /** `updatePrompt`: on the server's answer the first prompt with the id is replaced and the
        first composer block of it is merged with the answer. */
    method UpdatePrompt(id: string, response: Option<Prompt>)
      modifies this`prompts, this`composerBlocks
      ensures response.Some? ==> prompts == ReplaceFirstPrompt(old(prompts), id, response.value)
      ensures response.Some? ==> composerBlocks == MergeIntoFirstBlock(old(composerBlocks), id, response.value)
      ensures response.None? ==> prompts == old(prompts) && composerBlocks == old(composerBlocks)
    {
      if response.Some? {
        prompts := ReplaceFirstPrompt(prompts, id, response.value);
        composerBlocks := MergeIntoFirstBlock(composerBlocks, id, response.value);
      }
    }

    /** `deletePrompt`: once the server accepts, the prompt and all of its blocks go. */
    method DeletePrompt(id: string, accepted: bool)
      modifies this`prompts, this`composerBlocks
      ensures accepted ==> prompts == WithoutPrompt(old(prompts), id)
      ensures accepted ==> composerBlocks == WithoutPromptBlocks(old(composerBlocks), id)
      ensures !accepted ==> prompts == old(prompts) && composerBlocks == old(composerBlocks)
    {
      if accepted {
        prompts := WithoutPrompt(prompts, id);
        composerBlocks := WithoutPromptBlocks(composerBlocks, id);
      }
    }

    /** `setSearchQuery`. */
    method SetSearchQuery(query: string)
      modifies this`searchQuery
      ensures searchQuery == query
    {
      searchQuery := query;
    }

    /** `toggleTagFilter`. The selected tags start empty, `clearFilters` empties them and no
        other action writes them, so the toggle keeps them free of repeats and flips the tag. */
    method ToggleTagFilter(tag: string)
      modifies this`selectedTags
      ensures selectedTags == Toggle(old(selectedTags), tag)
      ensures Distinct(old(selectedTags)) ==>
        Distinct(selectedTags) && (tag in selectedTags <==> tag !in old(selectedTags))
    {
      if Distinct(selectedTags) {
        ToggleFlips(selectedTags, tag);
      }
      selectedTags := Toggle(selectedTags, tag);
    }

    /** `clearFilters`: afterwards every prompt is listed. */
    method ClearFilters()
      modifies this`searchQuery, this`selectedTags
      ensures searchQuery == "" && selectedTags == []
      ensures Filtered() == prompts
    {
      searchQuery := "";
      selectedTags := [];
      ClearedFiltersListAll(prompts);
    }
  }
}
