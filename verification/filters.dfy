/** The prompt list as the store filters it, and the selected-tag list it filters by. */
module Filters {
  import opened Strings
  import opened Seqs
  import opened Composer

  /** `prompt.tags?.some(tag => selectedTags.includes(tag))`. */
  predicate HasSelectedTag(p: Prompt, selected: seq<string>)
  {
    exists i :: 0 <= i < |p.tags| && p.tags[i] in selected
  }

  /** The lower-cased content, or the lower-cased title when there is one, contains the
      lower-cased query (untrimmed). */
  predicate MatchesQuery(p: Prompt, query: string)
  {
    Occurs(Lower(query), Lower(p.content)) ||
    (p.title.Some? && Occurs(Lower(query), Lower(p.title.value)))
  }

  function TagFilter(selected: seq<string>): Prompt -> bool
  {
    p => HasSelectedTag(p, selected)
  }

  function QueryFilter(query: string): Prompt -> bool
  {
    p => MatchesQuery(p, query)
  }

  /** Whether a prompt survives both filters: the tag filter applies when tags are selected,
      the text filter when the query is not blank. */
  predicate Passes(p: Prompt, selected: seq<string>, query: string)
  {
    (|selected| > 0 ==> HasSelectedTag(p, selected)) && (!IsBlank(query) ==> MatchesQuery(p, query))
  }

  function PassesFilter(selected: seq<string>, query: string): Prompt -> bool
  {
    p => Passes(p, selected, query)
  }

  /** The `filteredPrompts` getter: the tag filter, then the text filter. */
  function FilteredPrompts(ps: seq<Prompt>, selected: seq<string>, query: string): seq<Prompt>
  {
    var byTags := if |selected| > 0 then Filter(ps, TagFilter(selected)) else ps;
    if IsBlank(query) then byTags else Filter(byTags, QueryFilter(query))
  }

  /** The two filters in a row are one filter by `Passes`, so the prompts keep their order. */
  lemma FilteredKeepsOrder(ps: seq<Prompt>, selected: seq<string>, query: string)
    ensures FilteredPrompts(ps, selected, query) == Filter(ps, PassesFilter(selected, query))
  {
    var passes := PassesFilter(selected, query);
    if |selected| > 0 && !IsBlank(query) {
      FilterFilter(ps, TagFilter(selected), QueryFilter(query), passes);
    } else if |selected| > 0 {
      FilterSame(ps, TagFilter(selected), passes);
    } else if !IsBlank(query) {
      FilterSame(ps, QueryFilter(query), passes);
    } else {
      FilterKeepsAll(ps, passes);
    }
  }

  /** Exactly the prompts that pass both filters are listed, each as often as in the list. */
  lemma FilteredMembers(ps: seq<Prompt>, selected: seq<string>, query: string)
    ensures forall p :: p in FilteredPrompts(ps, selected, query) <==> p in ps && Passes(p, selected, query)
    ensures forall p: Prompt ::
      multiset(FilteredPrompts(ps, selected, query))[p] == if Passes(p, selected, query) then multiset(ps)[p] else 0
  {
    FilteredKeepsOrder(ps, selected, query);
    FilterFacts(ps, PassesFilter(selected, query));
  }

  /** With the filters cleared every prompt is listed, in order. */
  lemma ClearedFiltersListAll(ps: seq<Prompt>)
    ensures FilteredPrompts(ps, [], "") == ps
  {
  }

  /** `toggleTagFilter`: a tag not selected is pushed; otherwise its first occurrence is
      spliced out. */
  function Toggle(selected: seq<string>, t: string): (r: seq<string>)
    ensures t !in selected ==> r == selected + [t]
    ensures t in selected ==> r == selected[..FirstIndex(selected, t)] + selected[FirstIndex(selected, t) + 1..]
    ensures forall u :: u != t ==> multiset(r)[u] == multiset(selected)[u]
    ensures multiset(r)[t] == if t in selected then multiset(selected)[t] - 1 else 1
  {
    if t !in selected then selected + [t]
    else
      var i := FirstIndex(selected, t);
      assert selected == selected[..i] + [t] + selected[i + 1..];
      selected[..i] + selected[i + 1..]
  }

  /** On a list without repeats toggling flips whether the tag is selected and keeps the list
      free of repeats. */
  lemma ToggleFlips(selected: seq<string>, t: string)
    requires Distinct(selected)
    ensures Distinct(Toggle(selected, t))
    ensures t in Toggle(selected, t) <==> t !in selected
  {
    var r := Toggle(selected, t);
    DistinctCounts(selected);
    DistinctCounts(r);
    assert t in r <==> multiset(r)[t] > 0;
    assert t in selected <==> multiset(selected)[t] > 0;
  }

  /** Toggling an unselected tag twice restores the list. */
  lemma ToggleTwice(selected: seq<string>, t: string)
    requires t !in selected
    ensures Toggle(Toggle(selected, t), t) == selected
  {
    var r := selected + [t];
    assert FirstIndex(r, t) == |selected|;
    assert r[..|selected|] == selected;
  }
}
