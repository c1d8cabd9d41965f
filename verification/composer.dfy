/** The composer: blocks copied from prompts, the composed document, and the conversion
    between the blocks and a stored composition. */
module Composer {
  import opened Wrappers
  import opened Strings
  import opened Seqs
  import opened TokenScanner
  import opened Interpolation

  /** A prompt record as the server returns it. */
  datatype Prompt = Prompt(
    id: string,
    title: Option<string>,
    content: string,
    tags: seq<string>,
    createdAt: string,
    updatedAt: string)

  /** A composer block: every field of its prompt, plus the `composerId` of this occurrence. */
  datatype Block = Block(prompt: Prompt, composerId: string)

  /** A stored composition: prompt ids in composer order, and the token map (a record whose
      `tokens` is missing or falsy has None). */
  datatype Composition = Composition(
    id: string,
    name: string,
    blocks: seq<string>,
    tokens: Option<TokenMap>,
    createdAt: string)

  /** What `saveCurrentComposition` sends to the server. */
  datatype Draft = Draft(name: string, blocks: seq<string>, tokens: TokenMap, createdAt: string)

  /** `${id}-${Date.now()}`. */
  function ComposerId(id: string, now: nat): string
  {
    id + "-" + Decimal(now)
  }

  /** A composer id names its prompt id and timestamp: the digits after the last `-` hold
      no `-`. */
  lemma ComposerIdInjective(a: string, b: string, t1: nat, t2: nat)
    ensures ComposerId(a, t1) == ComposerId(b, t2) <==> a == b && t1 == t2
  {
    var x, y := ComposerId(a, t1), ComposerId(b, t2);
    if x == y {
      LastDash(a, t1, |b|);
      LastDash(b, t2, |a|);
      assert |a| == |b|;
      assert a == x[..|a|] == y[..|b|] == b;
      assert Decimal(t1) == x[|a| + 1..] == y[|b| + 1..] == Decimal(t2);
      DecimalInjective(t1, t2);
    }
  }

  /** The `-` written after the prompt id is the last one: the digits hold none. */
  lemma LastDash(a: string, t: nat, k: int)
    ensures ComposerId(a, t)[|a|] == '-'
    ensures |a| < k < |ComposerId(a, t)| ==> ComposerId(a, t)[k] != '-'
  {
    if |a| < k < |ComposerId(a, t)| {
      assert ComposerId(a, t)[k] == Decimal(t)[k - |a| - 1];
    }
  }

  /** `{ ...prompt, composerId }`. */
  function NewBlock(p: Prompt, now: nat): Block
  {
    Block(p, ComposerId(p.id, now))
  }

  /** `blocks.map(b => b.content)`. */
  function Contents(bs: seq<Block>): seq<string>
  {
    seq(|bs|, i requires 0 <= i < |bs| => bs[i].prompt.content)
  }

  /** The `composedText` getter: the contents joined with a blank line between neighbours. */
  function ComposedText(bs: seq<Block>): (r: string)
    ensures bs == [] ==> r == ""
    ensures |bs| == 1 ==> r == bs[0].prompt.content
    ensures |r| == TotalLength(Contents(bs)) + (if bs == [] then 0 else 2 * (|bs| - 1))
  {
    JoinLength(Contents(bs), "\n\n");
    Join(Contents(bs), "\n\n")
  }

  /** A block added at the end adds a blank line and its content at the end of the document. */
  lemma ComposedTextSnoc(bs: seq<Block>, b: Block)
    ensures ComposedText(bs + [b]) ==
      if bs == [] then b.prompt.content else ComposedText(bs) + "\n\n" + b.prompt.content
  {
    assert Contents(bs + [b]) == Contents(bs) + [b.prompt.content];
    JoinSnoc(Contents(bs), b.prompt.content, "\n\n");
  }

  /** No character of a token is a newline. */
  lemma TokenHasNoNewline(t: string)
    ensures IsToken(t) ==> '\n' !in t
  {
    if IsToken(t) && '\n' in t {
      var j :| 0 <= j < |t| && t[j] == '\n';
    }
  }

  /** An occurrence that overlaps a blank-line separator contains a newline. */
  lemma StraddlingNewline(t: string, head: string, rest: string, q: int)
    ensures OccursAt(t, head + "\n\n" + rest, q) && |head| < q + |t| && q < |head| + 2 && |t| > 0 ==> '\n' in t
  {
    var s := head + "\n\n" + rest;
    if OccursAt(t, s, q) && |head| < q + |t| && q < |head| + 2 && |t| > 0 {
      var j := if q >= |head| then 0 else |head| - q;
      assert t[j] == s[q..q + |t|][j] == s[q + j];
    }
  }

  /** An occurrence in `head` + blank line + `rest` lies in `head` or in `rest`. */
  lemma TokenInTwoParts(head: string, rest: string, t: string)
    requires IsToken(t)
    ensures Occurs(t, head + "\n\n" + rest) ==> Occurs(t, head) || Occurs(t, rest)
  {
    var sep := "\n\n";
    if Occurs(t, head + sep + rest) {
      var q :| 0 <= q <= |head + sep + rest| - |t| && OccursAt(t, head + sep + rest, q);
      OccursAtConcat(t, head, sep + rest, q);
      TokenHasNoNewline(t);
      StraddlingNewline(t, head, rest, q);
      if q >= |head| + 2 {
        OccursAtConcat(t, sep, rest, q - |head|);
      }
    }
  }

  /** An occurrence in `head` or in `rest` is one in `head` + blank line + `rest`. */
  lemma TokenFromTwoParts(head: string, rest: string, t: string)
    ensures Occurs(t, head) || Occurs(t, rest) ==> Occurs(t, head + "\n\n" + rest)
  {
    var sep := "\n\n";
    if Occurs(t, head) {
      var q :| 0 <= q <= |head| - |t| && OccursAt(t, head, q);
      OccursAtShift(t, [], head, sep + rest, q);
      assert [] + head + (sep + rest) == head + sep + rest;
    } else if Occurs(t, rest) {
      var q :| 0 <= q <= |rest| - |t| && OccursAt(t, rest, q);
      OccursAtShift(t, head + sep, rest, [], q);
      assert head + sep + rest + [] == head + sep + rest;
    }
  }

  /** A token has no newline, so it cannot straddle the separator of a join. */
  lemma {:induction false} TokenOccursInJoin(parts: seq<string>, t: string)
    requires IsToken(t)
    ensures Occurs(t, Join(parts, "\n\n")) <==> exists i :: 0 <= i < |parts| && Occurs(t, parts[i])
  {
    if |parts| >= 2 {
      var rest := Join(parts[1..], "\n\n");
      TokenOccursInJoin(parts[1..], t);
      assert Join(parts, "\n\n") == parts[0] + "\n\n" + rest;
      TokenInTwoParts(parts[0], rest, t);
      TokenFromTwoParts(parts[0], rest, t);
      assert forall i :: 1 <= i < |parts| ==> parts[i] == parts[1..][i - 1];
    }
  }

  /** The tokens of the document are the tokens of its blocks. */
  lemma ComposedTokens(bs: seq<Block>, t: string)
    ensures t in DetectedTokens(ComposedText(bs)) <==>
      exists i :: 0 <= i < |bs| && t in DetectedTokens(bs[i].prompt.content)
  {
    var parts := Contents(bs);
    if IsToken(t) {
      TokenOccursInJoin(parts, t);
      if exists i :: 0 <= i < |bs| && t in DetectedTokens(bs[i].prompt.content) {
        var i :| 0 <= i < |bs| && t in DetectedTokens(bs[i].prompt.content);
        assert Occurs(t, parts[i]);
      }
      if exists i :: 0 <= i < |parts| && Occurs(t, parts[i]) {
        var i :| 0 <= i < |parts| && Occurs(t, parts[i]);
        assert t in DetectedTokens(bs[i].prompt.content);
      }
    }
  }

  /** Reordering the blocks by a permutation keeps the set of detected tokens. */
  lemma ReorderKeepsTokens(bs: seq<Block>, newOrder: seq<Block>, t: string)
    requires multiset(newOrder) == multiset(bs)
    ensures t in DetectedTokens(ComposedText(newOrder)) <==> t in DetectedTokens(ComposedText(bs))
  {
    ComposedTokens(bs, t);
    ComposedTokens(newOrder, t);
    if t in DetectedTokens(ComposedText(newOrder)) {
      var i :| 0 <= i < |newOrder| && t in DetectedTokens(newOrder[i].prompt.content);
      assert newOrder[i] in multiset(bs);
      var j :| 0 <= j < |bs| && bs[j] == newOrder[i];
    }
    if t in DetectedTokens(ComposedText(bs)) {
      var i :| 0 <= i < |bs| && t in DetectedTokens(bs[i].prompt.content);
      assert bs[i] in multiset(newOrder);
      var j :| 0 <= j < |newOrder| && newOrder[j] == bs[i];
    }
  }

  /** Whether a block stays in the composer when `c` is removed. */
  function KeepsComposerId(c: string): Block -> bool
  {
    (b: Block) => b.composerId != c
  }

  /** Whether a block stays in the composer when the prompt `id` is deleted. */
  function KeepsBlockOf(id: string): Block -> bool
  {
    (b: Block) => b.prompt.id != id
  }

  /** Whether a prompt stays in the catalog when the prompt `id` is deleted. */
  function KeepsPrompt(id: string): Prompt -> bool
  {
    (p: Prompt) => p.id != id
  }

  /** `blocks.filter(b => b.composerId !== c)`. */
  function WithoutComposerId(bs: seq<Block>, c: string): (r: seq<Block>)
    ensures forall b :: b in r <==> b in bs && b.composerId != c
    ensures forall b: Block :: b.composerId != c ==> multiset(r)[b] == multiset(bs)[b]
    ensures (forall i :: 0 <= i < |bs| ==> bs[i].composerId != c) ==> r == bs
  {
    FilterFacts(bs, KeepsComposerId(c));
    Filter(bs, KeepsComposerId(c))
  }

  /** Removal works piece by piece, so the surviving blocks keep their relative order. */
  lemma {:induction false} WithoutComposerIdAppend(xs: seq<Block>, ys: seq<Block>, c: string)
    ensures WithoutComposerId(xs + ys, c) == WithoutComposerId(xs, c) + WithoutComposerId(ys, c)
  {
    FilterAppend(xs, ys, KeepsComposerId(c));
  }

  /** `blocks.filter(b => b.id !== id)`: every block of the prompt goes. */
  function WithoutPromptBlocks(bs: seq<Block>, id: string): (r: seq<Block>)
    ensures forall b :: b in r <==> b in bs && b.prompt.id != id
    ensures forall b: Block :: b.prompt.id != id ==> multiset(r)[b] == multiset(bs)[b]
  {
    FilterFacts(bs, KeepsBlockOf(id));
    Filter(bs, KeepsBlockOf(id))
  }

  /** The remaining blocks keep their relative order. */
  lemma {:induction false} WithoutPromptBlocksAppend(xs: seq<Block>, ys: seq<Block>, id: string)
    ensures WithoutPromptBlocks(xs + ys, id) == WithoutPromptBlocks(xs, id) + WithoutPromptBlocks(ys, id)
  {
    FilterAppend(xs, ys, KeepsBlockOf(id));
  }

  /** `prompts.filter(p => p.id !== id)`. */
  function WithoutPrompt(ps: seq<Prompt>, id: string): (r: seq<Prompt>)
    ensures forall p :: p in r <==> p in ps && p.id != id
    ensures forall p: Prompt :: p.id != id ==> multiset(r)[p] == multiset(ps)[p]
  {
    FilterFacts(ps, KeepsPrompt(id));
    Filter(ps, KeepsPrompt(id))
  }

  /** The remaining prompts keep their relative order. */
  lemma {:induction false} WithoutPromptAppend(xs: seq<Prompt>, ys: seq<Prompt>, id: string)
    ensures WithoutPrompt(xs + ys, id) == WithoutPrompt(xs, id) + WithoutPrompt(ys, id)
  {
    FilterAppend(xs, ys, KeepsPrompt(id));
  }

  /** `j` is the index `findIndex(b => b.id === id)` finds. */
  predicate IsFirstBlockOf(bs: seq<Block>, id: string, j: nat)
  {
    j < |bs| && bs[j].prompt.id == id && forall k :: 0 <= k < j ==> bs[k].prompt.id != id
  }

  /** The composer side of `updatePrompt`: the first block of the prompt becomes
      `{ ...block, ...updated }`, which keeps its `composerId`; later blocks of the same
      prompt keep their old fields. */
  function MergeIntoFirstBlock(bs: seq<Block>, id: string, updated: Prompt): (r: seq<Block>)
    ensures |r| == |bs|
    ensures forall j :: 0 <= j < |bs| ==>
      r[j] == if IsFirstBlockOf(bs, id, j) then Block(updated, bs[j].composerId) else bs[j]
  {
    var i := FindIndex(bs, (b: Block) => b.prompt.id == id);
    if i == -1 then bs else bs[i := Block(updated, bs[i].composerId)]
  }

  /** The prompt-list side of `updatePrompt`: the first prompt with the id is replaced. */
  function ReplaceFirstPrompt(ps: seq<Prompt>, id: string, updated: Prompt): (r: seq<Prompt>)
    ensures |r| == |ps|
    ensures forall j :: 0 <= j < |ps| ==>
      r[j] == if ps[j].id == id && (forall k :: 0 <= k < j ==> ps[k].id != id) then updated else ps[j]
  {
    var i := FindIndex(ps, (p: Prompt) => p.id == id);
    if i == -1 then ps else ps[i := updated]
  }

  /** `prompts.find(p => p.id === id)`. */
  function FindPrompt(ps: seq<Prompt>, id: string): (r: Option<Prompt>)
    ensures r.None? <==> forall j :: 0 <= j < |ps| ==> ps[j].id != id
    ensures r.Some? ==> exists j :: 0 <= j < |ps| && ps[j] == r.value && r.value.id == id &&
                          forall k :: 0 <= k < j ==> ps[k].id != id
  {
    var i := FindIndex(ps, (p: Prompt) => p.id == id);
    if i == -1 then None else Some(ps[i])
  }

  /** Whether the catalog holds a prompt with this id. */
  function InCatalog(ps: seq<Prompt>): string -> bool
  {
    id => FindPrompt(ps, id).Some?
  }

  /** `ids.map(id => prompts.find(p => p.id === id)).filter(Boolean)`: at most one prompt
      per id, each taken from the catalog under one of the ids. */
  function Resolve(ids: seq<string>, ps: seq<Prompt>): (r: seq<Prompt>)
    ensures |r| <= |ids|
    ensures forall p :: p in r ==> p in ps && p.id in ids
  {
    if ids == [] then []
    else (match FindPrompt(ps, ids[0]) case Some(p) => [p] case None => []) + Resolve(ids[1..], ps)
  }

  /** `blocks.map(b => b.id)`. */
  function SavedIds(bs: seq<Block>): seq<string>
  {
    seq(|bs|, i requires 0 <= i < |bs| => bs[i].prompt.id)
  }

  function PromptIds(ps: seq<Prompt>): seq<string>
  {
    seq(|ps|, i requires 0 <= i < |ps| => ps[i].id)
  }

  /** Resolving keeps exactly the ids the catalog knows, in order. */
  lemma {:induction false} ResolveKeepsKnownIds(ids: seq<string>, ps: seq<Prompt>)
    ensures PromptIds(Resolve(ids, ps)) == Filter(ids, InCatalog(ps))
  {
    if ids != [] {
      ResolveKeepsKnownIds(ids[1..], ps);
      var rest, keep := Resolve(ids[1..], ps), InCatalog(ps);
      assert Filter(ids, keep) == (if keep(ids[0]) then [ids[0]] else []) + Filter(ids[1..], keep);
      match FindPrompt(ps, ids[0])
      case None =>
        assert Resolve(ids, ps) == [] + rest;
      case Some(p) =>
        assert Resolve(ids, ps) == [p] + rest;
        PromptIdsCons(p, rest);
    }
  }

  lemma PromptIdsCons(p: Prompt, rest: seq<Prompt>)
    ensures PromptIds([p] + rest) == [p.id] + PromptIds(rest)
  {
    forall i | 0 <= i < |rest| + 1
      ensures PromptIds([p] + rest)[i] == ([p.id] + PromptIds(rest))[i]
    {
      if i > 0 {
        assert ([p] + rest)[i] == rest[i - 1];
      }
    }
  }

  /** Each resolved prompt is the catalog's first prompt with its id. */
  lemma {:induction false} ResolveFindsCatalogPrompts(ids: seq<string>, ps: seq<Prompt>)
    ensures forall i :: 0 <= i < |Resolve(ids, ps)| ==>
      FindPrompt(ps, Resolve(ids, ps)[i].id) == Some(Resolve(ids, ps)[i])
  {
    if ids != [] {
      ResolveFindsCatalogPrompts(ids[1..], ps);
      var head := match FindPrompt(ps, ids[0]) case Some(p) => [p] case None => [];
      var rest := Resolve(ids[1..], ps);
      assert Resolve(ids, ps) == head + rest;
    }
  }

  /** The blocks `loadComposition` builds: the resolved prompts, the i-th stamped with the
      i-th reading of the clock. */
  function LoadedBlocks(ids: seq<string>, ps: seq<Prompt>, clock: nat -> nat): (r: seq<Block>)
    ensures |r| <= |ids|
    ensures SavedIds(r) == Filter(ids, InCatalog(ps))
    ensures forall i :: 0 <= i < |r| ==>
      FindPrompt(ps, r[i].prompt.id) == Some(r[i].prompt) && r[i].composerId == ComposerId(r[i].prompt.id, clock(i))
  {
    var found := Resolve(ids, ps);
    ResolveKeepsKnownIds(ids, ps);
    ResolveFindsCatalogPrompts(ids, ps);
    var r := seq(|found|, i requires 0 <= i < |found| => NewBlock(found[i], clock(i)));
    assert forall i :: 0 <= i < |r| ==> r[i] == NewBlock(found[i], clock(i));
    assert forall i :: 0 <= i < |r| ==> SavedIds(r)[i] == PromptIds(found)[i];
    r
  }

  /** Composer ids of loaded blocks coincide exactly when they are the same prompt stamped
      with the same clock reading: duplicates within one load are possible. */
  lemma LoadedComposerIds(ids: seq<string>, ps: seq<Prompt>, clock: nat -> nat, i: nat, j: nat)
    requires i < |LoadedBlocks(ids, ps, clock)| && j < |LoadedBlocks(ids, ps, clock)|
    ensures var r := LoadedBlocks(ids, ps, clock);
      r[i].composerId == r[j].composerId <==> r[i].prompt.id == r[j].prompt.id && clock(i) == clock(j)
  {
    var r := LoadedBlocks(ids, ps, clock);
    ComposerIdInjective(r[i].prompt.id, r[j].prompt.id, clock(i), clock(j));
  }

  /** The draft `saveCurrentComposition` builds. */
  function MakeDraft(name: string, bs: seq<Block>, tokens: TokenMap, createdAt: string): Draft
  {
    Draft(name, SavedIds(bs), tokens, createdAt)
  }

  /** The record the server stores for a draft: `{ id, ...draft, createdAt }`. */
  function Stored(d: Draft, id: string, createdAt: string): Composition
  {
    Composition(id, d.name, d.blocks, Some(d.tokens), createdAt)
  }

  /** Reloading the prompt ids of blocks whose prompts the catalog still holds with the same
      content gives blocks with the same ids and contents. */
  lemma ReloadedBlocks(bs: seq<Block>, ps: seq<Prompt>, clock: nat -> nat)
    requires forall i :: 0 <= i < |bs| ==>
      FindPrompt(ps, bs[i].prompt.id).Some? && FindPrompt(ps, bs[i].prompt.id).value.content == bs[i].prompt.content
    ensures SavedIds(LoadedBlocks(SavedIds(bs), ps, clock)) == SavedIds(bs)
    ensures Contents(LoadedBlocks(SavedIds(bs), ps, clock)) == Contents(bs)
  {
    var ids := SavedIds(bs);
    var r := LoadedBlocks(ids, ps, clock);
    FilterKeepsAll(ids, InCatalog(ps));
    assert |r| == |bs|;
    forall i | 0 <= i < |bs|
      ensures r[i].prompt.content == bs[i].prompt.content
    {
      assert r[i].prompt.id == ids[i] == bs[i].prompt.id;
    }
  }

  /** Saving and loading again, against a catalog that still has every block's prompt with
      the same content, reproduces the document and the token map. */
  lemma SaveLoadRoundTrip(
    name: string, bs: seq<Block>, tokens: TokenMap, now: string, id: string, createdAt: string,
    ps: seq<Prompt>, clock: nat -> nat)
    requires forall i :: 0 <= i < |bs| ==>
      FindPrompt(ps, bs[i].prompt.id).Some? && FindPrompt(ps, bs[i].prompt.id).value.content == bs[i].prompt.content
    ensures var c := Stored(MakeDraft(name, bs, tokens, now), id, createdAt);
      && SavedIds(LoadedBlocks(c.blocks, ps, clock)) == SavedIds(bs)
      && ComposedText(LoadedBlocks(c.blocks, ps, clock)) == ComposedText(bs)
      && c.tokens.GetOr([]) == tokens
  {
    ReloadedBlocks(bs, ps, clock);
  }
}
