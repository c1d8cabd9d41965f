/** The `detectedTokens` getter: the distinct placeholder tokens of the composed text, found
    by the global regular expression `\[\[([A-Z0-9_]+)\]\]` and kept in a `Set`. */
module TokenScanner {
  import opened Wrappers
  import opened Strings
  import opened Seqs

  /** A character of the class `[A-Z0-9_]`. */
  predicate IsTokenChar(c: char)
  {
    'A' <= c <= 'Z' || '0' <= c <= '9' || c == '_'
  }

  /** Two opening brackets, one or more token characters, two closing brackets. */
  predicate IsToken(t: string)
  {
    |t| >= 5 && t[0] == '[' && t[1] == '[' && t[|t| - 2] == ']' && t[|t| - 1] == ']' &&
    forall i :: 2 <= i < |t| - 2 ==> IsTokenChar(t[i])
  }

  /** The greedy run `[A-Z0-9_]+` starting at `i`: as long as it can be. */
  function RunLength(s: string, i: nat): (k: nat)
    requires i <= |s|
    ensures i + k <= |s|
    ensures forall j :: i <= j < i + k ==> IsTokenChar(s[j])
    ensures i + k == |s| || !IsTokenChar(s[i + k])
    decreases |s| - i
  {
    if i < |s| && IsTokenChar(s[i]) then 1 + RunLength(s, i + 1) else 0
  }

  /** The length of the pattern's match anchored at `p`, if it matches there. Backtracking
      cannot shorten the greedy run usefully: a shorter run is followed by a token character,
      not by `]`. */
  function MatchAt(s: string, p: nat): (m: Option<nat>)
    requires p <= |s|
    ensures m.Some? ==> 5 <= m.value && p + m.value <= |s|
  {
    if p + 2 <= |s| && s[p] == '[' && s[p + 1] == '[' then
      var k := RunLength(s, p + 2);
      if 1 <= k && p + k + 4 <= |s| && s[p + k + 2] == ']' && s[p + k + 3] == ']' then Some(k + 4)
      else None
    else None
  }

  /** What the pattern matches at `p` is a token. */
  lemma MatchAtSound(s: string, p: nat)
    requires p <= |s| && MatchAt(s, p).Some?
    ensures IsToken(s[p..p + MatchAt(s, p).value])
  {
  }

  /** Whenever a token sits at `p`, the pattern matches there, and matches exactly it. */
  lemma MatchAtComplete(s: string, p: nat, t: string)
    requires p <= |s| && IsToken(t) && OccursAt(t, s, p)
    ensures MatchAt(s, p) == Some(|t|)
  {
    var n := |t|;
    assert s[p..p + n] == t;
    assert s[p] == t[0] && s[p + 1] == t[1];
    var k := RunLength(s, p + 2);
    forall j | p + 2 <= j < p + n - 2
      ensures IsTokenChar(s[j])
    {
      assert s[j] == t[j - p];
    }
    assert s[p + n - 2] == t[n - 2] && s[p + n - 1] == t[n - 1];
  }

  /** No token starts strictly inside a match: its interior has no `[`. */
  lemma NoMatchInsideMatch(s: string, p: nat, n: nat)
    requires p <= |s| && MatchAt(s, p) == Some(n)
    ensures forall q :: p < q < p + n ==> MatchAt(s, q).None?
  {
    var k := RunLength(s, p + 2);
    assert n == k + 4;
    forall q | p < q < p + n
      ensures MatchAt(s, q).None?
    {
      if q == p + 1 {
        assert IsTokenChar(s[q + 1]);
      } else if q < p + 2 + k {
        assert IsTokenChar(s[q]);
      } else {
        assert s[q] == ']';
      }
    }
  }

  /** A match of the pattern: where it starts (`match.index`) and how long `match[0]` is. */
  datatype Match = Match(index: nat, length: nat)
  {
    /** Where the match ends: the `lastIndex` the next `exec` starts from. */
    function End(): nat
    {
      index + length
    }
  }

  /** One call of `RegExp.prototype.exec` with `lastIndex` `p`: where the next match starts
      and how long it is. */
  function Exec(s: string, p: nat): (m: Option<Match>)
    requires p <= |s|
    ensures m.Some? ==> p <= m.value.index <= |s| && MatchAt(s, m.value.index) == Some(m.value.length)
    ensures m.Some? ==> forall q :: p <= q < m.value.index ==> MatchAt(s, q).None?
    ensures m.None? ==> forall q :: p <= q <= |s| ==> MatchAt(s, q).None?
    decreases |s| - p
  {
    match MatchAt(s, p)
    case Some(n) => Some(Match(p, n))
    case None => if p == |s| then None else Exec(s, p + 1)
  }

  /** The matches the `exec` loop sees from `lastIndex` `p` on: after each match the search
      resumes where the match ended. */
  function ScanFrom(s: string, p: nat): (r: seq<string>)
    requires p <= |s|
    ensures forall i :: 0 <= i < |r| ==> IsToken(r[i])
    decreases |s| - p
  {
    var m := Exec(s, p);
    if m.None? then []
    else
      MatchAtSound(s, m.value.index);
      [s[m.value.index..m.value.End()]] + ScanFrom(s, m.value.End())
  }

  /** Reference: the token occurrence at every position from `p` on, in position order. */
  function OccurrencesFrom(s: string, p: nat): seq<string>
    requires p <= |s|
    decreases |s| - p
  {
    if p == |s| then []
    else (match MatchAt(s, p) case Some(n) => [s[p..p + n]] case None => []) + OccurrencesFrom(s, p + 1)
  }

  function Occurrences(s: string): seq<string>
  {
    OccurrencesFrom(s, 0)
  }

  /** Positions where no match starts contribute nothing. */
  lemma {:induction false} OccurrencesSkip(s: string, a: nat, b: nat)
    requires a <= b <= |s|
    requires forall q :: a <= q < b ==> MatchAt(s, q).None?
    ensures OccurrencesFrom(s, a) == OccurrencesFrom(s, b)
    decreases b - a
  {
    if a < b {
      OccurrencesSkip(s, a + 1, b);
    }
  }

  /** A position where a match starts contributes that match. */
  lemma OccurrencesAtMatch(s: string, q: nat, n: nat)
    requires q <= |s| && MatchAt(s, q) == Some(n)
    ensures OccurrencesFrom(s, q) == [s[q..q + n]] + OccurrencesFrom(s, q + 1)
  {
  }

  /** A match at `q` contributes itself, and nothing starts before it ends. */
  lemma OccurrencesAfterMatch(s: string, q: nat, n: nat)
    requires q <= |s| && MatchAt(s, q) == Some(n)
    ensures q + n <= |s|
    ensures OccurrencesFrom(s, q) == [s[q..q + n]] + OccurrencesFrom(s, q + n)
  {
    OccurrencesAtMatch(s, q, n);
    NoMatchInsideMatch(s, q, n);
    OccurrencesSkip(s, q + 1, q + n);
  }

  /** One turn of the `exec` loop: no match ends the scan; a match yields its text and the
      scan resumes where it ended. */
  lemma ScanStep(s: string, p: nat)
    requires p <= |s|
    ensures Exec(s, p).None? ==> ScanFrom(s, p) == []
    ensures Exec(s, p).Some? ==>
      var m := Exec(s, p).value;
      m.End() <= |s| && ScanFrom(s, p) == [s[m.index..m.End()]] + ScanFrom(s, m.End())
  {
  }

  /** The state of the `exec` loop at `lastIndex` `p`: adding what the scan still finds to
      the tokens collected so far gives the detected tokens. */
  predicate ScanInvariant(s: string, tokens: seq<string>, p: nat)
  {
    p <= |s| && AddAll(tokens, ScanFrom(s, p)) == DetectedTokens(s)
  }

  /** Before the first turn: an empty set and `lastIndex` 0. */
  lemma ScanInvariantStart(s: string)
    ensures ScanInvariant(s, [], 0)
  {
    AddAllDedup([], ScanFrom(s, 0));
    assert [] + ScanFrom(s, 0) == ScanFrom(s, 0);
  }

  /** A turn that finds the match `m` adds its text and resumes at its end, past `p`. */
  lemma ScanInvariantAdvance(s: string, tokens: seq<string>, p: nat, m: Match)
    requires ScanInvariant(s, tokens, p) && Exec(s, p) == Some(m)
    ensures p < m.End() <= |s| && ScanInvariant(s, Add(tokens, s[m.index..m.End()]), m.End())
  {
    ScanStep(s, p);
    var found, rest := ScanFrom(s, p), ScanFrom(s, m.End());
    assert found[0] == s[m.index..m.End()] && found[1..] == rest;
  }

  /** When a turn finds no match, the tokens collected are the detected tokens. */
  lemma ScanInvariantEnd(s: string, tokens: seq<string>, p: nat)
    requires ScanInvariant(s, tokens, p) && Exec(s, p).None?
    ensures tokens == DetectedTokens(s)
  {
    ScanStep(s, p);
  }

  /** The turn of the loop that finds no match ends the scan, and nothing was missed. */
  lemma ScanEnds(s: string, p: nat)
    requires p <= |s| && Exec(s, p).None?
    ensures ScanFrom(s, p) == OccurrencesFrom(s, p) == []
  {
    ScanStep(s, p);
    OccurrencesSkip(s, p, |s|);
  }

  /** A turn that finds a match loses nothing before or inside it. */
  lemma ScanAdvances(s: string, p: nat, m: Match)
    requires p <= |s| && Exec(s, p) == Some(m)
    requires m.End() <= |s| && ScanFrom(s, m.End()) == OccurrencesFrom(s, m.End())
    ensures ScanFrom(s, p) == OccurrencesFrom(s, p)
  {
    ScanStepAt(s, p, m);
    OccurrencesToMatch(s, p, m);
  }

  /** The turn of the scan that finds `m`. */
  lemma ScanStepAt(s: string, p: nat, m: Match)
    requires p <= |s| && Exec(s, p) == Some(m)
    ensures m.End() <= |s| && ScanFrom(s, p) == [s[m.index..m.End()]] + ScanFrom(s, m.End())
  {
    ScanStep(s, p);
  }

  /** From `p` the occurrence list starts with the match `exec` finds, and goes on after it. */
  lemma OccurrencesToMatch(s: string, p: nat, m: Match)
    requires p <= |s| && Exec(s, p) == Some(m)
    ensures m.End() <= |s| && OccurrencesFrom(s, p) == [s[m.index..m.End()]] + OccurrencesFrom(s, m.End())
  {
    OccurrencesBeforeMatch(s, p, m);
    OccurrencesThroughMatch(s, p, m);
  }

  /** Where the list from `p` is the list from a match `m`, it is that match followed by the
      list from the match's end. */
  lemma OccurrencesThroughMatch(s: string, p: nat, m: Match)
    requires p <= m.index <= |s| && MatchAt(s, m.index) == Some(m.length)
    requires OccurrencesFrom(s, p) == OccurrencesFrom(s, m.index)
    ensures m.End() <= |s| && OccurrencesFrom(s, p) == [s[m.index..m.End()]] + OccurrencesFrom(s, m.End())
  {
    OccurrencesAfterMatch(s, m.index, m.length);
  }

  /** Nothing is listed between `p` and the match `exec` finds. */
  lemma OccurrencesBeforeMatch(s: string, p: nat, m: Match)
    requires p <= |s| && Exec(s, p) == Some(m)
    ensures m.index <= |s| && OccurrencesFrom(s, p) == OccurrencesFrom(s, m.index)
  {
    OccurrencesSkip(s, p, m.index);
  }

  /** Resuming the search after each match loses no occurrence. */
  lemma {:induction false} ScanFindsEveryOccurrence(s: string, p: nat)
    requires p <= |s|
    ensures ScanFrom(s, p) == OccurrencesFrom(s, p)
    decreases |s| - p
  {
    match Exec(s, p)
    case None =>
      ScanEnds(s, p);
    case Some(m) =>
      ScanFindsEveryOccurrence(s, m.End());
      ScanAdvances(s, p, m);
  }

  /** `t` occurs in `s` at `p` or later. */
  predicate OccursFrom(t: string, s: string, p: nat)
  {
    exists q :: p <= q <= |s| - |t| && OccursAt(t, s, q)
  }

  /** What position `p` contributes to the occurrence list. */
  lemma OccurrencesHead(s: string, p: nat, t: string)
    requires p < |s|
    ensures t in OccurrencesFrom(s, p) <==> (IsToken(t) && OccursAt(t, s, p)) || t in OccurrencesFrom(s, p + 1)
  {
    var m := MatchAt(s, p);
    if m.Some? {
      OccurrencesAtMatch(s, p, m.value);
      MatchAtSound(s, p);
    }
    if IsToken(t) && OccursAt(t, s, p) {
      MatchAtComplete(s, p, t);
      OccurrencesAtMatch(s, p, |t|);
    }
  }

  /** An occurrence at or after `p` is at `p` or at or after `p + 1`. */
  lemma OccursFromStep(t: string, s: string, p: nat)
    requires p < |s|
    ensures OccursFrom(t, s, p) <==> OccursAt(t, s, p) || OccursFrom(t, s, p + 1)
  {
    if OccursFrom(t, s, p) {
      var q :| p <= q <= |s| - |t| && OccursAt(t, s, q);
      if q != p {
        assert p + 1 <= q;
      }
    }
  }

  /** The occurrence list holds exactly the tokens that occur at or after `p`. */
  lemma {:induction false} OccurrencesMembers(s: string, p: nat, t: string)
    requires p <= |s|
    ensures t in OccurrencesFrom(s, p) <==> IsToken(t) && OccursFrom(t, s, p)
    decreases |s| - p
  {
    if p < |s| {
      OccurrencesMembers(s, p + 1, t);
      OccurrencesHead(s, p, t);
      OccursFromStep(t, s, p);
    } else if OccursFrom(t, s, p) {
      var q :| p <= q <= |s| - |t| && OccursAt(t, s, q);
      assert |t| == 0;
    }
  }

  /** `a` occurs in `s` at or after `p` before `b` first does. */
  predicate OccursFirstFrom(a: string, b: string, s: string, p: nat)
  {
    exists q :: p <= q <= |s| && OccursAt(a, s, q) && forall q' :: p <= q' <= q ==> !OccursAt(b, s, q')
  }

  /** No token other than the match occurs where a match starts. */
  lemma OnlyTheMatchOccursThere(s: string, p: nat, b: string)
    requires p < |s| && IsToken(b) && OccursAt(b, s, p)
    ensures MatchAt(s, p) == Some(|b|) && b == s[p..p + |b|]
  {
    MatchAtComplete(s, p, b);
  }

  /** `a` occurring where `b` does not start wins at once. */
  lemma OccursFirstHere(a: string, b: string, s: string, p: nat)
    requires p <= |s| && OccursAt(a, s, p) && !OccursAt(b, s, p)
    ensures OccursFirstFrom(a, b, s, p)
  {
    assert forall q' :: p <= q' <= p ==> !OccursAt(b, s, q');
  }

  /** A position where `b` does not start can be put in front. */
  lemma OccursFirstStep(a: string, b: string, s: string, p: nat)
    requires p < |s| && !OccursAt(b, s, p) && OccursFirstFrom(a, b, s, p + 1)
    ensures OccursFirstFrom(a, b, s, p)
  {
    var q :| p + 1 <= q <= |s| && OccursAt(a, s, q) && forall q' :: p + 1 <= q' <= q ==> !OccursAt(b, s, q');
    assert forall q' :: p <= q' <= q ==> !OccursAt(b, s, q');
  }

  /** The list from `p` is what `p` contributes followed by the list from `p + 1`. */
  lemma OccurrencesCons(s: string, p: nat)
    requires p < |s|
    ensures MatchAt(s, p).None? ==> OccurrencesFrom(s, p) == OccurrencesFrom(s, p + 1)
    ensures MatchAt(s, p).Some? ==>
      OccurrencesFrom(s, p) == [s[p..p + MatchAt(s, p).value]] + OccurrencesFrom(s, p + 1)
  {
  }

  /** The token listed later does not start at `p`. */
  lemma LaterTokenNotAtStart(s: string, p: nat, a: string, b: string)
    requires p < |s| && a in OccurrencesFrom(s, p) && b in OccurrencesFrom(s, p)
    requires FirstIndex(OccurrencesFrom(s, p), a) < FirstIndex(OccurrencesFrom(s, p), b)
    ensures !OccursAt(b, s, p)
  {
    OccurrencesMembers(s, p, b);
    if OccursAt(b, s, p) {
      OnlyTheMatchOccursThere(s, p, b);
      OccurrencesCons(s, p);
      assert false;
    }
  }

  /** Past a position where no match starts, the list and its order are unchanged. */
  lemma OccurrencesSkipOrder(s: string, p: nat, a: string, b: string)
    requires p < |s| && MatchAt(s, p).None?
    requires a in OccurrencesFrom(s, p) && b in OccurrencesFrom(s, p)
    requires FirstIndex(OccurrencesFrom(s, p), a) < FirstIndex(OccurrencesFrom(s, p), b)
    ensures a in OccurrencesFrom(s, p + 1) && b in OccurrencesFrom(s, p + 1)
    ensures FirstIndex(OccurrencesFrom(s, p + 1), a) < FirstIndex(OccurrencesFrom(s, p + 1), b)
  {
    OccurrencesCons(s, p);
  }

  /** Past a match that is neither of two listed tokens, both are still listed, in the same
      order. */
  lemma OccurrencesTailOrder(s: string, p: nat, a: string, b: string)
    requires p < |s| && MatchAt(s, p).Some? && a != s[p..p + MatchAt(s, p).value]
    requires a in OccurrencesFrom(s, p) && b in OccurrencesFrom(s, p)
    requires FirstIndex(OccurrencesFrom(s, p), a) < FirstIndex(OccurrencesFrom(s, p), b)
    ensures a in OccurrencesFrom(s, p + 1) && b in OccurrencesFrom(s, p + 1)
    ensures FirstIndex(OccurrencesFrom(s, p + 1), a) < FirstIndex(OccurrencesFrom(s, p + 1), b)
  {
    var tok, rest := s[p..p + MatchAt(s, p).value], OccurrencesFrom(s, p + 1);
    OccurrencesCons(s, p);
    FirstIndexCons(tok, rest, a);
    FirstIndexCons(tok, rest, b);
  }

  /** Where `b`, listed after `a`, cannot start, either `a` is the match at `p` or both are
      still listed, in the same order, from `p + 1` on. */
  lemma OccurrencesOrderStep(s: string, p: nat, a: string, b: string)
    requires p <= |s| && a in OccurrencesFrom(s, p) && b in OccurrencesFrom(s, p)
    requires FirstIndex(OccurrencesFrom(s, p), a) < FirstIndex(OccurrencesFrom(s, p), b)
    ensures p < |s| && !OccursAt(b, s, p)
    ensures OccursAt(a, s, p) ||
      (a in OccurrencesFrom(s, p + 1) && b in OccurrencesFrom(s, p + 1) &&
       FirstIndex(OccurrencesFrom(s, p + 1), a) < FirstIndex(OccurrencesFrom(s, p + 1), b))
  {
    assert p < |s|;
    LaterTokenNotAtStart(s, p, a, b);
    var m := MatchAt(s, p);
    if m.None? {
      OccurrencesSkipOrder(s, p, a, b);
    } else if a != s[p..p + m.value] {
      OccurrencesTailOrder(s, p, a, b);
    } else {
      MatchOccursThere(s, p);
    }
  }

  /** The text a match covers occurs at the match's start. */
  lemma MatchOccursThere(s: string, p: nat)
    requires p <= |s| && MatchAt(s, p).Some?
    ensures OccursAt(s[p..p + MatchAt(s, p).value], s, p)
  {
  }

  /** The occurrence list is in text order: whichever of two tokens is listed first also
      occurs first in the text. */
  lemma {:induction false} OccurrencesInTextOrder(s: string, p: nat, a: string, b: string)
    requires p <= |s| && a in OccurrencesFrom(s, p) && b in OccurrencesFrom(s, p)
    requires FirstIndex(OccurrencesFrom(s, p), a) < FirstIndex(OccurrencesFrom(s, p), b)
    ensures OccursFirstFrom(a, b, s, p)
    decreases |s| - p
  {
    OccurrencesOrderStep(s, p, a, b);
    if OccursAt(a, s, p) {
      OccursFirstHere(a, b, s, p);
    } else {
      OccurrencesInTextOrder(s, p + 1, a, b);
      OccursFirstStep(a, b, s, p);
    }
  }

  lemma OccurrencesAreTheTokens(text: string)
    ensures forall t :: t in Occurrences(text) <==> IsToken(t) && Occurs(t, text)
  {
    forall t
      ensures t in Occurrences(text) <==> IsToken(t) && Occurs(t, text)
    {
      OccurrencesMembers(text, 0, t);
    }
  }

  /** The `detectedTokens` getter: the tokens of `text`, each once, in first-seen order. */
  function DetectedTokens(text: string): (r: seq<string>)
    ensures r == Dedup(Occurrences(text))
    ensures Distinct(r)
    ensures forall t :: t in r <==> IsToken(t) && Occurs(t, text)
    ensures text == "" ==> r == []
  {
    ScanFindsEveryOccurrence(text, 0);
    OccurrencesAreTheTokens(text);
    Dedup(ScanFrom(text, 0))
  }

  /** First-seen order: of two detected tokens, the one listed first occurs first in the text. */
  lemma DetectedTokensInTextOrder(text: string, i: nat, j: nat)
    requires i < j < |DetectedTokens(text)|
    ensures OccursFirstFrom(DetectedTokens(text)[i], DetectedTokens(text)[j], text, 0)
  {
    var r := DetectedTokens(text);
    DedupFirstSeenOrder(Occurrences(text), i, j);
    OccurrencesInTextOrder(text, 0, r[i], r[j]);
  }

  /** Two different tokens never overlap in a text. */
  lemma TokensDoNotOverlap(s: string, u: string, k: string, q: nat, r: nat)
    requires IsToken(u) && IsToken(k) && u != k
    requires OccursAt(u, s, q) && OccursAt(k, s, r)
    ensures r + |k| <= q || q + |u| <= r
  {
    MatchAtComplete(s, q, u);
    MatchAtComplete(s, r, k);
    if q <= r {
      NoMatchInsideMatch(s, q, |u|);
    } else {
      NoMatchInsideMatch(s, r, |k|);
    }
  }
}
