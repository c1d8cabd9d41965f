/** `text.replace(new RegExp(escapeRegex(token), 'g'), value)`: the escaping helper, the
    literal pattern it produces, and global replacement with the replacement-string
    patterns of section 22.1.3.19.1 (GetSubstitution) of ECMA-262. */
module Replace {
  import opened Wrappers
  import opened Strings

  /** The characters `escapeRegex` escapes: exactly ECMAScript's SyntaxCharacter set
      (section 22.2.1 of ECMA-262). */
  predicate IsSyntaxChar(c: char)
  {
    c in ".*+?^${}()|[]\\"
  }

  /** `escapeRegex`: a backslash in front of every syntax character, which makes every
      string a literal pattern that matches exactly that string. */
  function EscapeRegex(s: string): (r: string)
    ensures LiteralOf(r) == Some(s)
  {
    if s == [] then []
    else
      var head := if IsSyntaxChar(s[0]) then ['\\', s[0]] else [s[0]];
      var rest := EscapeRegex(s[1..]);
      assert (head + rest)[|head|..] == rest;
      assert [s[0]] + s[1..] == s;
      head + rest
  }

  /** The one string matched by a pattern made only of literal atoms: a character that is
      not a syntax character stands for itself, and `\` followed by a syntax character
      stands for that character. Any other pattern (quantifiers, classes, groups, other
      escapes) is outside this model and gives None. */
  function LiteralOf(pattern: string): Option<string>
    decreases |pattern|
  {
    if pattern == [] then Some([])
    else if pattern[0] == '\\' then
      if |pattern| >= 2 && IsSyntaxChar(pattern[1]) then
        match LiteralOf(pattern[2..])
        case Some(rest) => Some([pattern[1]] + rest)
        case None => None
      else None
    else if IsSyntaxChar(pattern[0]) then None
    else
      match LiteralOf(pattern[1..])
      case Some(rest) => Some([pattern[0]] + rest)
      case None => None
  }

  /** The replacement text for one match: `$$`, `$&`, `` $` `` and `$'` are expanded; the
      pattern has no capture groups, so every other `$` stands for itself. A value without
      `$` is inserted as it is. */
  function Expand(v: string, matched: string, before: string, after: string): (r: string)
    ensures '$' !in v ==> r == v
    decreases |v|
  {
    if v == [] then []
    else if v[0] == '$' && |v| >= 2 && v[1] in "$&`'" then
      (if v[1] == '$' then "$" else if v[1] == '&' then matched else if v[1] == '`' then before else after)
      + Expand(v[2..], matched, before, after)
    else [v[0]] + Expand(v[1..], matched, before, after)
  }

  /** Global replacement of the literal `t` from position `p` on: at each position the
      leftmost match is replaced and the search resumes after it; an empty `t` matches at
      every position, and the search then steps over one character. */
  function ReplaceFrom(text: string, t: string, v: string, p: nat): string
    requires p <= |text|
    decreases |text| - p
  {
    if OccursAt(t, text, p) then
      var sub := Expand(v, t, text[..p], text[p + |t|..]);
      if |t| == 0 then
        sub + (if p < |text| then [text[p]] + ReplaceFrom(text, t, v, p + 1) else [])
      else sub + ReplaceFrom(text, t, v, p + |t|)
    else if p < |text| then [text[p]] + ReplaceFrom(text, t, v, p + 1)
    else []
  }

  /** `text.replace(/t/g, v)` for the literal `t`; a non-empty `t` that does not occur
      leaves the text as it is. */
  function ReplaceAll(text: string, t: string, v: string): (r: string)
    ensures |t| > 0 && !Occurs(t, text) ==> r == text
  {
    ReplaceAbsent(text, t, v);
    ReplaceFrom(text, t, v, 0)
  }

  /** `text.replace(new RegExp(pattern, 'g'), v)` for a literal pattern. */
  function ReplaceRegex(text: string, pattern: string, v: string): string
    requires LiteralOf(pattern).Some?
  {
    ReplaceAll(text, LiteralOf(pattern).value, v)
  }

  /** Replacing with an escaped token is replacing the token as literal text. */
  lemma ReplaceEscaped(text: string, t: string, v: string)
    ensures LiteralOf(EscapeRegex(t)).Some?
    ensures ReplaceRegex(text, EscapeRegex(t), v) == ReplaceAll(text, t, v)
  {
  }

  /** Reference: the text cut at the leftmost non-overlapping occurrences of `t`; the piece
      being built starts at `start`, and the search is at `p`. */
  function PiecesFrom(text: string, t: string, start: nat, p: nat): (r: seq<string>)
    requires |t| > 0 && start <= p <= |text|
    ensures |r| >= 1
    decreases |text| - p
  {
    if OccursAt(t, text, p) then [text[start..p]] + PiecesFrom(text, t, p + |t|, p + |t|)
    else if p < |text| then PiecesFrom(text, t, start, p + 1)
    else [text[start..]]
  }

  function Pieces(text: string, t: string): seq<string>
    requires |t| > 0
  {
    PiecesFrom(text, t, 0, 0)
  }

  /** Joining with a part in front. */
  lemma JoinCons(x: string, rest: seq<string>, sep: string)
    requires rest != []
    ensures Join([x] + rest, sep) == x + sep + Join(rest, sep)
  {
    assert ([x] + rest)[1..] == rest;
  }

  /** Putting the occurrences back between the pieces gives the text again. */
  lemma {:induction false} PiecesJoinFrom(text: string, t: string, start: nat, p: nat)
    requires |t| > 0 && start <= p <= |text|
    ensures Join(PiecesFrom(text, t, start, p), t) == text[start..]
    decreases |text| - p
  {
    if OccursAt(t, text, p) {
      var rest := PiecesFrom(text, t, p + |t|, p + |t|);
      PiecesJoinFrom(text, t, p + |t|, p + |t|);
      JoinCons(text[start..p], rest, t);
      assert text[start..p] + t + text[p + |t|..] == text[start..];
    } else if p < |text| {
      PiecesJoinFrom(text, t, start, p + 1);
    }
  }

  lemma PiecesJoin(text: string, t: string)
    requires |t| > 0
    ensures Join(Pieces(text, t), t) == text
  {
    PiecesJoinFrom(text, t, 0, 0);
  }

  /** An occurrence inside a slice is an occurrence in the whole text. */
  lemma OccursInSlice(t: string, text: string, a: nat, b: nat, o: int)
    requires a <= b <= |text| && OccursAt(t, text[a..b], o)
    ensures OccursAt(t, text, a + o)
  {
    var inner, outer := text[a..b][o..o + |t|], text[a + o..a + o + |t|];
    assert forall i :: 0 <= i < |t| ==> inner[i] == text[a + o + i] == outer[i];
    assert inner == outer;
  }

  /** No piece contains the token: every occurrence was a cut. */
  lemma {:induction false} PiecesHaveNoTokenFrom(text: string, t: string, start: nat, p: nat)
    requires |t| > 0 && start <= p <= |text|
    requires forall q :: start <= q < p ==> !OccursAt(t, text, q)
    ensures forall i :: 0 <= i < |PiecesFrom(text, t, start, p)| ==> !Occurs(t, PiecesFrom(text, t, start, p)[i])
    decreases |text| - p
  {
    var r := PiecesFrom(text, t, start, p);
    if OccursAt(t, text, p) {
      PiecesHaveNoTokenFrom(text, t, p + |t|, p + |t|);
      if Occurs(t, text[start..p]) {
        var o :| 0 <= o <= |text[start..p]| - |t| && OccursAt(t, text[start..p], o);
        OccursInSlice(t, text, start, p, o);
        assert false;
      }
      assert r == [text[start..p]] + PiecesFrom(text, t, p + |t|, p + |t|);
    } else if p < |text| {
      PiecesHaveNoTokenFrom(text, t, start, p + 1);
    } else if Occurs(t, text[start..]) {
      var o :| 0 <= o <= |text[start..]| - |t| && OccursAt(t, text[start..], o);
      assert text[start..] == text[start..|text|];
      OccursInSlice(t, text, start, |text|, o);
      assert false;
    }
  }

  lemma PiecesHaveNoToken(text: string, t: string)
    requires |t| > 0
    ensures forall i :: 0 <= i < |Pieces(text, t)| ==> !Occurs(t, Pieces(text, t)[i])
  {
    PiecesHaveNoTokenFrom(text, t, 0, 0);
  }

  /** One step of the replacement with a non-empty token and a `$`-free value. */
  lemma ReplaceFromStep(text: string, t: string, v: string, p: nat)
    requires |t| > 0 && '$' !in v && p <= |text|
    ensures OccursAt(t, text, p) ==> ReplaceFrom(text, t, v, p) == v + ReplaceFrom(text, t, v, p + |t|)
    ensures !OccursAt(t, text, p) && p < |text| ==>
      ReplaceFrom(text, t, v, p) == [text[p]] + ReplaceFrom(text, t, v, p + 1)
    ensures p == |text| ==> ReplaceFrom(text, t, v, p) == []
  {
  }

  /** The character at `p` joins the slice that ends at `p`. */
  lemma SliceSnoc(s: string, a: nat, p: nat, r: string)
    requires a <= p < |s|
    ensures s[a..p] + ([s[p]] + r) == s[a..p + 1] + r
  {
    assert s[a..p] + [s[p]] == s[a..p + 1];
  }

  /** A match at `p` ends the current piece. */
  lemma PiecesFromStep(text: string, t: string, start: nat, p: nat)
    requires |t| > 0 && start <= p <= |text| && OccursAt(t, text, p)
    ensures PiecesFrom(text, t, start, p) == [text[start..p]] + PiecesFrom(text, t, p + |t|, p + |t|)
  {
  }

  /** The value written after a piece is the separator the join puts after it. */
  lemma CutAlgebra(head: string, v: string, tail: string, rest: seq<string>)
    requires rest != [] && tail == Join(rest, v)
    ensures head + (v + tail) == Join([head] + rest, v)
  {
    JoinCons(head, rest, v);
    assert head + (v + tail) == head + v + tail;
  }

  /** A match at `p`: the value replaces it and the next piece starts after it. */
  lemma ReplaceIsJoinAtMatch(text: string, t: string, v: string, start: nat, p: nat)
    requires |t| > 0 && '$' !in v && start <= p && p + |t| <= |text| && OccursAt(t, text, p)
    requires text[p + |t|..p + |t|] + ReplaceFrom(text, t, v, p + |t|) ==
      Join(PiecesFrom(text, t, p + |t|, p + |t|), v)
    ensures text[start..p] + ReplaceFrom(text, t, v, p) == Join(PiecesFrom(text, t, start, p), v)
  {
    var q := p + |t|;
    ReplaceFromStep(text, t, v, p);
    PiecesFromStep(text, t, start, p);
    assert text[q..q] + ReplaceFrom(text, t, v, q) == ReplaceFrom(text, t, v, q);
    CutAlgebra(text[start..p], v, ReplaceFrom(text, t, v, q), PiecesFrom(text, t, q, q));
  }

  /** No match at `p`: its character is copied and joins the current piece. */
  lemma ReplaceIsJoinPastChar(text: string, t: string, v: string, start: nat, p: nat)
    requires |t| > 0 && '$' !in v && start <= p < |text| && !OccursAt(t, text, p)
    requires text[start..p + 1] + ReplaceFrom(text, t, v, p + 1) == Join(PiecesFrom(text, t, start, p + 1), v)
    ensures text[start..p] + ReplaceFrom(text, t, v, p) == Join(PiecesFrom(text, t, start, p), v)
  {
    ReplaceFromStep(text, t, v, p);
    SliceSnoc(text, start, p, ReplaceFrom(text, t, v, p + 1));
  }

  /** At the end of the text the last piece is what is left. */
  lemma ReplaceIsJoinAtEnd(text: string, t: string, v: string, start: nat)
    requires |t| > 0 && '$' !in v && start <= |text|
    ensures text[start..|text|] + ReplaceFrom(text, t, v, |text|) == Join(PiecesFrom(text, t, start, |text|), v)
  {
    ReplaceFromStep(text, t, v, |text|);
    assert text[start..|text|] + [] == text[start..];
  }

  /** With a `$`-free value, replacement puts the value between the pieces. */
  lemma {:induction false} ReplaceIsJoinFrom(text: string, t: string, v: string, start: nat, p: nat)
    requires |t| > 0 && '$' !in v && start <= p <= |text|
    ensures text[start..p] + ReplaceFrom(text, t, v, p) == Join(PiecesFrom(text, t, start, p), v)
    decreases |text| - p
  {
    if OccursAt(t, text, p) {
      ReplaceIsJoinFrom(text, t, v, p + |t|, p + |t|);
      ReplaceIsJoinAtMatch(text, t, v, start, p);
    } else if p < |text| {
      ReplaceIsJoinFrom(text, t, v, start, p + 1);
      ReplaceIsJoinPastChar(text, t, v, start, p);
    } else {
      ReplaceIsJoinAtEnd(text, t, v, start);
    }
  }

  /** Every occurrence is replaced, none is skipped: the result is the pieces, none of
      which contains `t`, with `v` between them. */
  lemma ReplaceAllIsJoin(text: string, t: string, v: string)
    requires |t| > 0 && '$' !in v
    ensures ReplaceAll(text, t, v) == Join(Pieces(text, t), v)
    ensures forall i :: 0 <= i < |Pieces(text, t)| ==> !Occurs(t, Pieces(text, t)[i])
  {
    ReplaceIsJoinFrom(text, t, v, 0, 0);
    PiecesHaveNoToken(text, t);
  }

  /** Replacing a `$`-free token by itself changes nothing. */
  lemma ReplaceWithItself(text: string, t: string)
    requires |t| > 0 && '$' !in t
    ensures ReplaceAll(text, t, t) == text
  {
    ReplaceIsJoinFrom(text, t, t, 0, 0);
    PiecesJoin(text, t);
  }

  /** Text without an occurrence from `p` on is copied unchanged. */
  lemma {:induction false} ReplaceCopies(text: string, t: string, v: string, p: nat, b: nat)
    requires p <= b <= |text|
    requires forall q :: p <= q < b ==> !OccursAt(t, text, q)
    ensures ReplaceFrom(text, t, v, p) == text[p..b] + ReplaceFrom(text, t, v, b)
    decreases b - p
  {
    if p < b {
      ReplaceCopies(text, t, v, p + 1, b);
      ReplaceFromSkip(text, t, v, p);
      CopiedChar(text, p, b, ReplaceFrom(text, t, v, b));
    }
  }

  /** No match at `p`: its character is copied. */
  lemma ReplaceFromSkip(text: string, t: string, v: string, p: nat)
    requires p < |text| && !OccursAt(t, text, p)
    ensures ReplaceFrom(text, t, v, p) == [text[p]] + ReplaceFrom(text, t, v, p + 1)
  {
  }

  /** The copied character in front of the rest of the slice is the whole slice. */
  lemma CopiedChar(text: string, p: nat, b: nat, r: string)
    requires p < b <= |text|
    ensures [text[p]] + (text[p + 1..b] + r) == text[p..b] + r
  {
    assert [text[p]] + text[p + 1..b] == text[p..b];
  }

  /** `a` is a suffix of `b`. */
  predicate IsSuffix(a: string, b: string)
  {
    |a| <= |b| && b[|b| - |a|..] == a
  }

  /** When no occurrence from `p` on straddles `q`, the replacement from `p` passes through
      `q`: what it produces from `q` on ends the result. */
  lemma {:induction false} ReplaceReaches(text: string, t: string, v: string, p: nat, q: nat)
    requires |t| > 0 && p <= q <= |text|
    requires forall r :: p <= r < q && OccursAt(t, text, r) ==> r + |t| <= q
    ensures IsSuffix(ReplaceFrom(text, t, v, q), ReplaceFrom(text, t, v, p))
    decreases q - p
  {
    var whole, tail := ReplaceFrom(text, t, v, p), ReplaceFrom(text, t, v, q);
    if p < q {
      var next := if OccursAt(t, text, p) then p + |t| else p + 1;
      ReplaceReaches(text, t, v, next, q);
      var mid := ReplaceFrom(text, t, v, next);
      assert IsSuffix(mid, whole);
      assert whole[|whole| - |tail|..] == mid[|mid| - |tail|..];
    }
  }

  /** What a suffix starts with occurs in the whole. */
  lemma SuffixStart(whole: string, tail: string, u: string)
    requires IsSuffix(tail, whole) && |u| <= |tail| && tail[..|u|] == u
    ensures Occurs(u, whole)
  {
    var at := |whole| - |tail|;
    assert whole[at..at + |u|] == tail[..|u|];
    assert OccursAt(u, whole, at);
  }

  /** An occurrence of `u` that no occurrence of `t` overlaps survives the replacement. */
  lemma ReplaceKeepsOccurrence(text: string, t: string, v: string, u: string, q: nat)
    requires |t| > 0 && OccursAt(u, text, q)
    requires forall r :: OccursAt(t, text, r) ==> r + |t| <= q || q + |u| <= r
    ensures Occurs(u, ReplaceAll(text, t, v))
  {
    ReplaceReaches(text, t, v, 0, q);
    ReplaceCopies(text, t, v, q, q + |u|);
    var tail := ReplaceFrom(text, t, v, q);
    assert tail[..|u|] == u;
    SuffixStart(ReplaceFrom(text, t, v, 0), tail, u);
  }

  /** A token that does not occur leaves the text as it is. */
  lemma ReplaceAbsent(text: string, t: string, v: string)
    ensures |t| > 0 && !Occurs(t, text) ==> ReplaceFrom(text, t, v, 0) == text
  {
    if |t| > 0 && !Occurs(t, text) {
      forall q | 0 <= q < |text|
        ensures !OccursAt(t, text, q)
      {
      }
      ReplaceCopies(text, t, v, 0, |text|);
      assert !OccursAt(t, text, |text|);
    }
  }

  /** `text` as one-character strings. */
  function Chars(text: string): seq<string>
  {
    seq(|text|, i requires 0 <= i < |text| => [text[i]])
  }

  /** One step of the replacement with an empty token. */
  lemma ReplaceEmptyStep(text: string, v: string, p: nat)
    requires '$' !in v && p <= |text|
    ensures ReplaceFrom(text, "", v, p) ==
      v + (if p < |text| then [text[p]] + ReplaceFrom(text, "", v, p + 1) else [])
  {
    assert OccursAt("", text, p);
  }

  /** The characters from `p` on: the one at `p`, then the rest. */
  lemma CharsCons(text: string, p: nat)
    requires p < |text|
    ensures Chars(text[p..]) + [""] == [[text[p]]] + (Chars(text[p + 1..]) + [""])
  {
    assert text[p..][1..] == text[p + 1..];
  }

  /** A character before the rest: the value, the character, then what the rest gives. */
  lemma ReplaceEmptyPastChar(text: string, v: string, p: nat)
    requires '$' !in v && p < |text|
    requires ReplaceFrom(text, "", v, p + 1) == v + Join(Chars(text[p + 1..]) + [""], v)
    ensures ReplaceFrom(text, "", v, p) == v + Join(Chars(text[p..]) + [""], v)
  {
    var rest := Chars(text[p + 1..]) + [""];
    ReplaceEmptyStep(text, v, p);
    CharsCons(text, p);
    CutAlgebra([text[p]], v, Join(rest, v), rest);
  }

  /** At the end only the value is written. */
  lemma ReplaceEmptyAtEnd(text: string, v: string)
    requires '$' !in v
    ensures ReplaceFrom(text, "", v, |text|) == v + Join(Chars(text[|text|..]) + [""], v)
  {
    ReplaceEmptyStep(text, v, |text|);
    assert Chars(text[|text|..]) + [""] == [""];
  }

  /** An empty token matches before every character and at the end. */
  lemma {:induction false} ReplaceEmptyFrom(text: string, v: string, p: nat)
    requires '$' !in v && p <= |text|
    ensures ReplaceFrom(text, "", v, p) == v + Join(Chars(text[p..]) + [""], v)
    decreases |text| - p
  {
    if p < |text| {
      ReplaceEmptyFrom(text, v, p + 1);
      ReplaceEmptyPastChar(text, v, p);
    } else {
      ReplaceEmptyAtEnd(text, v);
    }
  }

  lemma ReplaceEmptyToken(text: string, v: string)
    requires '$' !in v
    ensures ReplaceAll(text, "", v) == v + Join(Chars(text) + [""], v)
  {
    ReplaceEmptyFrom(text, v, 0);
    assert text[0..] == text;
  }
}
