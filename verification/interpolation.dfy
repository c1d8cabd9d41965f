/** The token map `interpolationTokens` and the `interpolatedText` getter built on it. */
module Interpolation {
  import opened Wrappers
  import opened Strings
  import opened TokenScanner
  import opened Replace

  /** One entry of the token map: a token and the value bound to it. */
  datatype Binding = Binding(token: string, value: string)

  predicate KeysDistinct(m: seq<Binding>)
  {
    forall i, j :: 0 <= i < j < |m| ==> m[i].token != m[j].token
  }

  /** A plain JavaScript object from token to value, as its entries in insertion order. */
  type TokenMap = m: seq<Binding> | KeysDistinct(m) witness []

  /** `Object.keys(m)`. */
  function Keys(m: seq<Binding>): seq<string>
  {
    seq(|m|, i requires 0 <= i < |m| => m[i].token)
  }

  /** `m[k]`: the value bound to `k`, if there is one. */
  function Lookup(m: seq<Binding>, k: string): (r: Option<string>)
    ensures r.Some? <==> k in Keys(m)
    ensures r.Some? ==> Binding(k, r.value) in m
  {
    if m == [] then None
    else if m[0].token == k then
      assert Keys(m)[0] == k;
      Some(m[0].value)
    else
      assert Keys(m) == [m[0].token] + Keys(m[1..]);
      Lookup(m[1..], k)
  }

  /** In a map with distinct keys the lookup of a key finds its own entry. */
  lemma {:induction false} LookupAt(m: seq<Binding>, i: nat)
    requires KeysDistinct(m) && i < |m|
    ensures Lookup(m, m[i].token) == Some(m[i].value)
  {
    if i > 0 {
      assert m[1..][i - 1] == m[i];
      LookupAt(m[1..], i - 1);
    }
  }

  /** `m` with `k` bound to `v`: in place at index `i`, or at the end when `i` is -1. */
  function Rebind(m: seq<Binding>, k: string, v: string, i: int): seq<Binding>
    requires -1 <= i < |m|
  {
    if i == -1 then m + [Binding(k, v)] else m[i := Binding(k, v)]
  }

  /** Rebinding at the key's own index, or appending a missing key, keeps the keys as they
      were, plus `k` at the end when it was missing. */
  lemma RebindKeys(m: seq<Binding>, k: string, v: string, i: int)
    requires -1 <= i < |m| && (i == -1 <==> k !in Keys(m)) && (i >= 0 ==> m[i].token == k)
    ensures Keys(Rebind(m, k, v, i)) == if k in Keys(m) then Keys(m) else Keys(m) + [k]
  {
  }

  /** ... and so keeps the keys distinct. */
  lemma RebindDistinct(m: seq<Binding>, k: string, v: string, i: int)
    requires KeysDistinct(m) && -1 <= i < |m| && (i == -1 <==> k !in Keys(m)) && (i >= 0 ==> m[i].token == k)
    ensures KeysDistinct(Rebind(m, k, v, i))
  {
    var r := Rebind(m, k, v, i);
    RebindKeys(m, k, v, i);
    forall a, b | 0 <= a < b < |r|
      ensures r[a].token != r[b].token
    {
      assert r[a].token == Keys(r)[a] && r[b].token == Keys(r)[b];
      if b == |m| {
        assert Keys(m)[a] == m[a].token;
      }
    }
  }

  /** After rebinding, `k` looks up `v` and every other key what it did before. */
  lemma RebindLookup(m: seq<Binding>, k: string, v: string, i: int, k': string)
    requires KeysDistinct(m) && -1 <= i < |m| && (i == -1 <==> k !in Keys(m)) && (i >= 0 ==> m[i].token == k)
    ensures Lookup(Rebind(m, k, v, i), k') == if k' == k then Some(v) else Lookup(m, k')
  {
    var r := Rebind(m, k, v, i);
    RebindDistinct(m, k, v, i);
    if k' == k {
      LookupAt(r, if i == -1 then |m| else i);
    } else if k' in Keys(m) {
      var j :| 0 <= j < |m| && m[j].token == k';
      assert r[j] == m[j];
      LookupAt(m, j);
      LookupAt(r, j);
    } else {
      RebindKeys(m, k, v, i);
      assert k' !in Keys(r);
    }
  }

  /** The one key whose assignment on a plain object does not create an own key: without an
      own `__proto__`, `m[k] = v` runs the inherited `Object.prototype.__proto__` setter,
      which ignores a value that is not an object. */
  const ProtoKey: string := "__proto__"

  /** `m[k] = v`: an existing key keeps its place and gets the new value; a new key goes last;
      a string assigned to `__proto__` that is not yet an own key is dropped. */
  function Put(m: TokenMap, k: string, v: string): (r: TokenMap)
    ensures k == ProtoKey && k !in Keys(m) ==> r == m
    ensures k != ProtoKey || k in Keys(m) ==> Lookup(r, k) == Some(v)
    ensures forall k' :: k' != k ==> Lookup(r, k') == Lookup(m, k')
    ensures Keys(r) == if k in Keys(m) || k == ProtoKey then Keys(m) else Keys(m) + [k]
  {
    if k == ProtoKey && k !in Keys(m) then m
    else
      var i := Seqs.FindIndex(Keys(m), key => key == k);
      RebindKeys(m, k, v, i);
      RebindDistinct(m, k, v, i);
      RebindLookup(m, k, v, i, k);
      forall k' | k' != k
        ensures Lookup(Rebind(m, k, v, i), k') == Lookup(m, k')
      {
        RebindLookup(m, k, v, i, k');
      }
      Rebind(m, k, v, i)
  }

  /** The `interpolatedText` loop as a left fold: each entry in turn replaces every literal
      occurrence of its token, matched through the escaped regular expression. Entries
      whose tokens do not occur change nothing; in particular no entries at all. */
  function Interpolate(text: string, m: seq<Binding>): (r: string)
    ensures (forall i :: 0 <= i < |m| ==> |m[i].token| > 0 && !Occurs(m[i].token, text)) ==> r == text
    decreases |m|
  {
    if m == [] then text
    else
      ReplaceEscaped(text, m[0].token, m[0].value);
      assert forall i :: 0 <= i < |m| - 1 ==> m[1..][i] == m[i + 1];
      Interpolate(ReplaceRegex(text, EscapeRegex(m[0].token), m[0].value), m[1..])
  }

  /** One entry of the fold replaces its token as literal text. */
  lemma InterpolateStep(text: string, m: seq<Binding>)
    requires m != []
    ensures Interpolate(text, m) == Interpolate(ReplaceAll(text, m[0].token, m[0].value), m[1..])
  {
    ReplaceEscaped(text, m[0].token, m[0].value);
  }

  /** Applying two runs of entries one after the other is applying them together. */
  lemma {:induction false} InterpolateAppend(text: string, a: seq<Binding>, b: seq<Binding>)
    ensures Interpolate(text, a + b) == Interpolate(Interpolate(text, a), b)
    decreases |a|
  {
    if a == [] {
      assert a + b == b;
    } else {
      assert (a + b)[0] == a[0] && (a + b)[1..] == a[1..] + b;
      InterpolateStep(text, a + b);
      InterpolateStep(text, a);
      InterpolateAppend(ReplaceAll(text, a[0].token, a[0].value), a[1..], b);
    }
  }

  /** A token with no entry survives when every entry is for a token: the replacements of
      other tokens never overlap it. */
  lemma {:induction false} UnboundTokenSurvives(text: string, m: seq<Binding>, u: string)
    requires IsToken(u) && Occurs(u, text)
    requires forall i :: 0 <= i < |m| ==> IsToken(m[i].token) && m[i].token != u
    ensures Occurs(u, Interpolate(text, m))
    decreases |m|
  {
    if m != [] {
      var k := m[0].token;
      var q :| 0 <= q <= |text| - |u| && OccursAt(u, text, q);
      forall r | OccursAt(k, text, r)
        ensures r + |k| <= q || q + |u| <= r
      {
        TokensDoNotOverlap(text, u, k, q, r);
      }
      ReplaceKeepsOccurrence(text, k, m[0].value, u, q);
      InterpolateStep(text, m);
      UnboundTokenSurvives(ReplaceAll(text, k, m[0].value), m[1..], u);
    }
  }

  /** The same, for the tokens the scanner detects. */
  lemma UnboundTokenStillDetected(text: string, m: seq<Binding>, u: string)
    requires u in DetectedTokens(text) && u !in Keys(m)
    requires forall i :: 0 <= i < |m| ==> IsToken(m[i].token)
    ensures u in DetectedTokens(Interpolate(text, m))
  {
    assert forall i :: 0 <= i < |m| ==> m[i].token == Keys(m)[i];
    UnboundTokenSurvives(text, m, u);
  }

  /** Without the requirement that every key is a token an unbound token need not survive:
      the key `A]]` overlaps the token `[[A]]`, and binding it to `x` leaves `[[x`, in which
      no token is detected. */
  lemma NonTokenKeyBreaksToken()
    ensures IsToken("[[A]]") && "[[A]]" in DetectedTokens("[[A]]")
    ensures Interpolate("[[A]]", [Binding("A]]", "x")]) == "[[x"
    ensures DetectedTokens("[[x") == []
  {
    OneLetterToken();
    OverlappingKey();
    var m := [Binding("A]]", "x")];
    InterpolateStep("[[A]]", m);
    assert m[1..] == [];
    ShortTextHasNoToken("[[x");
  }

  /** Text shorter than the shortest token has none. */
  lemma ShortTextHasNoToken(s: string)
    requires |s| < 5
    ensures DetectedTokens(s) == []
  {
    forall t | IsToken(t)
      ensures !Occurs(t, s)
    {
    }
  }

  lemma OneLetterToken()
    ensures IsToken("[[A]]") && "[[A]]" in DetectedTokens("[[A]]")
  {
    IsOneLetterToken();
    TokenDetectedInItself("[[A]]");
  }

  /** A token on its own is detected. */
  lemma TokenDetectedInItself(t: string)
    requires IsToken(t)
    ensures t in DetectedTokens(t)
  {
    assert OccursAt(t, t, 0);
  }

  lemma IsOneLetterToken()
    ensures IsToken("[[A]]")
  {
    var text := "[[A]]";
    assert forall i :: 2 <= i < 3 ==> text[i] == 'A';
  }

  lemma OverlappingKey()
    ensures ReplaceAll("[[A]]", "A]]", "x") == "[[x"
  {
    var text, k, v := "[[A]]", "A]]", "x";
    assert text[0..3][0] == '[' != k[0] && text[1..4][0] == '[' != k[0];
    assert OccursAt(k, text, 2);
    assert ReplaceFrom(text, k, v, 5) == [];
    assert ReplaceFrom(text, k, v, 2) == "x";
    assert ReplaceFrom(text, k, v, 1) == "[x";
    assert ReplaceFrom(text, k, v, 0) == "[[x";
    assert Occurs(k, text);
  }
}
