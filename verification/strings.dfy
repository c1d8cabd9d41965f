/** String helpers shared by the store: joining, substring occurrence, decimal rendering,
    ASCII lower-casing and the whitespace test behind `String.prototype.trim`. */
module Strings {

  /** `parts` with `sep` between neighbours, as `Array.prototype.join(sep)` builds it. */
  function Join(parts: seq<string>, sep: string): string
  {
    if |parts| == 0 then ""
    else if |parts| == 1 then parts[0]
    else parts[0] + sep + Join(parts[1..], sep)
  }

  /** Joining one more part adds the separator and that part at the end. */
  lemma {:induction false} JoinSnoc(parts: seq<string>, x: string, sep: string)
    ensures Join(parts + [x], sep) == if parts == [] then x else Join(parts, sep) + sep + x
  {
    if parts == [] {
      assert parts + [x] == [x];
    } else if |parts| == 1 {
      assert parts + [x] == [parts[0], x];
      assert [parts[0], x][1..] == [x];
    } else {
      assert (parts + [x])[1..] == parts[1..] + [x];
      JoinSnoc(parts[1..], x, sep);
    }
  }

  /** The length of a join: every part, plus one separator between each pair of neighbours. */
  function TotalLength(parts: seq<string>): nat
  {
    if parts == [] then 0 else |parts[0]| + TotalLength(parts[1..])
  }

  lemma {:induction false} JoinLength(parts: seq<string>, sep: string)
    ensures |Join(parts, sep)| == TotalLength(parts) + (if parts == [] then 0 else (|parts| - 1) * |sep|)
  {
    if |parts| > 1 {
      JoinLength(parts[1..], sep);
    }
  }

  /** `t` sits in `s` at position `q`. */
  predicate OccursAt(t: string, s: string, q: int)
  {
    0 <= q && q + |t| <= |s| && s[q..q + |t|] == t
  }

  /** `s.includes(t)`. */
  predicate Occurs(t: string, s: string)
  {
    exists q :: 0 <= q <= |s| - |t| && OccursAt(t, s, q)
  }

  /** An occurrence in `a + b` that lies wholly in `a` or wholly in `b` is an occurrence there. */
  lemma OccursAtConcat(t: string, a: string, b: string, q: int)
    requires OccursAt(t, a + b, q)
    ensures q + |t| <= |a| ==> OccursAt(t, a, q)
    ensures q >= |a| ==> OccursAt(t, b, q - |a|)
  {
    if q + |t| <= |a| {
      assert (a + b)[q..q + |t|] == a[q..q + |t|];
    }
    if q >= |a| {
      assert (a + b)[q..q + |t|] == b[q - |a|..q - |a| + |t|];
    }
  }

  /** An occurrence in a part is an occurrence in any string that contains the part. */
  lemma OccursAtShift(t: string, a: string, m: string, b: string, q: int)
    requires OccursAt(t, m, q)
    ensures OccursAt(t, a + m + b, |a| + q)
  {
    assert (a + m + b)[|a| + q..|a| + q + |t|] == m[q..q + |t|];
  }

  function DigitChar(d: nat): char
    requires d < 10
  {
    ('0' as int + d) as char
  }

  /** The decimal rendering of `n`, as a template literal renders `Date.now()`. */
  function Decimal(n: nat): (s: string)
    ensures |s| >= 1
    ensures forall i :: 0 <= i < |s| ==> '0' <= s[i] <= '9'
    decreases n
  {
    if n < 10 then [DigitChar(n)] else Decimal(n / 10) + [DigitChar(n % 10)]
  }

  /** Distinct numbers render differently. */
  lemma {:induction false} DecimalInjective(a: nat, b: nat)
    requires Decimal(a) == Decimal(b)
    ensures a == b
    decreases a
  {
    var da, db := Decimal(a), Decimal(b);
    if a < 10 && b < 10 {
      assert DigitChar(a) == da[0] == db[0] == DigitChar(b);
    } else if a < 10 || b < 10 {
      assert false;
    } else {
      assert da[|da| - 1] == DigitChar(a % 10) && db[|db| - 1] == DigitChar(b % 10);
      assert Decimal(a / 10) == da[..|da| - 1] == db[..|db| - 1] == Decimal(b / 10);
      DecimalInjective(a / 10, b / 10);
    }
  }

  /** ASCII lower-casing of one character. */
  function LowerChar(c: char): char
  {
    if 'A' <= c <= 'Z' then (c as int + 32) as char else c
  }

  /** `s.toLowerCase()`, over ASCII letters. */
  function Lower(s: string): string
  {
    seq(|s|, i requires 0 <= i < |s| => LowerChar(s[i]))
  }

  /** The characters `String.prototype.trim` removes: ECMAScript WhiteSpace and LineTerminator. */
  predicate IsJsWhitespace(c: char)
  {
    var k := c as int;
    k == 0x09 || k == 0x0A || k == 0x0B || k == 0x0C || k == 0x0D || k == 0x20 ||
    k == 0xA0 || k == 0x1680 || (0x2000 <= k <= 0x200A) || k == 0x2028 || k == 0x2029 ||
    k == 0x202F || k == 0x205F || k == 0x3000 || k == 0xFEFF
  }

  /** `s.trim()` is the empty string. */
  predicate IsBlank(s: string)
  {
    forall i :: 0 <= i < |s| ==> IsJsWhitespace(s[i])
  }
}
