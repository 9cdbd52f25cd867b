/**
 The JavaScript string operations the tracking code relies on, with the
 facts about them that the cookie and payload proofs need: `indexOf`,
 `split`, `join`, `endsWith`, the first-match `replace`, and decimal and
 hexadecimal rendering of numbers.
 */
module Text {
  import opened Base

  /** `pat` occurs in `s` starting at index `i`. */
  predicate OccursAt(s: string, pat: string, i: nat)
  {
    i + |pat| <= |s| && s[i..i + |pat|] == pat
  }

  /** `pat` occurs in `s` at `i` and at no earlier index. */
  ghost predicate FirstAt(s: string, pat: string, i: nat)
  {
    OccursAt(s, pat, i) && forall j: nat :: j < i ==> !OccursAt(s, pat, j)
  }

  lemma FirstAtUnique(s: string, pat: string, i: nat, k: nat)
    requires FirstAt(s, pat, i) && FirstAt(s, pat, k)
    ensures i == k
  {
  }

  ghost predicate Contains(s: string, pat: string)
  {
    exists i: nat :: OccursAt(s, pat, i)
  }

  /** `pat` occurs in `s` at `i` and nowhere else. */
  ghost predicate OnlyAt(s: string, pat: string, i: nat)
  {
    OccursAt(s, pat, i) && forall j: nat :: j != i ==> !OccursAt(s, pat, j)
  }

  lemma OccursInSuffix(s: string, k: nat, pat: string)
    requires k <= |s|
    ensures forall j: nat :: OccursAt(s[k..], pat, j) <==> OccursAt(s, pat, k + j)
  {
    forall j: nat
      ensures OccursAt(s[k..], pat, j) <==> OccursAt(s, pat, k + j)
    {
      if k + j + |pat| <= |s| {
        assert s[k..][j..j + |pat|] == s[k + j..k + j + |pat|];
      }
    }
  }

  lemma OccursInPrefix(s: string, k: nat, pat: string, j: nat)
    requires k <= |s|
    ensures OccursAt(s[..k], pat, j) <==> (OccursAt(s, pat, j) && j + |pat| <= k)
  {
    if j + |pat| <= k {
      assert s[..k][j..j + |pat|] == s[j..j + |pat|];
    }
  }

  /** `s.indexOf(pat)`, with `None` for -1. */
  function IndexOf(s: string, pat: string): (r: Option<nat>)
    ensures r.Some? ==> OccursAt(s, pat, r.value)
    ensures r.Some? ==> forall j: nat :: j < r.value ==> !OccursAt(s, pat, j)
    ensures r.None? <==> !Contains(s, pat)
    decreases |s|
  {
    if |s| < |pat| then None
    else if s[..|pat|] == pat then
      assert OccursAt(s, pat, 0) by { assert s[0..|pat|] == s[..|pat|]; }
      Some(0)
    else
      assert !OccursAt(s, pat, 0) by { assert s[0..|pat|] == s[..|pat|]; }
      OccursInSuffix(s, 1, pat);
      match IndexOf(s[1..], pat)
      case None =>
        assert forall j: nat :: !OccursAt(s, pat, j) by {
          forall j: nat ensures !OccursAt(s, pat, j) {
            if j > 0 { assert !OccursAt(s[1..], pat, j - 1); }
          }
        }
        None
      case Some(k) =>
        assert forall j: nat :: j < k + 1 ==> !OccursAt(s, pat, j) by {
          forall j: nat | j < k + 1 ensures !OccursAt(s, pat, j) {
            if j > 0 { assert !OccursAt(s[1..], pat, j - 1); }
          }
        }
        Some(k + 1)
  }

  /** `parts.join(sep)`. */
  function Join(parts: seq<string>, sep: string): string
  {
    if |parts| == 0 then ""
    else if |parts| == 1 then parts[0]
    else parts[0] + sep + Join(parts[1..], sep)
  }

  lemma Assoc(a: string, b: string, c: string)
    ensures a + b + c == a + (b + c)
  {
  }

  lemma DropHead(c: char, x: string)
    ensures ([c] + x)[1..] == x
  {
  }

  lemma JoinCons(head: string, rest: seq<string>, sep: string)
    requires |rest| >= 1
    ensures Join([head] + rest, sep) == head + sep + Join(rest, sep)
  {
    assert ([head] + rest)[1..] == rest;
  }

  lemma Join2(a: string, b: string, sep: string)
    ensures Join([a, b], sep) == a + sep + b
  {
    assert [a, b][1..] == [b];
  }

  lemma Join3(a: string, b: string, c: string, sep: string)
    ensures Join([a, b, c], sep) == a + sep + b + sep + c
  {
    assert [a, b, c][1..] == [b, c];
    Join2(b, c, sep);
  }

  lemma Join4(a: string, b: string, c: string, d: string, sep: string)
    ensures Join([a, b, c, d], sep) == a + sep + b + sep + c + sep + d
  {
    assert [a, b, c, d][1..] == [b, c, d];
    Join3(b, c, d, sep);
  }

  /** `s.split(sep)` for a non-empty separator: cut at every occurrence found left to right. */
  function Split(s: string, sep: string): (parts: seq<string>)
    requires |sep| > 0
    ensures |parts| >= 1
    ensures Join(parts, sep) == s
    ensures forall k :: 0 <= k < |parts| ==> !Contains(parts[k], sep)
    ensures |parts| == 1 <==> !Contains(s, sep)
    decreases |s|
  {
    match IndexOf(s, sep)
    case None => [s]
    case Some(i) =>
      var head := s[..i];
      var rest := Split(s[i + |sep|..], sep);
      SplitStep(s, sep, i, rest);
      [head] + rest
  }

  lemma SplitStep(s: string, sep: string, i: nat, rest: seq<string>)
    requires |sep| > 0 && IndexOf(s, sep) == Some(i)
    requires |rest| >= 1 && Join(rest, sep) == s[i + |sep|..]
    requires forall k :: 0 <= k < |rest| ==> !Contains(rest[k], sep)
    ensures Join([s[..i]] + rest, sep) == s
    ensures forall k :: 0 <= k < |[s[..i]] + rest| ==> !Contains(([s[..i]] + rest)[k], sep)
  {
    var head := s[..i];
    var parts := [head] + rest;
    BeforeFirst(s, sep, i);
    JoinCons(head, rest, sep);
    CutAt(s, i, |sep|);
    forall k | 0 <= k < |parts| ensures !Contains(parts[k], sep) {
      if k > 0 {
        assert parts[k] == rest[k - 1];
      }
    }
  }

  lemma CutAt(s: string, i: nat, n: nat)
    requires i + n <= |s|
    ensures s == s[..i] + s[i..i + n] + s[i + n..]
  {
  }

  /** The text before the first occurrence holds none. */
  lemma BeforeFirst(s: string, sep: string, i: nat)
    requires |sep| > 0 && IndexOf(s, sep) == Some(i)
    ensures !Contains(s[..i], sep)
  {
    forall j: nat ensures !OccursAt(s[..i], sep, j) {
      OccursInPrefix(s, i, sep, j);
    }
  }

  /** A cut into parts free of `sep` is undone by `Split` when `sep`'s first character appears in no part. */
  lemma {:induction false} SplitJoin(parts: seq<string>, sep: string)
    requires |parts| >= 1 && |sep| > 0
    requires forall k :: 0 <= k < |parts| ==> sep[0] !in parts[k]
    ensures Split(Join(parts, sep), sep) == parts
    decreases |parts|
  {
    var p := parts[0];
    if |parts| == 1 {
      FirstAbsent(p, sep, "");
    } else {
      var tail := Join(parts[1..], sep);
      var s := Join(parts, sep);
      assert s == p + sep + tail;
      FirstAbsent(p, sep, tail);
      assert Split(s, sep) == [p] + Split(tail, sep);
      SplitJoin(parts[1..], sep);
      assert parts == [p] + parts[1..];
    }
  }

  /** When `p` lacks the separator's first character, `p + sep + tail` cuts first right after `p`. */
  lemma FirstAbsent(p: string, sep: string, tail: string)
    requires |sep| > 0 && sep[0] !in p
    ensures !Contains(p, sep)
    ensures IndexOf(p + sep + tail, sep) == Some(|p|)
    ensures (p + sep + tail)[..|p|] == p && (p + sep + tail)[|p| + |sep|..] == tail
  {
    forall j: nat | j < |p| ensures !OccursAt(p, sep, j) {
      assert p[j] != sep[0];
    }
    var s := p + sep + tail;
    assert OccursAt(s, sep, |p|) by {
      assert s[|p|..|p| + |sep|] == sep;
    }
    forall j: nat | j < |p|
      ensures !OccursAt(s, sep, j)
    {
      assert s[j] == p[j];
    }
    assert s[|p| + |sep|..] == tail;
  }

  /** With exactly one occurrence of `sep`, `split` yields the text before and after it. */
  lemma SplitOnly(s: string, sep: string, i: nat)
    requires |sep| > 0 && OnlyAt(s, sep, i)
    ensures Split(s, sep) == [s[..i], s[i + |sep|..]]
  {
    assert IndexOf(s, sep) == Some(i);
    var rest := s[i + |sep|..];
    OccursInSuffix(s, i + |sep|, sep);
    assert !Contains(rest, sep);
  }

  /** Two non-overlapping occurrences give `split` at least three parts. */
  lemma SplitTwice(s: string, sep: string, i: nat, j: nat)
    requires |sep| > 0 && OccursAt(s, sep, i) && OccursAt(s, sep, j) && i + |sep| <= j
    ensures |Split(s, sep)| >= 3
  {
    var f := IndexOf(s, sep).value;
    assert f <= i;
    OccursInSuffix(s, f + |sep|, sep);
    assert OccursAt(s[f + |sep|..], sep, j - f - |sep|);
  }

  /** `v` is the whole `;`-delimited field of `s` that starts at index `k`. */
  predicate FieldAt(s: string, k: nat, v: string)
  {
    && k + |v| <= |s|
    && s[k..k + |v|] == v
    && ';' !in v
    && (k + |v| == |s| || s[k + |v|] == ';')
  }

  lemma FieldInSuffix(s: string, k: nat, j: nat, v: string)
    requires k <= |s|
    ensures FieldAt(s[k..], j, v) <==> FieldAt(s, k + j, v)
  {
    if k + j + |v| <= |s| {
      assert s[k..][j..j + |v|] == s[k + j..k + j + |v|];
    }
  }

  /** `s.split(';').shift()`: the text before the first `;`. */
  function FirstField(s: string): (r: string)
    ensures FieldAt(s, 0, r)
    ensures ';' !in s ==> r == s
  {
    var parts := Split(s, ";");
    var r := parts[0];
    assert ';' !in r by {
      forall k | 0 <= k < |r| ensures r[k] != ';' {
        if r[k] == ';' {
          assert OccursAt(r, ";", k) by { assert r[k..k + 1] == ";"; }
        }
      }
    }
    assert s == r + if |parts| == 1 then "" else ";" + Join(parts[1..], ";");
    r
  }

  lemma FieldUnique(s: string, k: nat, v: string, w: string)
    requires FieldAt(s, k, v) && FieldAt(s, k, w)
    ensures v == w
  {
    if |v| < |w| {
      assert false;
    } else if |w| < |v| {
      assert false;
    }
  }

  predicate EndsWith(s: string, suffix: string)
  {
    |suffix| <= |s| && s[|s| - |suffix|..] == suffix
  }

  /** `s.replace(pat, repl)` with a string pattern: only the FIRST occurrence, wherever it is. */
  function ReplaceFirst(s: string, pat: string, repl: string): (r: string)
    ensures !Contains(s, pat) ==> r == s
    ensures Contains(s, pat) ==> |r| == |s| - |pat| + |repl|
    ensures Contains(s, pat) ==> exists i: nat :: FirstAt(s, pat, i) && r == s[..i] + repl + s[i + |pat|..]
  {
    match IndexOf(s, pat)
    case None => s
    case Some(i) => s[..i] + repl + s[i + |pat|..]
  }

  /** A leading occurrence is the one `replace` removes. */
  lemma ReplaceLeading(t: string, pat: string)
    ensures ReplaceFirst(pat + t, pat, "") == t
  {
    assert OccursAt(pat + t, pat, 0) by { assert (pat + t)[..|pat|] == pat; }
    assert IndexOf(pat + t, pat) == Some(0);
    assert (pat + t)[|pat|..] == t;
  }

  // ---- numbers rendered as text ----

  predicate IsDigit(c: char)
  {
    '0' <= c <= '9'
  }

  predicate AllDigits(s: string)
  {
    forall k :: 0 <= k < |s| ==> IsDigit(s[k])
  }

  function DigitChar(d: nat): (c: char)
    requires d < 10
    ensures IsDigit(c)
  {
    "0123456789"[d]
  }

  function DigitValue(c: char): (d: nat)
    requires IsDigit(c)
    ensures d < 10
  {
    (c as int) - ('0' as int)
  }

  /** `String(n)` / `${n}` for a non-negative integer below 10^21 (larger ones JavaScript writes with an exponent): decimal, no leading zeros. */
  function Decimal(n: nat): (r: string)
    ensures |r| >= 1 && AllDigits(r)
    ensures |r| > 1 ==> r[0] != '0'
    decreases n
  {
    if n < 10 then [DigitChar(n)] else Decimal(n / 10) + [DigitChar(n % 10)]
  }

  /** The number a string of decimal digits denotes. */
  function DecimalValue(s: string): nat
    requires AllDigits(s)
    decreases |s|
  {
    if |s| == 0 then 0 else 10 * DecimalValue(s[..|s| - 1]) + DigitValue(s[|s| - 1])
  }

  lemma {:induction false} DecimalRoundTrip(n: nat)
    ensures DecimalValue(Decimal(n)) == n
    decreases n
  {
    var r := Decimal(n);
    if n >= 10 {
      DecimalRoundTrip(n / 10);
      assert r[..|r| - 1] == Decimal(n / 10);
    }
  }

  lemma DecimalInjective(m: nat, n: nat)
    requires Decimal(m) == Decimal(n)
    ensures m == n
  {
    DecimalRoundTrip(m);
    DecimalRoundTrip(n);
  }

  predicate IsLowerHex(c: char)
  {
    IsDigit(c) || 'a' <= c <= 'f'
  }

  /** `d.toString(16)` for `0 <= d < 16`. */
  function HexChar(d: nat): (c: char)
    requires d < 16
    ensures IsLowerHex(c)
  {
    "0123456789abcdef"[d]
  }
}
