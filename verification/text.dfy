/**
 Character classes and the small string operations the protocol parser and
 the tools rely on: Python's `\s`, `\w`, ASCII case mapping, `str.strip`,
 `str.split('\n\n')[0]`, `str.capitalize` and `%i` formatting.
 */
module Text {

  import opened Wrappers

  /** Python's `str.isspace` (the set `\s` matches in a str pattern) on
      ASCII characters: tab through carriage return, the four separators
      `\x1c`-`\x1f`, and the space. Non-ASCII whitespace is not included. */
  predicate IsSpace(c: char) {
    ('\t' <= c <= '\r') || ('\U{1C}' <= c <= ' ')
  }

  /** `\w`, restricted to ASCII: letters, digits and underscore. */
  predicate IsWordChar(c: char) {
    ('a' <= c <= 'z') || ('A' <= c <= 'Z') || ('0' <= c <= '9') || c == '_'
  }

  function Lower(c: char): char {
    if 'A' <= c <= 'Z' then (c as int + 32) as char else c
  }

  function Upper(c: char): char {
    if 'a' <= c <= 'z' then (c as int - 32) as char else c
  }

  /** The three repeated character classes of the protocol's patterns. */
  datatype CharClass = Space | Word | NotRightBrace

  predicate InClass(c: char, k: CharClass) {
    match k
    case Space => IsSpace(c)
    case Word => IsWordChar(c)
    case NotRightBrace => c != '}'
  }

  /** Every character of `s[lo..hi]` belongs to class `k`. */
  predicate AllIn(s: string, lo: nat, hi: nat, k: CharClass)
    requires lo <= hi <= |s|
  {
    forall m :: lo <= m < hi ==> InClass(s[m], k)
  }

  /** The end of the longest run of class `k` that starts at `lo`
      (what a greedy `k*` consumes). */
  function Skip(s: string, lo: nat, k: CharClass): (hi: nat)
    requires lo <= |s|
    ensures lo <= hi <= |s|
    decreases |s| - lo
  {
    if lo < |s| && InClass(s[lo], k) then Skip(s, lo + 1, k) else lo
  }

  /** `Skip` stops at the first character outside the class: the run it
      passes over is all in the class and cannot be extended. */
  lemma {:induction false} SkipRun(s: string, lo: nat, k: CharClass)
    requires lo <= |s|
    ensures AllIn(s, lo, Skip(s, lo, k), k)
    ensures Skip(s, lo, k) == |s| || !InClass(s[Skip(s, lo, k)], k)
    decreases |s| - lo
  {
    if lo < |s| && InClass(s[lo], k) {
      SkipRun(s, lo + 1, k);
    }
  }

  /** The start of the longest run of class `k` that ends at `hi`. */
  function SkipBack(s: string, hi: nat, k: CharClass): (lo: nat)
    requires hi <= |s|
    ensures lo <= hi
    ensures AllIn(s, lo, hi, k)
    ensures lo == 0 || !InClass(s[lo - 1], k)
    decreases hi
  {
    if 0 < hi && InClass(s[hi - 1], k) then SkipBack(s, hi - 1, k) else hi
  }

  /** A run of class `k` from `lo` that stops right before a character
      outside the class is exactly what `Skip` finds. */
  lemma {:induction false} SkipStopsAt(s: string, lo: nat, hi: nat, k: CharClass)
    requires lo <= hi <= |s|
    requires AllIn(s, lo, hi, k)
    requires hi == |s| || !InClass(s[hi], k)
    ensures Skip(s, lo, k) == hi
    decreases hi - lo
  {
    if lo < hi {
      SkipStopsAt(s, lo + 1, hi, k);
    }
  }

  /** `r` occurs in `s` starting at index `a`. */
  predicate OccursAt(r: string, s: string, a: int) {
    0 <= a <= |s| - |r| && s[a..a + |r|] == r
  }

  ghost predicate IsSubstring(r: string, s: string) {
    exists a :: OccursAt(r, s, a)
  }

  /** An occurrence survives text added on either side. */
  lemma OccursExtend(x: string, s: string, k: int, t: string)
    requires OccursAt(x, s, k)
    ensures OccursAt(x, s + t, k) && OccursAt(x, t + s, |t| + k)
  {
    assert (s + t)[k..k + |x|] == s[k..k + |x|];
    assert (t + s)[|t| + k..|t| + k + |x|] == s[k..k + |x|];
  }

  /** An occurrence in a suffix of `s` is an occurrence in `s`. */
  lemma OccursInSuffix(x: string, s: string, k: nat, a: int)
    requires k <= |s| && OccursAt(x, s[k..], a)
    ensures OccursAt(x, s, k + a)
  {
    assert s[k + a..k + a + |x|] == s[k..][a..a + |x|];
  }

  /** A substring of a suffix of `s` is a substring of `s`. */
  lemma SuffixOccurs(s: string, suffix: string, x: string)
    requires |suffix| <= |s| && suffix == s[|s| - |suffix|..]
    requires IsSubstring(x, suffix)
    ensures IsSubstring(x, s)
  {
    var a :| OccursAt(x, suffix, a);
    OccursInSuffix(x, s, |s| - |suffix|, a);
  }

  /** `b` occurs in `a + b + c` right after `a`. */
  lemma OccursBetween(a: string, b: string, c: string)
    ensures OccursAt(b, a + b + c, |a|)
  {
    assert (a + b + c)[|a|..|a| + |b|] == b;
  }

  /** `r` is `s` with the whitespace-only prefix `s[..a]` and the
      whitespace-only suffix after `r` removed. */
  ghost predicate StrippedAt(s: string, r: string, a: nat) {
    && a + |r| <= |s|
    && s[a..a + |r|] == r
    && AllIn(s, 0, a, Space)
    && AllIn(s, a + |r|, |s|, Space)
  }

  /** Python's `str.strip()` with no argument. */
  function Strip(s: string): (r: string)
    ensures exists a :: StrippedAt(s, r, a)
    ensures r == [] <==> AllIn(s, 0, |s|, Space)
    ensures r != [] ==> !IsSpace(r[0]) && !IsSpace(r[|r| - 1])
  {
    var lo := Skip(s, 0, Space);
    var hi := SkipBack(s, |s|, Space);
    SkipRun(s, 0, Space);
    if hi <= lo then
      assert AllIn(s, 0, |s|, Space) by {
        forall m | 0 <= m < |s| ensures IsSpace(s[m]) {
          assert m < lo || hi <= m;
        }
      }
      assert StrippedAt(s, [], 0);
      []
    else
      assert StrippedAt(s, s[lo..hi], lo);
      s[lo..hi]
  }

  /** An f-string: the literal pieces with the rendered values between them,
      `pieces[0] + values[0] + pieces[1] + ... + pieces[n]`. */
  function Format(pieces: seq<string>, values: seq<string>): (r: string)
    requires |pieces| == |values| + 1
    ensures pieces[0] <= r
    decreases |values|
  {
    if values == [] then pieces[0]
    else
      var r := pieces[0] + values[0] + Format(pieces[1..], values[1..]);
      assert r[..|pieces[0]|] == pieces[0];
      r
  }

  /** Every value placed in an f-string occurs in its text. */
  lemma {:induction false} FormatMentions(pieces: seq<string>, values: seq<string>)
    requires |pieces| == |values| + 1
    ensures forall j :: 0 <= j < |values| ==> IsSubstring(values[j], Format(pieces, values))
    decreases |values|
  {
    if values != [] {
      var rest := Format(pieces[1..], values[1..]);
      OccursBetween(pieces[0], values[0], rest);
      FormatMentions(pieces[1..], values[1..]);
      forall j | 1 <= j < |values| ensures IsSubstring(values[j], Format(pieces, values)) {
        assert values[j] == values[1..][j - 1];
        var a :| OccursAt(values[j], rest, a);
        OccursExtend(values[j], rest, a, pieces[0] + values[0]);
      }
    }
  }

  /** `values[j]` occurs in `s` at `offs[j]`, each one ending before the next begins. */
  ghost predicate PlacedAt(values: seq<string>, s: string, offs: seq<int>) {
    && |offs| == |values|
    && (forall j :: 0 <= j < |values| ==> OccursAt(values[j], s, offs[j]))
    && (forall j :: 0 <= j < |offs| - 1 ==> offs[j] + |values[j]| <= offs[j + 1])
  }

  /** The values occur in `s` in the order given, without overlapping. */
  ghost predicate InOrder(values: seq<string>, s: string) {
    exists offs :: PlacedAt(values, s, offs)
  }

  /** Placing one more value in front, after the piece `p`, shifts the
      later offsets by the length of what was added. */
  lemma PlacedCons(p: string, v: string, vs: seq<string>, rest: string, tail: seq<int>) returns (offs: seq<int>)
    requires PlacedAt(vs, rest, tail)
    ensures PlacedAt([v] + vs, p + v + rest, offs)
    ensures offs[0] == |p|
  {
    var head := p + v;
    var values := [v] + vs;
    offs := [|p|] + seq(|tail|, k requires 0 <= k < |tail| => |head| + tail[k]);
    OccursBetween(p, v, rest);
    forall j | 1 <= j < |values| ensures OccursAt(values[j], head + rest, offs[j]) {
      assert values[j] == vs[j - 1];
      OccursExtend(values[j], rest, tail[j - 1], head);
    }
    forall j | 0 <= j < |offs| - 1 ensures offs[j] + |values[j]| <= offs[j + 1] {
      if 0 < j {
        assert values[j] == vs[j - 1];
      }
    }
  }

  /** An f-string renders its values left to right: each value sits at the
      offset after the pieces and values before it. */
  lemma {:induction false} FormatInOrder(pieces: seq<string>, values: seq<string>) returns (offs: seq<int>)
    requires |pieces| == |values| + 1
    ensures PlacedAt(values, Format(pieces, values), offs)
    ensures values != [] ==> offs[0] == |pieces[0]|
    decreases |values|
  {
    if values == [] {
      offs := [];
    } else {
      var tail := FormatInOrder(pieces[1..], values[1..]);
      offs := PlacedCons(pieces[0], values[0], values[1..], Format(pieces[1..], values[1..]), tail);
      assert [values[0]] + values[1..] == values;
    }
  }

  /** A paragraph break `\n\n` starts at index `i` of `s`. */
  predicate BlankLineAt(s: string, i: int) {
    0 <= i && i + 1 < |s| && s[i] == '\n' && s[i + 1] == '\n'
  }

  ghost predicate HasBlankLine(s: string) {
    exists i :: BlankLineAt(s, i)
  }

  /** The leftmost paragraph break at or after `from`. */
  function FindBlankLine(s: string, from: nat): (r: Option<nat>)
    requires from <= |s|
    ensures r.Some? ==> from <= r.value && BlankLineAt(s, r.value)
    ensures r.Some? ==> forall i :: from <= i < r.value ==> !BlankLineAt(s, i)
    ensures r.None? ==> forall i :: from <= i ==> !BlankLineAt(s, i)
    decreases |s| - from
  {
    if BlankLineAt(s, from) then Some(from)
    else if from == |s| then None
    else FindBlankLine(s, from + 1)
  }

  /** Python's `s.split('\n\n')[0]`: the text before the first paragraph
      break, or all of `s` when it has none. */
  function FirstParagraph(s: string): (r: string)
    ensures r <= s
    ensures !HasBlankLine(r)
    ensures r == s || BlankLineAt(s, |r|)
    ensures forall i :: 0 <= i < |r| ==> !BlankLineAt(s, i)
    ensures r == [] ==> s == [] || s[0] == '\n'
  {
    match FindBlankLine(s, 0)
    case None =>
      s
    case Some(i) =>
      assert !HasBlankLine(s[..i]) by {
        forall j | BlankLineAt(s[..i], j) ensures false {
          assert BlankLineAt(s, j);
        }
      }
      s[..i]
  }

  /** Python's `str.capitalize()` on ASCII text: first character upper-cased,
      all others lower-cased. */
  function Capitalize(s: string): (r: string)
    ensures |r| == |s|
    ensures |s| > 0 ==> r[0] == Upper(s[0])
    ensures forall k :: 1 <= k < |s| ==> r[k] == Lower(s[k])
  {
    if s == [] then [] else [Upper(s[0])] + seq(|s| - 1, k requires 0 <= k < |s| - 1 => Lower(s[k + 1]))
  }

  lemma CapitalizeIdempotent(s: string)
    ensures Capitalize(Capitalize(s)) == Capitalize(s)
  {
    var c := Capitalize(s);
    var cc := Capitalize(c);
    assert |cc| == |c|;
    forall k | 0 <= k < |c| ensures cc[k] == c[k] {
    }
  }

  predicate IsDigit(c: char) {
    '0' <= c <= '9'
  }

  function DigitValue(c: char): nat
    requires IsDigit(c)
  {
    (c as int) - ('0' as int)
  }

  /** The decimal numeral of `n`, value first (from the right). */
  function DecimalValue(s: string): nat
    requires forall k :: 0 <= k < |s| ==> IsDigit(s[k])
  {
    if s == [] then 0 else 10 * DecimalValue(s[..|s| - 1]) + DigitValue(s[|s| - 1])
  }

  /** Python's `%i` / `str(n)` for a natural number. */
  function NatText(n: nat): (r: string)
    ensures 1 <= |r|
    ensures forall k :: 0 <= k < |r| ==> IsDigit(r[k])
    ensures DecimalValue(r) == n
    ensures |r| > 1 ==> r[0] != '0'
    decreases n
  {
    var d := ('0' as int + n % 10) as char;
    if n < 10 then [d]
    else
      var r := NatText(n / 10) + [d];
      assert r[..|r| - 1] == NatText(n / 10);
      r
  }
}
