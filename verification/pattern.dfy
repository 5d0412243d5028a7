/**
 A tiny pattern language: a sequence of elements without alternation, as
 the controller's two regular expressions are. Matching is given two ways:
 `IsMatch` accepts every way of splitting the text among the elements (what
 a backtracking regex engine may settle on), and `Greedy` lets each repeated
 element take the longest run it can, never giving any back. When the
 character after every repeated element cannot continue that element
 (`Deterministic`), the two agree and the match at a position is unique.
 `Search` is `re.search`: the match at the leftmost position that has one.
 */
module Pattern {

  import opened Wrappers
  import opened Text

  datatype Elem =
    | Boundary             // \b
    | Lit(c: char)         // one literal character
    | Keyword(w: string)   // a literal word under IGNORECASE, written in lower case
    | Star(k: CharClass)   // k*
    | Plus(k: CharClass)   // k+

  type Pat = seq<Elem>

  /** The lower-case word `w` occurs at `i`, ignoring ASCII case. */
  predicate MatchesWordAt(t: string, i: int, w: string) {
    0 <= i && i + |w| <= |t| && forall k :: 0 <= k < |w| ==> Lower(t[i + k]) == w[k]
  }

  predicate WordBefore(t: string, a: int) {
    0 < a <= |t| && IsWordChar(t[a - 1])
  }

  predicate WordAfter(t: string, a: int) {
    0 <= a < |t| && IsWordChar(t[a])
  }

  /** Element `e` consumes exactly `t[a..b]`. */
  predicate ElemMatches(t: string, e: Elem, a: int, b: int) {
    match e
    case Boundary => 0 <= a == b <= |t| && WordBefore(t, a) != WordAfter(t, a)
    case Lit(c) => 0 <= a && b == a + 1 <= |t| && t[a] == c
    case Keyword(w) => b == a + |w| && MatchesWordAt(t, a, w)
    case Star(k) => 0 <= a <= b <= |t| && AllIn(t, a, b, k)
    case Plus(k) => 0 <= a < b <= |t| && AllIn(t, a, b, k)
  }

  /** `pat` matches `t` from `pos`, its element `j` ending at `ends[j]`. */
  ghost predicate IsMatch(t: string, pat: Pat, pos: int, ends: seq<int>)
    decreases pat
  {
    && |ends| == |pat|
    && (pat == [] || (ElemMatches(t, pat[0], pos, ends[0]) && IsMatch(t, pat[1..], ends[0], ends[1..])))
  }

  /** The ends of a match lie in order between its start and the end of the text. */
  predicate Ordered(pos: int, ends: seq<int>, n: int) {
    && 0 <= pos <= n
    && (forall j :: 0 <= j < |ends| ==> pos <= ends[j] <= n)
    && (forall j, j' :: 0 <= j <= j' < |ends| ==> ends[j] <= ends[j'])
  }

  lemma {:induction false} MatchOrdered(t: string, pat: Pat, pos: int, ends: seq<int>)
    requires IsMatch(t, pat, pos, ends)
    requires 0 <= pos <= |t|
    ensures Ordered(pos, ends, |t|)
    decreases pat
  {
    if pat != [] {
      MatchOrdered(t, pat[1..], ends[0], ends[1..]);
      forall j, j' | 0 <= j <= j' < |ends| ensures ends[j] <= ends[j'] {
        if 0 < j {
          assert ends[j] == ends[1..][j - 1] && ends[j'] == ends[1..][j' - 1];
        } else if 0 < j' {
          assert ends[j'] == ends[1..][j' - 1];
        }
      }
    }
  }

  /** Element `j` of a match spans from the end of element `j - 1` (or the
      start) to `ends[j]`. */
  lemma {:induction false} MatchElem(t: string, pat: Pat, pos: int, ends: seq<int>, j: nat)
    requires IsMatch(t, pat, pos, ends)
    requires j < |pat|
    ensures ElemMatches(t, pat[j], if j == 0 then pos else ends[j - 1], ends[j])
    decreases j
  {
    if 0 < j {
      MatchElem(t, pat[1..], ends[0], ends[1..], j - 1);
      assert pat[1..][j - 1] == pat[j];
      if 1 < j {
        assert ends[1..][j - 2] == ends[j - 1];
      }
    }
  }

  /** The one way element `e` is matched at `a` when matched greedily. */
  function Step(t: string, e: Elem, a: nat): (r: Option<nat>)
    requires a <= |t|
    ensures r.Some? ==> a <= r.value <= |t| && ElemMatches(t, e, a, r.value)
  {
    match e
    case Boundary => if WordBefore(t, a) != WordAfter(t, a) then Some(a) else None
    case Lit(c) => if a < |t| && t[a] == c then Some(a + 1) else None
    case Keyword(w) => if MatchesWordAt(t, a, w) then Some(a + |w|) else None
    case Star(k) =>
      SkipRun(t, a, k);
      Some(Skip(t, a, k))
    case Plus(k) =>
      SkipRun(t, a, k);
      var b := Skip(t, a, k);
      if b == a then None else Some(b)
  }

  /** Match `pat` from `pos`, each repeated element taking its longest run. */
  function Greedy(t: string, pat: Pat, pos: nat): (r: Option<seq<nat>>)
    requires pos <= |t|
    ensures r.Some? ==> IsMatch(t, pat, pos, r.value)
    decreases pat
  {
    if pat == [] then Some([])
    else
      match Step(t, pat[0], pos)
      case None => None
      case Some(b) =>
        match Greedy(t, pat[1..], b)
        case None => None
        case Some(es) =>
          assert ([b] + es)[1..] == es;
          Some([b] + es)
  }

  /** Every element of `pat` can match the empty string. */
  predicate Nullable(pat: Pat) decreases pat {
    pat == [] || ((pat[0].Boundary? || pat[0].Star? || pat[0] == Keyword([])) && Nullable(pat[1..]))
  }

  /** `c` can be the first character a match of `pat` consumes. */
  predicate CanStart(pat: Pat, c: char) decreases pat {
    if pat == [] then false
    else
      match pat[0]
      case Boundary => CanStart(pat[1..], c)
      case Lit(x) => c == x
      case Keyword(w) => if w == [] then CanStart(pat[1..], c) else Lower(c) == w[0]
      case Star(k) => InClass(c, k) || CanStart(pat[1..], c)
      case Plus(k) => InClass(c, k)
  }

  /** The only characters whose lower-case form is `x`. */
  lemma LowerPreimage(c: char, x: char)
    requires Lower(c) == x
    ensures c == x || c == Upper(x)
  {
  }

  /** No character class is contained in another here except itself: only
      whitespace and word characters are known apart. */
  predicate ClassesDisjoint(k1: CharClass, k2: CharClass) {
    (k1 == Space && k2 == Word) || (k1 == Word && k2 == Space)
  }

  /** Every character a match of `pat` can start with lies outside `k`;
      decided from the pattern's elements alone. */
  predicate StartsOutside(pat: Pat, k: CharClass) decreases pat {
    if pat == [] then true
    else
      match pat[0]
      case Boundary => StartsOutside(pat[1..], k)
      case Lit(x) => !InClass(x, k)
      case Keyword(w) =>
        if w == [] then StartsOutside(pat[1..], k) else !InClass(w[0], k) && !InClass(Upper(w[0]), k)
      case Star(k2) => ClassesDisjoint(k, k2) && StartsOutside(pat[1..], k)
      case Plus(k2) => ClassesDisjoint(k, k2)
  }

  lemma {:induction false} StartsOutsideSound(pat: Pat, k: CharClass, c: char)
    requires StartsOutside(pat, k)
    requires CanStart(pat, c)
    ensures !InClass(c, k)
    decreases pat
  {
    match pat[0]
    case Boundary =>
      StartsOutsideSound(pat[1..], k, c);
    case Lit(_) =>
    case Keyword(w) =>
      if w == [] {
        StartsOutsideSound(pat[1..], k, c);
      } else {
        LowerPreimage(c, w[0]);
      }
    case Star(k2) =>
      if !InClass(c, k2) {
        StartsOutsideSound(pat[1..], k, c);
      }
    case Plus(_) =>
  }

  /** Whatever follows a repeated element must consume a character, and
      that character is outside the repeated class. */
  predicate Deterministic(pat: Pat) decreases pat {
    pat == [] ||
    (&& Deterministic(pat[1..])
     && ((pat[0].Star? || pat[0].Plus?) ==> !Nullable(pat[1..]) && StartsOutside(pat[1..], pat[0].k)))
  }

  /** A pattern that cannot match empty consumes a character it can start with. */
  lemma {:induction false} ConsumesFirst(t: string, pat: Pat, a: int, ends: seq<int>)
    requires IsMatch(t, pat, a, ends)
    requires !Nullable(pat)
    ensures 0 <= a < |t| && CanStart(pat, t[a])
    decreases pat
  {
    var b := ends[0];
    match pat[0]
    case Boundary =>
      ConsumesFirst(t, pat[1..], b, ends[1..]);
    case Lit(_) =>
    case Keyword(w) =>
      if w == [] {
        ConsumesFirst(t, pat[1..], b, ends[1..]);
      } else {
        assert Lower(t[a + 0]) == w[0];
      }
    case Star(k) =>
      if b == a {
        ConsumesFirst(t, pat[1..], b, ends[1..]);
      } else {
        assert InClass(t[a], k);
      }
    case Plus(k) =>
      assert InClass(t[a], k);
  }

  /** In a deterministic pattern every match is the greedy one. */
  lemma {:induction false} GreedyComplete(t: string, pat: Pat, pos: nat, ends: seq<int>)
    requires pos <= |t|
    requires Deterministic(pat)
    requires IsMatch(t, pat, pos, ends)
    ensures Greedy(t, pat, pos) == Some(ends)
    decreases pat
  {
    if pat != [] {
      var b := ends[0];
      if pat[0].Star? || pat[0].Plus? {
        if b < |t| {
          ConsumesFirst(t, pat[1..], b, ends[1..]);
          StartsOutsideSound(pat[1..], pat[0].k, t[b]);
        }
        SkipStopsAt(t, pos, b, pat[0].k);
      }
      assert Step(t, pat[0], pos) == Some(b);
      GreedyComplete(t, pat[1..], b, ends[1..]);
      assert ends == [b] + ends[1..];
    }
  }

  /** A deterministic pattern has at most one match at each position, and
      the greedy matcher finds it. */
  lemma GreedyExact(t: string, pat: Pat, pos: nat)
    requires pos <= |t|
    requires Deterministic(pat)
    ensures forall ends :: IsMatch(t, pat, pos, ends) <==> Greedy(t, pat, pos) == Some(ends)
  {
    forall ends | IsMatch(t, pat, pos, ends) ensures Greedy(t, pat, pos) == Some(ends) {
      GreedyComplete(t, pat, pos, ends);
    }
  }

  /** `re.search` from `from`: the leftmost position where the greedy match succeeds. */
  function Search(t: string, pat: Pat, from: nat): (r: Option<(nat, seq<nat>)>)
    requires from <= |t|
    ensures r.Some? ==> from <= r.value.0 <= |t| && Greedy(t, pat, r.value.0) == Some(r.value.1)
    ensures r.Some? ==> forall i :: from <= i < r.value.0 ==> Greedy(t, pat, i).None?
    ensures r.None? ==> forall i :: from <= i <= |t| ==> Greedy(t, pat, i).None?
    decreases |t| - from
  {
    match Greedy(t, pat, from)
    case Some(ends) => Some((from, ends))
    case None => if from == |t| then None else Search(t, pat, from + 1)
  }

  /** A match at `i` and none further left. */
  ghost predicate IsFirstMatch(t: string, pat: Pat, i: int, ends: seq<int>) {
    && 0 <= i <= |t|
    && IsMatch(t, pat, i, ends)
    && forall i', ends' :: 0 <= i' < i ==> !IsMatch(t, pat, i', ends')
  }

  /** For a deterministic pattern, `Search` returns the leftmost match of
      all the ways the pattern can match, or reports that none exists. */
  lemma SearchExact(t: string, pat: Pat)
    requires Deterministic(pat)
    ensures Search(t, pat, 0).Some? ==> IsFirstMatch(t, pat, Search(t, pat, 0).value.0, Search(t, pat, 0).value.1)
    ensures Search(t, pat, 0).None? ==> forall i, ends :: 0 <= i <= |t| ==> !IsMatch(t, pat, i, ends)
    ensures Search(t, pat, 0).Some? ==> exists i, ends :: 0 <= i <= |t| && IsMatch(t, pat, i, ends)
  {
    var r := Search(t, pat, 0);
    forall i, ends | 0 <= i <= |t| && IsMatch(t, pat, i, ends) && (r.None? || i < r.value.0)
      ensures false
    {
      GreedyComplete(t, pat, i, ends);
    }
    if r.Some? {
      var es: seq<int> := r.value.1;
      assert IsMatch(t, pat, r.value.0, es);

    }
  }
}
