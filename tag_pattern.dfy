/**
 * A scanner for the one shape of regular expression that
 * `extractBloombergContent` (src/gas-proxy.js) matches with the `i` flag:
 *
 *   `<TAG[^>]*>([\s\S]*?)<\/TAG>`                      (no attribute test)
 *   `<TAG[^>]*LIT[^>]*>([\s\S]*?)<\/TAG>`              (a literal attribute)
 *   `<TAG[^>]*class="[^"]*WORD[^"]*"[^>]*>([\s\S]*?)<\/TAG>`
 *
 * A JavaScript regular expression reports the leftmost start position at
 * which some way of matching succeeds; among the ways, the backtracking
 * order tries the longest run for the greedy `[^>]*` right after the tag
 * name first. Every later piece is then forced: `[^"]*` stops at the first
 * quote, `[^>]*>` at the first `>`, and the lazy `[\s\S]*?` at the first
 * closing tag. The scanner follows exactly that order.
 */
module TagPattern {
  import opened Wrappers
  import opened Text

  /** What stands between the tag name and the `>` of the opening tag. */
  datatype AttrTest =
    | NoAttr                      // nothing required
    | Literal(lit: string)        // a fixed text, lower case, without `>`
    | ClassContains(word: string) // `class="…WORD…"`, WORD lower case, without `"`

  /** A pattern: a lower-case tag name and an attribute test. */
  datatype Pattern = Pattern(tag: string, attr: AttrTest)

  /**
   * A match: it starts at `start` with `<TAG`; the first `[^>]*` ends at
   * `split`; the capture is `s[contentStart..contentEnd]`; the closing tag
   * ends at `end`.
   */
  datatype Match = Match(start: nat, split: nat, contentStart: nat, contentEnd: nat, end: nat)

  function Open(pat: Pattern): string { "<" + pat.tag }

  function Close(pat: Pattern): string { "</" + pat.tag + ">" }

  /** The text a match captures (group 1). */
  function Capture(s: string, m: Match): string
    requires m.contentStart <= m.contentEnd <= |s|
  {
    s[m.contentStart..m.contentEnd]
  }

  /** `[^>]*` starting at `t` can run at most up to the first `>` (or the end of `s`). */
  function Hi(s: string, t: nat): (h: nat)
    requires t <= |s|
    ensures t <= h <= |s|
    ensures h < |s| ==> s[h] == '>'
  {
    match FindChar(s, '>', t)
    case None => |s|
    case Some(h) => h
  }

  /** No `>` lies before `Hi`: a run of `[^>]*` from `t` can end anywhere in `t..Hi(s, t)` and nowhere else. */
  lemma HiFirst(s: string, t: nat)
    requires t <= |s|
    ensures forall j :: t <= j < Hi(s, t) ==> s[j] != '>'
  {
    FindCharFirst(s, '>', t);
  }

  /** Some word occurrence lies inside `s[lo..hi]`, ignoring ASCII case. */
  predicate ContainsCI(s: string, lo: nat, hi: nat, word: string) {
    exists j :: lo <= j && j + |word| <= hi && OccursAtCI(s, j, word)
  }

  /**
   * Where the attribute test, started at `a`, leaves off: for a literal,
   * just after it; for a class test, just after the closing quote of
   * `class="`, which is the first quote after it, provided the word occurs
   * before that quote. None when the test fails at `a`.
   */
  function AttrEnd(s: string, attr: AttrTest, a: nat): (x: Option<nat>)
    requires a <= |s|
    ensures x.Some? ==> a <= x.value <= |s|
  {
    match attr
    case NoAttr => Some(a)
    case Literal(lit) => if OccursAtCI(s, a, lit) then Some(a + |lit|) else None
    case ClassContains(word) =>
      if !OccursAtCI(s, a, "class=\"") then None
      else match FindChar(s, '"', a + 7)
        case None => None
        case Some(e) =>
          match FindCI(s, word, a + 7)
          case None => None
          case Some(j) => if j + |word| <= e then Some(e + 1) else None
  }

  /**
   * The attribute tests in declarative terms: no test always passes; a
   * literal passes exactly where it occurs; a class test passes exactly when
   * `class="` occurs at `a` and the word occurs before the first quote after
   * it, and it then ends just after that quote.
   */
  lemma AttrEndMeaning(s: string, attr: AttrTest, a: nat)
    requires a <= |s|
    ensures attr.NoAttr? ==> AttrEnd(s, attr, a) == Some(a)
    ensures attr.Literal? ==>
      AttrEnd(s, attr, a) == if OccursAtCI(s, a, attr.lit) then Some(a + |attr.lit|) else None
    ensures attr.ClassContains? ==>
      (AttrEnd(s, attr, a).Some? <==>
        OccursAtCI(s, a, "class=\"") && exists e :: ClassValueHas(s, a, e, attr.word))
    ensures attr.ClassContains? && AttrEnd(s, attr, a).Some? ==>
      QuoteClosesAt(s, a + 7, AttrEnd(s, attr, a).value - 1)
  {
    if attr.ClassContains? && OccursAtCI(s, a, "class=\"") {
      var word := attr.word;
      FindCharFirst(s, '"', a + 7);
      FindCIFirst(s, word, a + 7);
      match FindChar(s, '"', a + 7) {
        case None =>
        case Some(e) =>
          assert QuoteClosesAt(s, a + 7, e);
          match FindCI(s, word, a + 7) {
            case None =>
            case Some(j) =>
              if j + |word| <= e {
                assert ClassValueHas(s, a, e, word);
              }
          }
      }
    }
  }

  /** The value of the `class="` at `a` ends at the quote `e` and contains `word`. */
  predicate ClassValueHas(s: string, a: nat, e: nat, word: string) {
    QuoteClosesAt(s, a + 7, e) && ContainsCI(s, a + 7, e, word)
  }

  /** The first quote at or after `lo` is at `e`. */
  predicate QuoteClosesAt(s: string, lo: nat, e: nat) {
    lo <= e < |s| && s[e] == '"' && forall j :: lo <= j < e ==> s[j] != '"'
  }

  /** With the first `[^>]*` ending at `a`, the rest of the pattern is forced: this is its outcome. */
  function TryAt(s: string, pat: Pattern, p: nat, a: nat): (r: Option<Match>)
    requires a <= |s|
    ensures r.Some? ==> r.value.start == p && r.value.split == a
    ensures r.Some? ==> a < r.value.contentStart <= r.value.contentEnd < r.value.end <= |s|
  {
    match AttrEnd(s, pat.attr, a)
    case None => None
    case Some(x) =>
      match FindChar(s, '>', x)
      case None => None
      case Some(h) =>
        match FindCI(s, Close(pat), h + 1)
        case None => None
        case Some(d) => Some(Match(p, a, h + 1, d, d + |Close(pat)|))
  }

  /**
   * Backtracking over the first `[^>]*`: the runs ending at `a`, `a - 1`,
   * … down to `t` are tried in turn, and the first one that `works` is taken.
   */
  function SplitDown(works: nat -> bool, t: nat, a: nat): (r: Option<nat>)
    requires t <= a
    decreases a
    ensures r.Some? ==> t <= r.value <= a && works(r.value)
  {
    if works(a) then Some(a)
    else if a == t then None
    else SplitDown(works, t, a - 1)
  }

  /** The split `SplitDown` settles on is the greatest one that works, and it settles on none only when none does. */
  lemma {:induction false} SplitDownGreatest(works: nat -> bool, t: nat, a: nat)
    requires t <= a
    decreases a
    ensures var r := SplitDown(works, t, a);
      r.Some? ==> forall b :: r.value < b <= a ==> !works(b)
    ensures SplitDown(works, t, a).None? ==> forall b :: t <= b <= a ==> !works(b)
  {
    if !works(a) && a > t {
      SplitDownGreatest(works, t, a - 1);
    }
  }

  /** The first `[^>]*` of a match at `p` may end at `a`: the rest of the pattern matches after it. */
  function SplitWorks(s: string, pat: Pattern, p: nat): nat -> bool {
    (a: nat) => a <= |s| && TryAt(s, pat, p, a).Some?
  }

  /**
   * The match starting at `p`, if the pattern matches there: `<TAG` at `p`,
   * then the longest run of the first `[^>]*` that lets the rest match.
   */
  function MatchAt(s: string, pat: Pattern, p: nat): (r: Option<Match>)
    ensures r.Some? ==> OccursAtCI(s, p, Open(pat)) && r.value.start == p
    ensures r.Some? ==>
      var t := p + |Open(pat)|;
      t <= r.value.split <= Hi(s, t) && TryAt(s, pat, p, r.value.split) == r
      && forall b :: r.value.split < b <= Hi(s, t) ==> !SplitWorks(s, pat, p)(b)
    ensures r.None? && OccursAtCI(s, p, Open(pat)) ==>
      var t := p + |Open(pat)|;
      forall b :: t <= b <= Hi(s, t) ==> !SplitWorks(s, pat, p)(b)
  {
    if !OccursAtCI(s, p, Open(pat)) then None
    else
      var t := p + |Open(pat)|;
      SplitDownGreatest(SplitWorks(s, pat, p), t, Hi(s, t));
      match SplitDown(SplitWorks(s, pat, p), t, Hi(s, t))
      case None => None
      case Some(a) => TryAt(s, pat, p, a)
  }

  /** The first index in `from..end` where `found` holds, if any. */
  function FirstAt(found: nat -> bool, from: nat, end: nat): (r: Option<nat>)
    decreases end - from
    ensures r.Some? ==> from <= r.value < end && found(r.value)
  {
    if from >= end then None
    else if found(from) then Some(from)
    else FirstAt(found, from + 1, end)
  }

  /** `FirstAt` returns the first such index, and None only when there is none. */
  lemma {:induction false} FirstAtLeast(found: nat -> bool, from: nat, end: nat)
    decreases end - from
    ensures var r := FirstAt(found, from, end);
      r.Some? ==> forall q :: from <= q < r.value ==> !found(q)
    ensures FirstAt(found, from, end).None? ==> forall q :: from <= q < end ==> !found(q)
  {
    if from < end && !found(from) {
      FirstAtLeast(found, from + 1, end);
    }
  }

  /** `FirstAt` returns `q` when `q` is the first index from `from` on where `found` holds. */
  lemma {:induction false} FirstAtIs(found: nat -> bool, from: nat, end: nat, q: nat)
    requires from <= q < end && found(q)
    requires forall j :: from <= j < q ==> !found(j)
    decreases q - from
    ensures FirstAt(found, from, end) == Some(q)
  {
    if from < q {
      FirstAtIs(found, from + 1, end, q);
    }
  }

  /** The pattern matches at `q`. */
  function MatchesAt(s: string, pat: Pattern): nat -> bool {
    (q: nat) => MatchAt(s, pat, q).Some?
  }

  /**
   * `s.match(re)` restricted to starts at or after `from`: the match at the
   * first position where there is one (see `MatchFromLeftmost`).
   */
  function MatchFrom(s: string, pat: Pattern, from: nat): (r: Option<Match>)
    ensures r.Some? ==> from <= r.value.start && MatchAt(s, pat, r.value.start) == r
  {
    match FirstAt(MatchesAt(s, pat), from, |s|)
    case None => None
    case Some(q) => MatchAt(s, pat, q)
  }

  /** The reported match is the leftmost one, and there is none when nothing matches from `from` on. */
  lemma MatchFromLeftmost(s: string, pat: Pattern, from: nat)
    ensures var r := MatchFrom(s, pat, from);
      r.Some? ==> forall q :: from <= q < r.value.start ==> MatchAt(s, pat, q).None?
    ensures MatchFrom(s, pat, from).None? ==> forall q :: from <= q ==> MatchAt(s, pat, q).None?
  {
    FirstAtLeast(MatchesAt(s, pat), from, |s|);
    forall q | from <= q && (MatchFrom(s, pat, from).None? || q < MatchFrom(s, pat, from).value.start)
      ensures MatchAt(s, pat, q).None?
    {
      if q < |s| {
        assert !MatchesAt(s, pat)(q);
      }
    }
  }

  /** The match reported from `from` on is the one at the first start `p` where the pattern matches. */
  lemma MatchFromIs(s: string, pat: Pattern, from: nat, p: nat)
    requires from <= p && MatchAt(s, pat, p).Some?
    requires forall q :: from <= q < p ==> MatchAt(s, pat, q).None?
    ensures MatchFrom(s, pat, from) == MatchAt(s, pat, p)
  {
    FirstAtIs(MatchesAt(s, pat), from, |s|, p);
  }

  /**
   * Without an attribute test, a match at `p` opens with `<TAG` and ends its
   * opening tag at the first `>` after the name; the capture runs from there
   * to the first closing tag.
   */
  lemma MatchAtNoAttr(s: string, pat: Pattern, p: nat, h: nat, d: nat)
    requires pat.attr.NoAttr? && OccursAtCI(s, p, Open(pat))
    requires p + |Open(pat)| <= h < |s| && s[h] == '>'
    requires forall j :: p + |Open(pat)| <= j < h ==> s[j] != '>'
    requires h < d && OccursAtCI(s, d, Close(pat))
    requires forall j :: h < j < d ==> !OccursAtCI(s, j, Close(pat))
    ensures MatchAt(s, pat, p) == Some(Match(p, h, h + 1, d, d + |Close(pat)|))
  {
    var t := p + |Open(pat)|;
    FindCharIs(s, '>', t, h);
    assert Hi(s, t) == h;
    TryAtNoAttr(s, pat, p, h, d);
    assert SplitWorks(s, pat, p)(h);
  }

  /** Without an attribute test, the rest of the pattern after a split at a `>` is forced. */
  lemma TryAtNoAttr(s: string, pat: Pattern, p: nat, h: nat, d: nat)
    requires pat.attr.NoAttr? && h < |s| && s[h] == '>'
    requires h < d && OccursAtCI(s, d, Close(pat))
    requires forall j :: h < j < d ==> !OccursAtCI(s, j, Close(pat))
    ensures TryAt(s, pat, p, h) == Some(Match(p, h, h + 1, d, d + |Close(pat)|))
  {
    FindCharIs(s, '>', h, h);
    FindCIIs(s, Close(pat), h + 1, d);
  }

  /**
   * What every match satisfies, whatever the attribute test: it opens with
   * `<TAG` and the first `>` after the attribute part, it ends with the
   * nearest closing tag after that `>`, so the capture holds no closing tag
   * of the same name (nested elements are not balanced).
   */
  lemma MatchShape(s: string, pat: Pattern, from: nat)
    requires MatchFrom(s, pat, from).Some?
    ensures Shaped(s, pat, MatchFrom(s, pat, from).value)
  {
    MatchAtShape(s, pat, MatchFrom(s, pat, from).value.start);
  }

  /**
   * The shape of a match `m` of `pat` in `s`: `<TAG` at its start, no `>`
   * in the first `[^>]*`, the attribute test passing at its end, the first
   * `>` after the test just before the capture, the closing tag right after
   * it and none inside it.
   */
  predicate Shaped(s: string, pat: Pattern, m: Match) {
    OccursAtCI(s, m.start, Open(pat))
    && m.start + |Open(pat)| <= m.split < m.contentStart <= m.contentEnd < m.end <= |s|
    && (forall j :: m.start + |Open(pat)| <= j < m.split ==> s[j] != '>')
    && AttrEnd(s, pat.attr, m.split).Some? && AttrEnd(s, pat.attr, m.split).value < m.contentStart
    && s[m.contentStart - 1] == '>'
    && (forall j :: AttrEnd(s, pat.attr, m.split).value <= j < m.contentStart - 1 ==> s[j] != '>')
    && OccursAtCI(s, m.contentEnd, Close(pat)) && m.end == m.contentEnd + |Close(pat)|
    && forall j :: m.contentStart <= j < m.contentEnd ==> !OccursAtCI(s, j, Close(pat))
  }

  /** Every match at a given start has that shape. */
  lemma MatchAtShape(s: string, pat: Pattern, p: nat)
    requires MatchAt(s, pat, p).Some?
    ensures Shaped(s, pat, MatchAt(s, pat, p).value)
  {
    var m := MatchAt(s, pat, p).value;
    assert TryAt(s, pat, p, m.split) == Some(m);
    HiFirst(s, p + |Open(pat)|);
    TryAtShape(s, pat, p, m.split);
  }

  lemma TryAtShape(s: string, pat: Pattern, p: nat, a: nat)
    requires a <= |s| && TryAt(s, pat, p, a).Some?
    ensures var m := TryAt(s, pat, p, a).value;
      AttrEnd(s, pat.attr, a).Some? && AttrEnd(s, pat.attr, a).value < m.contentStart
      && (forall j :: AttrEnd(s, pat.attr, a).value <= j < m.contentStart - 1 ==> s[j] != '>')
      && s[m.contentStart - 1] == '>' && OccursAtCI(s, m.contentEnd, Close(pat)) && m.end == m.contentEnd + |Close(pat)|
      && forall j :: m.contentStart <= j < m.contentEnd ==> !OccursAtCI(s, j, Close(pat))
  {
    var x := AttrEnd(s, pat.attr, a).value;
    var h := FindChar(s, '>', x).value;
    FindCharFirst(s, '>', x);
    FindCIFirst(s, Close(pat), h + 1);
  }

  /**
   * The opening test reads only `<TAG`: a longer tag name with the same
   * prefix, such as `<divider` for `div`, passes it too.
   */
  lemma LongerTagNameOpens(s: string, p: nat, pat: Pattern, more: string)
    requires OccursAtCI(s, p, Open(pat) + more)
    ensures OccursAtCI(s, p, Open(pat))
  {
    forall k | 0 <= k < |Open(pat)|
      ensures Lower(s[p + k]) == Open(pat)[k]
    {
      assert (Open(pat) + more)[k] == Open(pat)[k];
    }
  }

  /** The class test reads only `class="`: inside `data-class="` it passes just the same. */
  lemma ClassInsideDataClass(s: string, a: nat)
    requires OccursAtCI(s, a, "data-class=\"")
    ensures OccursAtCI(s, a + 5, "class=\"")
  {
    forall k | 0 <= k < 7
      ensures Lower(s[a + 5 + k]) == "class=\""[k]
    {
      assert Lower(s[a + (5 + k)]) == "data-class=\""[5 + k];
    }
  }
}
