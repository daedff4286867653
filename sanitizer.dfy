/**
 * The clean-up `replace` calls of `extractBloombergContent`
 * (src/gas-proxy.js): deleting whole script, style, iframe and button
 * elements, making root-relative image sources absolute, and turning links
 * into coloured spans. Each is a global replace: matches are found left to
 * right, each search resuming where the previous match ended.
 */
module Sanitizer {
  import opened Wrappers
  import opened Text
  import opened TagPattern

  /** The tag patterns of the four removal passes (`/<script[^>]*>[\s\S]*?<\/script>/gi` and so on). */
  const ScriptElement := Pattern("script", NoAttr)
  const StyleElement := Pattern("style", NoAttr)
  const IframeElement := Pattern("iframe", NoAttr)
  const ButtonElement := Pattern("button", NoAttr)

  /** `s.replace(re, '')` from index `from` on, for a global tag pattern `re`. */
  function RemoveAll(s: string, pat: Pattern, from: nat): (r: string)
    requires from <= |s|
    decreases |s| - from
    ensures |r| <= |s| - from
    ensures MatchFrom(s, pat, from).None? ==> r == s[from..]
    ensures MatchFrom(s, pat, from).Some? ==> |r| < |s| - from
  {
    match MatchFrom(s, pat, from)
    case None => s[from..]
    case Some(m) => s[from..m.start] + RemoveAll(s, pat, m.end)
  }

  /** A removal pass leaves a string without any `<TAG` (in any case) exactly as it was. */
  lemma RemoveAllWithoutOpenTag(s: string, pat: Pattern)
    requires forall j :: 0 <= j ==> !OccursAtCI(s, j, Open(pat))
    ensures RemoveAll(s, pat, 0) == s
  {
  }

  /** A removal pass changes its input exactly when the pattern matches somewhere. */
  lemma RemoveAllChanges(s: string, pat: Pattern)
    ensures RemoveAll(s, pat, 0) == s <==> MatchFrom(s, pat, 0).None?
  {
    assert s[0..] == s;
  }

  /**
   * The leftmost match from `from` on, at `p`, is deleted: the text before
   * it is kept and the pass goes on after the match.
   */
  lemma RemoveAllStep(s: string, pat: Pattern, from: nat, p: nat)
    requires from <= p && MatchAt(s, pat, p).Some?
    requires forall q :: from <= q < p ==> MatchAt(s, pat, q).None?
    ensures p < MatchAt(s, pat, p).value.end <= |s|
    ensures RemoveAll(s, pat, from) == s[from..p] + RemoveAll(s, pat, MatchAt(s, pat, p).value.end)
  {
    MatchAtShape(s, pat, p);
    MatchFromIs(s, pat, from, p);
  }

  /**
   * For the script, style, iframe and button passes: the first `<TAG` from
   * `from` on, its opening tag up to the first `>`, and everything up to and
   * including the first closing tag after it are deleted; the text before
   * the element is kept.
   */
  lemma RemoveElement(s: string, pat: Pattern, from: nat, p: nat, h: nat, d: nat)
    requires pat.attr.NoAttr? && from <= p && OccursAtCI(s, p, Open(pat))
    requires forall q :: from <= q < p ==> !OccursAtCI(s, q, Open(pat))
    requires p + |Open(pat)| <= h < |s| && s[h] == '>'
    requires forall j :: p + |Open(pat)| <= j < h ==> s[j] != '>'
    requires h < d && OccursAtCI(s, d, Close(pat))
    requires forall j :: h < j < d ==> !OccursAtCI(s, j, Close(pat))
    ensures RemoveAll(s, pat, from) == s[from..p] + RemoveAll(s, pat, d + |Close(pat)|)
  {
    MatchAtNoAttr(s, pat, p, h, d);
    RemoveAllStep(s, pat, from, p);
  }

  /**
   * The root-relative source at `p`, if `src="/([^"]+)"` matches there
   * (case-sensitive): the index of its closing quote, which is the first
   * quote after `src="/`, at least one character further on.
   */
  function SrcAt(s: string, p: nat): (q: Option<nat>)
    ensures q.Some? ==> OccursAt(s, p, "src=\"/") && p + 6 < q.value < |s| && s[q.value] == '"'
  {
    if !OccursAt(s, p, "src=\"/") then None
    else match FindChar(s, '"', p + 6)
      case None => None
      case Some(q) => if q > p + 6 then Some(q) else None
  }

  /** The value matched at `p`: non-empty, free of quotes, closed by a quote. */
  lemma SrcAtMeaning(s: string, p: nat)
    requires SrcAt(s, p).Some?
    ensures var q := SrcAt(s, p).value;
      s[p + 6..q] != "" && forall j :: p + 6 <= j < q ==> s[j] != '"'
  {
    FindCharFirst(s, '"', p + 6);
  }

  /** `src="/` at `p` followed by a non-empty, quote-free value and a quote is matched. */
  lemma SrcAtIs(s: string, p: nat, q: nat)
    requires OccursAt(s, p, "src=\"/") && p + 6 < q < |s| && s[q] == '"'
    requires forall j :: p + 6 <= j < q ==> s[j] != '"'
    ensures SrcAt(s, p) == Some(q)
  {
    FindCharIs(s, '"', p + 6, q);
  }

  /** `src="/"` (an empty path) is not matched. */
  lemma EmptySrcNotMatched(s: string, p: nat)
    requires OccursAt(s, p, "src=\"/\"")
    ensures SrcAt(s, p).None?
  {
    assert s[p + 6] == "src=\"/\""[6];
  }

  /** `data-src="/x"` holds a `src="/x"`, which is rewritten like any other. */
  lemma DataSrcMatches(s: string, p: nat)
    requires OccursAt(s, p, "data-src=\"/")
    ensures OccursAt(s, p + 5, "src=\"/")
  {
    forall k | 0 <= k < 6
      ensures s[p + 5 + k] == "src=\"/"[k]
    {
      assert s[p + (5 + k)] == "data-src=\"/"[5 + k];
    }
  }

  /**
   * A protocol-relative `src="//host/x"`, the first source from `from` on,
   * is matched too: its value `/host/x` gets the Bloomberg origin in front,
   * giving `src="https://www.bloomberg.com//host/x"`.
   */
  lemma ProtocolRelativeMatches(s: string, from: nat, p: nat, q: nat)
    requires from <= p && OccursAt(s, p, "src=\"//") && p + 7 <= q < |s| && s[q] == '"'
    requires forall j :: p + 7 <= j < q ==> s[j] != '"'
    requires forall j :: from <= j < p ==> SrcAt(s, j).None?
    ensures SrcAt(s, p) == Some(q)
    ensures RewriteSrc(s, from) ==
      s[from..p] + "src=\"" + BloombergOrigin + s[p + 6..q] + "\"" + RewriteSrc(s, q + 1)
    ensures s[p + 6..q] == "/" + s[p + 7..q]
  {
    DoubleSlashSrc(s, p);
    SrcAtIs(s, p, q);
    RewriteSrcStep(s, from, p, q);
    SliceCons(s, p + 6, q);
  }

  /** `src="//` at `p` holds `src="/` there, with a second `/` after it. */
  lemma DoubleSlashSrc(s: string, p: nat)
    requires OccursAt(s, p, "src=\"//")
    ensures OccursAt(s, p, "src=\"/") && s[p + 6] == '/'
  {
    forall k | 0 <= k < 6
      ensures s[p + k] == "src=\"/"[k]
    {
      assert s[p + k] == "src=\"//"[k];
    }
    assert s[p + 6] == "src=\"//"[6];
  }

  /** A non-empty slice is its first character followed by the rest. */
  lemma SliceCons(s: string, i: nat, j: nat)
    requires i < j <= |s|
    ensures s[i..j] == [s[i]] + s[i + 1..j]
  {
  }

  /** The leftmost source match at or after `from`. */
  function SrcFrom(s: string, from: nat): (r: Option<(nat, nat)>)
    decreases |s| - from
    ensures r.Some? ==> from <= r.value.0 && SrcAt(s, r.value.0) == Some(r.value.1)
    ensures r.Some? ==> forall p :: from <= p < r.value.0 ==> SrcAt(s, p).None?
    ensures r.None? ==> forall p :: from <= p ==> SrcAt(s, p).None?
  {
    if from >= |s| then None
    else match SrcAt(s, from)
      case Some(q) => Some((from, q))
      case None => SrcFrom(s, from + 1)
  }

  const BloombergOrigin := "https://www.bloomberg.com/"

  /** `s.replace(/src="\/([^"]+)"/g, 'src="https://www.bloomberg.com/$1"')` from index `from` on. */
  function RewriteSrc(s: string, from: nat): (r: string)
    requires from <= |s|
    decreases |s| - from
    ensures SrcFrom(s, from).None? ==> r == s[from..]
    ensures SrcFrom(s, from).Some? ==> |r| > |s| - from
  {
    match SrcFrom(s, from)
    case None => s[from..]
    case Some((p, q)) =>
      s[from..p] + "src=\"" + BloombergOrigin + s[p + 6..q] + "\"" + RewriteSrc(s, q + 1)
  }

  /** `SrcFrom` returns the first source match from `from` on. */
  lemma {:induction false} SrcFromIs(s: string, from: nat, p: nat, q: nat)
    requires from <= p && SrcAt(s, p) == Some(q)
    requires forall j :: from <= j < p ==> SrcAt(s, j).None?
    decreases p - from
    ensures SrcFrom(s, from) == Some((p, q))
  {
    if from < p {
      SrcFromIs(s, from + 1, p, q);
    }
  }

  /**
   * The first source match from `from` on, `src="/X"` at `p` with its quote
   * at `q`, becomes `src="https://www.bloomberg.com/X"`; the text before it
   * is kept and the pass goes on after the quote.
   */
  lemma RewriteSrcStep(s: string, from: nat, p: nat, q: nat)
    requires from <= p && SrcAt(s, p) == Some(q)
    requires forall j :: from <= j < p ==> SrcAt(s, j).None?
    ensures RewriteSrc(s, from) ==
      s[from..p] + "src=\"" + BloombergOrigin + s[p + 6..q] + "\"" + RewriteSrc(s, q + 1)
  {
    SrcFromIs(s, from, p, q);
  }

  /** The anchor rewrites: `/<a /gi` and `/<\/a>/gi`. */
  const AnchorOpen := "<a "
  const SpanOpen := "<span style=\"color:var(--accent-color)\" "
  const AnchorClose := "</a>"
  const SpanClose := "</span>"

  /** `s.replace(/LIT/gi, rep)` from index `from` on, for a literal (lower-case) pattern. */
  function ReplaceAllCI(s: string, lit: string, rep: string, from: nat): (r: string)
    requires lit != []
    requires from <= |s|
    decreases |s| - from
    ensures FindCI(s, lit, from).None? ==> r == s[from..]
  {
    match FindCI(s, lit, from)
    case None => s[from..]
    case Some(p) => s[from..p] + rep + ReplaceAllCI(s, lit, rep, p + |lit|)
  }

  /**
   * The first occurrence of `lit` from `from` on, in any case, is replaced
   * by `rep`; the text before it is kept and the pass goes on after it.
   */
  lemma ReplaceAllCIStep(s: string, lit: string, rep: string, from: nat, p: nat)
    requires lit != [] && from <= p && OccursAtCI(s, p, lit)
    requires forall j :: from <= j < p ==> !OccursAtCI(s, j, lit)
    ensures ReplaceAllCI(s, lit, rep, from) == s[from..p] + rep + ReplaceAllCI(s, lit, rep, p + |lit|)
  {
    FindCIIs(s, lit, from, p);
  }

  /** Text without `lit` in any case from `from` on is kept as it is. */
  lemma ReplaceAllCIKeeps(s: string, lit: string, rep: string, from: nat)
    requires lit != [] && from <= |s|
    requires forall j :: from <= j ==> !OccursAtCI(s, j, lit)
    ensures ReplaceAllCI(s, lit, rep, from) == s[from..]
    ensures from == 0 ==> ReplaceAllCI(s, lit, rep, from) == s
  {
    FindCIFirst(s, lit, from);
    assert s[0..] == s;
  }

  /**
   * The first anchor pass needs a space after `<a`: text in which every
   * `<a` or `<A` is followed by something else (`<a\thref`, `<abbr`, a
   * trailing `<a`) passes through unchanged.
   */
  lemma AnchorWithoutSpaceKept(s: string)
    requires forall j {:trigger s[j]} :: 0 <= j < |s| - 1 && s[j] == '<' && Lower(s[j + 1]) == 'a' ==>
      (j + 2 < |s| ==> s[j + 2] != ' ')
    ensures ReplaceAllCI(s, AnchorOpen, SpanOpen, 0) == s
  {
    NoAnchorOpenWithoutSpace(s);
    ReplaceAllCIKeeps(s, AnchorOpen, SpanOpen, 0);
  }

  lemma NoAnchorOpenWithoutSpace(s: string)
    requires forall j {:trigger s[j]} :: 0 <= j < |s| - 1 && s[j] == '<' && Lower(s[j + 1]) == 'a' ==>
      (j + 2 < |s| ==> s[j + 2] != ' ')
    ensures forall j :: 0 <= j ==> !OccursAtCI(s, j, AnchorOpen)
  {
    forall j | 0 <= j
      ensures !OccursAtCI(s, j, AnchorOpen)
    {
      if OccursAtCI(s, j, AnchorOpen) {
        OccursAtCIChars(s, j, AnchorOpen);
        LowerLt(s[j]);
      }
    }
  }

  /**
   * The second anchor pass needs `>` right after `</a`: text in which every
   * `</a` or `</A` is followed by something else (`</a >`, `</abbr>`, a
   * trailing `</a`) passes through unchanged.
   */
  lemma AnchorCloseWithoutGtKept(s: string)
    requires forall j {:trigger s[j]} :: 0 <= j < |s| - 2 && s[j] == '<' && s[j + 1] == '/' && Lower(s[j + 2]) == 'a' ==>
      (j + 3 < |s| ==> s[j + 3] != '>')
    ensures ReplaceAllCI(s, AnchorClose, SpanClose, 0) == s
  {
    NoAnchorCloseWithoutGt(s);
    ReplaceAllCIKeeps(s, AnchorClose, SpanClose, 0);
  }

  lemma NoAnchorCloseWithoutGt(s: string)
    requires forall j {:trigger s[j]} :: 0 <= j < |s| - 2 && s[j] == '<' && s[j + 1] == '/' && Lower(s[j + 2]) == 'a' ==>
      (j + 3 < |s| ==> s[j + 3] != '>')
    ensures forall j :: 0 <= j ==> !OccursAtCI(s, j, AnchorClose)
  {
    forall j | 0 <= j
      ensures !OccursAtCI(s, j, AnchorClose)
    {
      if OccursAtCI(s, j, AnchorClose) {
        OccursAtCIChars(s, j, AnchorClose);
        LowerLt(s[j]);
        LowerSlash(s[j + 1]);
      }
    }
  }

  /** `<` is the first character of `t` and appears nowhere else in it. */
  predicate LtOnlyFirst(t: string) {
    t != [] && t[0] == '<' && forall k :: 1 <= k < |t| ==> t[k] != '<'
  }

  /**
   * The replacement `rep` and the text `q` both begin with their only `<`,
   * `rep` is at least as long as `q`, and `rep` does not begin with `q`.
   */
  ghost predicate Gluable(rep: string, q: string) {
    LtOnlyFirst(rep) && LtOnlyFirst(q) && |q| <= |rep| && !OccursAtCI(rep, 0, q)
  }

  /** No ASCII-case-insensitive occurrence of `q` in `s` at or after `from`. */
  ghost predicate CleanFrom(s: string, q: string, from: nat) {
    forall j :: from <= j ==> !OccursAtCI(s, j, q)
  }

  /** No ASCII-case-insensitive occurrence of `q` anywhere in `s`. */
  predicate NoneCI(s: string, q: string) {
    forall j :: 0 <= j < |s| ==> !OccursAtCI(s, j, q)
  }

  lemma LowerLt(c: char)
    ensures Lower(c) == '<' <==> c == '<'
  {
  }

  lemma LowerSlash(c: char)
    ensures Lower(c) == '/' <==> c == '/'
  {
  }

  /** An occurrence of a short literal, character by character. */
  lemma OccursAtCIChars(s: string, j: nat, lit: string)
    requires OccursAtCI(s, j, lit) && 3 <= |lit|
    ensures Lower(s[j]) == lit[0] && Lower(s[j + 1]) == lit[1] && Lower(s[j + 2]) == lit[2]
    ensures |lit| >= 4 ==> Lower(s[j + 3]) == lit[3]
  {
    assert Lower(s[j + 0]) == lit[0];
  }

  /**
   * Gluing: `a + rep + b` holds no occurrence of `q` when `a` holds none that
   * fits inside it, `b` holds none, and `rep` and `q` both begin with their
   * only `<`, `rep` being at least as long as `q` and not starting with it.
   */
  lemma {:induction false} NoneCIConcat(a: string, rep: string, b: string, q: string)
    requires Gluable(rep, q)
    requires forall j :: 0 <= j && j + |q| <= |a| ==> !OccursAtCI(a, j, q)
    requires NoneCI(b, q)
    ensures NoneCI(a + rep + b, q)
  {
    var o := a + rep + b;
    forall j | 0 <= j < |o|
      ensures !OccursAtCI(o, j, q)
    {
      if j + |q| > |o| {
      } else if j + |q| <= |a| {
        assert !OccursAtCI(a, j, q);
        var k :| 0 <= k < |q| && Lower(a[j + k]) != q[k];
        assert o[j + k] == a[j + k];
      } else if j < |a| {
        var k := |a| - j;
        assert o[j + k] == rep[0];
        LowerLt(o[j + k]);
        assert Lower(o[j + k]) != q[k];
      } else if j == |a| {
        var k :| 0 <= k < |q| && Lower(rep[k]) != q[k];
        assert o[j + k] == rep[k];
      } else if j < |a| + |rep| {
        assert o[j] == rep[j - |a|];
        LowerLt(o[j]);
        assert Lower(o[j]) != q[0];
      } else {
        var j' := j - |a| - |rep|;
        assert !OccursAtCI(b, j', q);
        var k :| 0 <= k < |q| && Lower(b[j' + k]) != q[k];
        assert o[j + k] == b[j' + k];
      }
    }
  }

  /**
   * After `ReplaceAllCI(s, lit, rep, from)`, the text holds no occurrence of
   * `q` when `q` is `lit` itself, or when `s` holds none from `from` on;
   * `rep` and `q` begin with their only `<`, `rep` is at least as long as
   * `q` and holds none.
   */
  lemma {:induction false} ReplaceAllLeavesNone(s: string, lit: string, rep: string, from: nat, q: string)
    requires lit != [] && from <= |s|
    requires Gluable(rep, q)
    requires q == lit || CleanFrom(s, q, from)
    decreases |s| - from
    ensures NoneCI(ReplaceAllCI(s, lit, rep, from), q)
  {
    match FindCI(s, lit, from) {
      case None =>
        TailClean(s, lit, from, q);
      case Some(p) =>
        CleanFromLater(s, lit, q, from, p + |lit|);
        ReplaceAllLeavesNone(s, lit, rep, p + |lit|, q);
        ReplaceStepClean(s, lit, rep, from, p, q);
    }
  }

  lemma CleanFromLater(s: string, lit: string, q: string, from: nat, to: nat)
    requires q == lit || CleanFrom(s, q, from)
    requires from <= to
    ensures q == lit || CleanFrom(s, q, to)
  {
  }

  /** One replacement keeps the text clean of `q` when what follows it is clean. */
  lemma ReplaceStepClean(s: string, lit: string, rep: string, from: nat, p: nat, q: string)
    requires lit != [] && from <= |s| && FindCI(s, lit, from) == Some(p)
    requires Gluable(rep, q)
    requires q == lit || CleanFrom(s, q, from)
    requires NoneCI(ReplaceAllCI(s, lit, rep, p + |lit|), q)
    ensures NoneCI(ReplaceAllCI(s, lit, rep, from), q)
  {
    ReplaceAllUnfold(s, lit, rep, from, p);
    ChunkClean(s, lit, from, p, q);
    NoneCIConcat(s[from..p], rep, ReplaceAllCI(s, lit, rep, p + |lit|), q);
  }

  lemma ReplaceAllUnfold(s: string, lit: string, rep: string, from: nat, p: nat)
    requires lit != [] && from <= |s| && FindCI(s, lit, from) == Some(p)
    ensures p + |lit| <= |s|
    ensures ReplaceAllCI(s, lit, rep, from) == s[from..p] + rep + ReplaceAllCI(s, lit, rep, p + |lit|)
  {
  }

  /** With no `lit` left from `from` on, the rest of `s` holds no `q` under the same condition. */
  lemma TailClean(s: string, lit: string, from: nat, q: string)
    requires from <= |s| && FindCI(s, lit, from).None?
    requires q == lit || CleanFrom(s, q, from)
    ensures NoneCI(s[from..], q)
  {
    FindCIFirst(s, lit, from);
    forall j | 0 <= j < |s[from..]|
      ensures !OccursAtCI(s[from..], j, q)
    {
      OccursInSuffixCI(s, from, j, q);
    }
  }

  /** The text before the next `lit` holds no `q` that fits inside it. */
  lemma ChunkClean(s: string, lit: string, from: nat, p: nat, q: string)
    requires from <= |s| && |q| > 0 && FindCI(s, lit, from) == Some(p)
    requires q == lit || CleanFrom(s, q, from)
    ensures forall j :: 0 <= j && j + |q| <= |s[from..p]| ==> !OccursAtCI(s[from..p], j, q)
  {
    FindCIFirst(s, lit, from);
    var a := s[from..p];
    forall j | 0 <= j && j + |q| <= |a|
      ensures !OccursAtCI(a, j, q)
    {
      assert !OccursAtCI(s, from + j, q);
      var k :| 0 <= k < |q| && Lower(s[from + j + k]) != q[k];
      assert a[j + k] == s[from + j + k];
    }
  }

  /** After the first anchor pass no `<a ` is left, in either case. */
  lemma NoAnchorOpenLeft(s: string)
    ensures NoneCI(ReplaceAllCI(s, AnchorOpen, SpanOpen, 0), AnchorOpen)
  {
    SpansGlue();
    ReplaceAllLeavesNone(s, AnchorOpen, SpanOpen, 0, AnchorOpen);
  }

  /** The span tags that replace the anchor tags cannot complete an anchor tag. */
  lemma SpansGlue()
    ensures Gluable(SpanOpen, AnchorOpen)
    ensures Gluable(SpanClose, AnchorOpen) && Gluable(SpanClose, AnchorClose)
  {
    SpanOpenLtOnlyFirst();
    ShortTagsLtOnlyFirst();
    assert !OccursAtCI(SpanOpen, 0, AnchorOpen) by {
      assert Lower(SpanOpen[1]) != AnchorOpen[1];
    }
    assert !OccursAtCI(SpanClose, 0, AnchorOpen) by {
      assert Lower(SpanClose[1]) != AnchorOpen[1];
    }
    assert !OccursAtCI(SpanClose, 0, AnchorClose) by {
      assert Lower(SpanClose[2]) != AnchorClose[2];
    }
  }

  /** The anchor tags and the closing span tag have no `<` after their first character. */
  lemma ShortTagsLtOnlyFirst()
    ensures LtOnlyFirst(AnchorOpen) && LtOnlyFirst(AnchorClose) && LtOnlyFirst(SpanClose)
  {
  }

  /** The opening span tag has no `<` after its first character. */
  lemma SpanOpenLtOnlyFirst()
    ensures LtOnlyFirst(SpanOpen)
  {
  }

  /** The second anchor pass removes every `</a>` and brings back no `<a `. */
  lemma AnchorCloseKeepsNoOpen(s: string)
    requires NoneCI(s, AnchorOpen)
    ensures NoneCI(ReplaceAllCI(s, AnchorClose, SpanClose, 0), AnchorOpen)
    ensures NoneCI(ReplaceAllCI(s, AnchorClose, SpanClose, 0), AnchorClose)
  {
    SpansGlue();
    assert CleanFrom(s, AnchorOpen, 0);
    ReplaceAllLeavesNone(s, AnchorClose, SpanClose, 0, AnchorOpen);
    ReplaceAllLeavesNone(s, AnchorClose, SpanClose, 0, AnchorClose);
  }
}
