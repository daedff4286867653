/**
 * `extractBloombergContent` (src/gas-proxy.js): the article title, the body
 * chosen by a prioritized list of container patterns, and the clean-up of
 * that body.
 */
module ArticleExtractor {
  import opened Wrappers
  import opened Text
  import opened TagPattern
  import opened Sanitizer

  /** `/<h1[^>]*>([\s\S]*?)<\/h1>/i`. */
  const Heading := Pattern("h1", NoAttr)

  /** `s.replace(/<[^>]*>/g, '')`: every `<` up to the first `>` after it is deleted. */
  function StripTags(s: string): (r: string)
    decreases |s|
    ensures |r| <= |s|
  {
    match NextSpan(s)
    case None => s
    case Some((p, h)) => s[..p] + StripTags(s[h + 1..])
  }

  /** The first `<…>` span of `s`: its first `<` and the first `>` after it, if both exist. */
  function NextSpan(s: string): (r: Option<(nat, nat)>)
    ensures r.Some? ==> r.value.0 < r.value.1 < |s|
  {
    match FindChar(s, '<', 0)
    case None => None
    case Some(p) =>
      match FindChar(s, '>', p + 1)
      case None => None
      case Some(h) => Some((p, h))
  }

  /** Text without a `<…>` span is left as it is. */
  lemma StripTagsKeepsPlain(s: string)
    requires NoTagSpan(s)
    ensures StripTags(s) == s
  {
    if NextSpan(s).Some? {
      assert false;
    }
  }

  /**
   * The first `<…>` span (the first `<`, then up to the first `>` after it)
   * is deleted, the text before it is kept, and stripping goes on after it.
   */
  lemma StripTagsSpan(s: string, p: nat, h: nat)
    requires p < h < |s| && s[p] == '<' && s[h] == '>'
    requires forall j :: 0 <= j < p ==> s[j] != '<'
    requires forall j :: p < j < h ==> s[j] != '>'
    ensures StripTags(s) == s[..p] + StripTags(s[h + 1..])
  {
    FindCharIs(s, '<', 0, p);
    FindCharIs(s, '>', p + 1, h);
    assert NextSpan(s) == Some((p, h));
    StripTagsStep(s, p, h);
  }

  /** `(a + "<" + t + ">" + b).replace(/<[^>]*>/g, '')` is `a` followed by the stripped `b`. */
  lemma StripTagsConcat(a: string, t: string, b: string)
    requires forall j :: 0 <= j < |a| ==> a[j] != '<'
    requires forall j :: 0 <= j < |t| ==> t[j] != '>'
    ensures StripTags(a + "<" + t + ">" + b) == a + StripTags(b)
  {
    var s := a + "<" + t + ">" + b;
    var p, h := |a|, |a| + 1 + |t|;
    forall j | 0 <= j < p ensures s[j] != '<' {
      assert s[j] == a[j];
    }
    forall j | p < j < h ensures s[j] != '>' {
      assert s[j] == t[j - p - 1];
    }
    StripTagsSpan(s, p, h);
    assert s[h + 1..] == b && s[..p] == a;
  }

  /** No `<` in `t` has a `>` anywhere after it: no `<…>` span is left. */
  predicate NoTagSpan(t: string) {
    forall i, j :: 0 <= i < j < |t| && t[i] == '<' ==> t[j] != '>'
  }

  /** After stripping, no `<…>` span is left. */
  lemma {:induction false} StripTagsLeavesNoSpan(s: string)
    decreases |s|
    ensures NoTagSpan(StripTags(s))
  {
    FindCharFirst(s, '<', 0);
    match FindChar(s, '<', 0) {
      case None =>
        NoTagSpanTail(s, |s|);
      case Some(p) =>
        FindCharFirst(s, '>', p + 1);
        match FindChar(s, '>', p + 1) {
          case None =>
            NoTagSpanTail(s, p);
          case Some(h) =>
            StripTagsLeavesNoSpan(s[h + 1..]);
            var a := s[..p];
            forall i | 0 <= i < |a|
              ensures a[i] != '<'
            {
              assert a[i] == s[i];
            }
            NoTagSpanPrefix(a, StripTags(s[h + 1..]));
            assert NextSpan(s) == Some((p, h));
            StripTagsStep(s, p, h);
        }
    }
  }

  /** One deleted span: the text before it is kept and stripping goes on after it. */
  lemma StripTagsStep(s: string, p: nat, h: nat)
    requires NextSpan(s) == Some((p, h))
    ensures StripTags(s) == s[..p] + StripTags(s[h + 1..])
  {
  }

  /** `s` has no span when no `<` comes before `p` and no `>` after it. */
  lemma NoTagSpanTail(s: string, p: nat)
    requires p <= |s|
    requires forall j :: 0 <= j < p ==> s[j] != '<'
    requires forall j :: p + 1 <= j < |s| ==> s[j] != '>'
    ensures NoTagSpan(s)
  {
  }

  /** Text without `<` put in front of a string without `<…>` spans adds none. */
  lemma NoTagSpanPrefix(a: string, b: string)
    requires forall i :: 0 <= i < |a| ==> a[i] != '<'
    requires NoTagSpan(b)
    ensures NoTagSpan(a + b)
  {
    forall i, j | 0 <= i < j < |a + b| && (a + b)[i] == '<'
      ensures (a + b)[j] != '>'
    {
      if i >= |a| {
        assert (a + b)[i] == b[i - |a|] && (a + b)[j] == b[j - |a|];
      }
    }
  }

  /** A piece cut out of a string without `<…>` spans has none either. */
  lemma NoTagSpanSlice(t: string, lo: nat, hi: nat)
    requires lo <= hi <= |t| && NoTagSpan(t)
    ensures NoTagSpan(t[lo..hi])
  {
    var u := t[lo..hi];
    forall i, j | 0 <= i < j < |u| && u[i] == '<'
      ensures u[j] != '>'
    {
      assert u[i] == t[lo + i] && u[j] == t[lo + j];
    }
  }

  /** The capture of the leftmost match of `pat` in `s`, if any (`s.match(re)[1]`). */
  function FirstCapture(s: string, pat: Pattern): (r: Option<string>)
    ensures r.Some? <==> MatchFrom(s, pat, 0).Some?
  {
    match MatchFrom(s, pat, 0)
    case None => None
    case Some(m) =>
      MatchShape(s, pat, 0);
      Some(Capture(s, m))
  }

  /**
   * The title: the first `<h1…>` element's content with every `<…>` span
   * removed and white space trimmed; "" when the page has no such element.
   */
  function Title(html: string): (r: string)
    ensures FirstCapture(html, Heading).None? ==> r == ""
    ensures FirstCapture(html, Heading).Some? ==> r == Trim(StripTags(FirstCapture(html, Heading).value))
    ensures NoTagSpan(r)
    ensures r == "" || (!IsJsSpace(r[0]) && !IsJsSpace(r[|r| - 1]))
  {
    match FirstCapture(html, Heading)
    case None => ""
    case Some(c) => TitleText(c)
  }

  /** A heading's content with its `<…>` spans removed and then trimmed. */
  function TitleText(c: string): (r: string)
    ensures r == Trim(StripTags(c))
    ensures NoTagSpan(r)
    ensures r == "" || (!IsJsSpace(r[0]) && !IsJsSpace(r[|r| - 1]))
  {
    var stripped := StripTags(c);
    StripTagsLeavesNoSpan(c);
    var r := Trim(stripped);
    NoTagSpanSlice(stripped, LeadingSpace(stripped), LeadingSpace(stripped) + |r|);
    r
  }

  /** The body container patterns, in priority order. */
  const BodyCopy := Pattern("div", ClassContains("body-copy"))
  const ArticleBodyComponent := Pattern("div", Literal("data-component=\"article-body\""))
  const ArticleBodyClass := Pattern("div", ClassContains("article-body"))
  const ArticleElement := Pattern("article", NoAttr)
  const BodySelectors := [BodyCopy, ArticleBodyComponent, ArticleBodyClass, ArticleElement]

  /** A capture passes the gate when it is longer than 500 characters. */
  const MinBodyLength := 500

  /** The capture of each body pattern, in priority order. */
  function Captures(html: string): (caps: seq<Option<string>>)
    ensures |caps| == |BodySelectors|
    ensures forall i :: 0 <= i < |caps| ==> caps[i] == FirstCapture(html, BodySelectors[i])
  {
    [FirstCapture(html, BodyCopy), FirstCapture(html, ArticleBodyComponent),
     FirstCapture(html, ArticleBodyClass), FirstCapture(html, ArticleElement)]
  }

  /**
   * The selector loop over `caps`, starting with `body`: each capture
   * replaces the body, and the first one longer than the gate ends the loop.
   */
  function ChooseBody(caps: seq<Option<string>>, body: string): (r: string)
    ensures r == body || Some(r) in caps
  {
    if caps == [] then body
    else match caps[0]
      case None => ChooseBody(caps[1..], body)
      case Some(c) => if |c| > MinBodyLength then c else ChooseBody(caps[1..], c)
  }

  /** One round of the selector loop, at position `i` of `caps`. */
  lemma ChooseStep(caps: seq<Option<string>>, i: nat, body: string)
    requires i < |caps|
    ensures caps[i].None? ==> ChooseBody(caps[i..], body) == ChooseBody(caps[i + 1..], body)
    ensures caps[i].Some? && |caps[i].value| > MinBodyLength ==> ChooseBody(caps[i..], body) == caps[i].value
    ensures caps[i].Some? && |caps[i].value| <= MinBodyLength ==>
      ChooseBody(caps[i..], body) == ChooseBody(caps[i + 1..], caps[i].value)
  {
    assert caps[i..][0] == caps[i] && caps[i..][1..] == caps[i + 1..];
  }

  /** The first capture that passes the gate is chosen: later patterns are not consulted. */
  lemma {:induction false} ChooseFirstLong(caps: seq<Option<string>>, body: string, i: nat)
    requires i < |caps| && caps[i].Some? && |caps[i].value| > MinBodyLength
    requires forall j :: 0 <= j < i ==> caps[j].None? || |caps[j].value| <= MinBodyLength
    ensures ChooseBody(caps, body) == caps[i].value
  {
    if i > 0 {
      var next := if caps[0].Some? then caps[0].value else body;
      ChooseFirstLong(caps[1..], next, i - 1);
    }
  }

  /**
   * When no capture passes the gate, the capture of the last pattern that
   * matched is chosen, however short (even empty) it is.
   */
  lemma {:induction false} ChooseLastMatch(caps: seq<Option<string>>, body: string, i: nat)
    requires forall j :: 0 <= j < |caps| ==> caps[j].None? || |caps[j].value| <= MinBodyLength
    requires i < |caps| && caps[i].Some?
    requires forall j :: i < j < |caps| ==> caps[j].None?
    ensures ChooseBody(caps, body) == caps[i].value
  {
    var next := if caps[0].Some? then caps[0].value else body;
    if i > 0 {
      ChooseLastMatch(caps[1..], next, i - 1);
    } else {
      ChooseNoMatch(caps[1..], next);
    }
  }

  /** When no pattern matches, the body keeps its initial value. */
  lemma {:induction false} ChooseNoMatch(caps: seq<Option<string>>, body: string)
    requires forall j :: 0 <= j < |caps| ==> caps[j].None?
    ensures ChooseBody(caps, body) == body
  {
    if caps != [] {
      ChooseNoMatch(caps[1..], body);
    }
  }

  /** The selector loop of `extractBloombergContent`, with its early `break`. */
  method SelectBody(html: string) returns (body: string)
    ensures body == ChooseBody(Captures(html), "")
  {
    ghost var caps := Captures(html);
    body := "";
    var i := 0;
    while i < |BodySelectors|
      invariant 0 <= i <= |BodySelectors|
      invariant ChooseBody(caps, "") == ChooseBody(caps[i..], body)
    {
      var found := FirstCapture(html, BodySelectors[i]);
      ChooseStep(caps, i, body);
      if found.Some? {
        body := found.value;
        if |body| > MinBodyLength {
          break;
        }
      }
      i := i + 1;
    }
  }

  /** The fixed message used when no body was found. */
  const FailureMessage := "本文の抽出に失敗しました。ロジックの調整が必要です。"
  const PlaceholderOpen := "<p style=\"color:red\">"
  const PlaceholderClose := "</p>"
  const Placeholder := PlaceholderOpen + FailureMessage + PlaceholderClose

  /** The body before clean-up: the selected capture, or the placeholder exactly when that is "". */
  function WithPlaceholder(body: string): (r: string)
    ensures r == Placeholder <== body == ""
    ensures body != "" ==> r == body
  {
    if body == "" then Placeholder else body
  }

  /**
   * The seven clean-up replacements, in order. The cleaned body never
   * contains a link opening `<a ` or a `</a>`, in any case.
   */
  function Clean(body: string): (r: string)
    ensures NoneCI(r, AnchorOpen) && NoneCI(r, AnchorClose)
  {
    var s1 := RemoveAll(body, ScriptElement, 0);
    var s2 := RemoveAll(s1, StyleElement, 0);
    var s3 := RemoveAll(s2, IframeElement, 0);
    var s4 := RemoveAll(s3, ButtonElement, 0);
    var s5 := RewriteSrc(s4, 0);
    var s6 := ReplaceAllCI(s5, AnchorOpen, SpanOpen, 0);
    NoAnchorOpenLeft(s5);
    AnchorCloseKeepsNoOpen(s6);
    ReplaceAllCI(s6, AnchorClose, SpanClose, 0)
  }

  /** `extractBloombergContent(html)`: the title and the cleaned body. */
  method ExtractBloombergContent(html: string) returns (title: string, body: string)
    ensures title == Title(html)
    ensures body == Clean(WithPlaceholder(ChooseBody(Captures(html), "")))
  {
    title := Title(html);
    body := SelectBody(html);
    if body == "" {
      body := Placeholder;
    }
    body := RemoveAll(body, ScriptElement, 0);
    body := RemoveAll(body, StyleElement, 0);
    body := RemoveAll(body, IframeElement, 0);
    body := RemoveAll(body, ButtonElement, 0);
    body := RewriteSrc(body, 0);
    body := ReplaceAllCI(body, AnchorOpen, SpanOpen, 0);
    body := ReplaceAllCI(body, AnchorClose, SpanClose, 0);
  }

  lemma FailureMessageNonAscii()
    ensures forall j :: 0 <= j < |FailureMessage| ==> FailureMessage[j] as int >= 128
  {
  }

  /** Every `<` of the placeholder opens `<p` or `</p`, and every `/` follows a `<`. */
  lemma PlaceholderShape()
    ensures forall j :: 0 <= j < |Placeholder| && Placeholder[j] == '<' ==>
      j + 2 < |Placeholder| && (Placeholder[j + 1] == 'p' || (Placeholder[j + 1] == '/' && Placeholder[j + 2] == 'p'))
    ensures forall j :: 0 <= j < |Placeholder| && Placeholder[j] == '/' ==> j > 0 && Placeholder[j - 1] == '<'
  {
    FailureMessageNonAscii();
    ShapeOfWrapped(PlaceholderOpen, FailureMessage);
  }

  /**
   * `a + m + "</p>"` has the placeholder's shape when `a` opens with its
   * only `<`, followed by `p`, and neither `a` nor `m` holds a `/`.
   */
  lemma ShapeOfWrapped(a: string, m: string)
    requires |a| >= 2 && a[0] == '<' && a[1] == 'p'
    requires forall k :: 0 <= k < |a| ==> a[k] != '/' && (k > 0 ==> a[k] != '<')
    requires forall k :: 0 <= k < |m| ==> m[k] as int >= 128
    ensures var P := a + m + PlaceholderClose;
      forall j :: 0 <= j < |P| && P[j] == '<' ==> j + 2 < |P| && (P[j + 1] == 'p' || (P[j + 1] == '/' && P[j + 2] == 'p'))
    ensures var P := a + m + PlaceholderClose;
      forall j :: 0 <= j < |P| && P[j] == '/' ==> j > 0 && P[j - 1] == '<'
  {
    var P := a + m + PlaceholderClose;
    var n := |a| + |m|;
    forall j | 0 <= j < |P| && (P[j] == '<' || P[j] == '/')
      ensures P[j] == '<' ==> j + 2 < |P| && (P[j + 1] == 'p' || (P[j + 1] == '/' && P[j + 2] == 'p'))
      ensures P[j] == '/' ==> j > 0 && P[j - 1] == '<'
    {
      if j < |a| {
        assert P[j] == a[j] && j == 0 && P[1] == a[1];
      } else if j >= n {
        assert P[n] == '<' && P[n + 1] == '/' && P[n + 2] == 'p';
      }
    }
  }

  /**
   * The placeholder holds no `q` that starts with `<` followed by neither
   * `p` nor `/p`.
   */
  lemma PlaceholderLacks(q: string)
    requires |q| >= 3 && q[0] == '<' && q[1] != 'p' && (q[1] == '/' ==> q[2] != 'p')
    ensures forall j :: 0 <= j ==> !OccursAtCI(Placeholder, j, q)
  {
    var P := Placeholder;
    PlaceholderShape();
    forall j | 0 <= j
      ensures !OccursAtCI(P, j, q)
    {
      if 0 <= j && j + |q| <= |P| {
        if P[j] != '<' {
          assert Lower(P[j]) != q[0];
        } else if P[j + 1] == 'p' {
          assert Lower(P[j + 1]) != q[1];
        } else {
          assert Lower(P[j + 1]) == '/' && Lower(P[j + 2]) == 'p';
        }
      }
    }
  }

  /** No removal pass finds an element in the placeholder. */
  lemma PlaceholderHasNoRemovable(pat: Pattern)
    requires |pat.tag| >= 2 && pat.tag[0] != 'p' && pat.tag[0] != '/'
    ensures RemoveAll(Placeholder, pat, 0) == Placeholder
  {
    PlaceholderLacks(Open(pat));
    RemoveAllWithoutOpenTag(Placeholder, pat);
  }

  /** The placeholder has no `src="/`. */
  lemma PlaceholderHasNoSrc()
    ensures RewriteSrc(Placeholder, 0) == Placeholder
  {
    var P := Placeholder;
    PlaceholderShape();
    forall p | 0 <= p
      ensures SrcAt(P, p).None?
    {
      if p + 6 <= |P| {
        if P[p + 5] == '/' {
          assert P[p + 4] != "src=\"/"[4];
        } else {
          assert P[p + 5] != "src=\"/"[5];
        }
      }
    }
  }

  /** The placeholder has neither `<a ` nor `</a>`. */
  lemma PlaceholderHasNoAnchor(lit: string, rep: string)
    requires lit == AnchorOpen || lit == AnchorClose
    ensures ReplaceAllCI(Placeholder, lit, rep, 0) == Placeholder
  {
    PlaceholderLacks(lit);
    FindCIFirst(Placeholder, lit, 0);
    assert Placeholder[0..] == Placeholder;
  }

  /** The placeholder passes through the whole clean-up unchanged. */
  lemma PlaceholderSurvivesClean()
    ensures Clean(Placeholder) == Placeholder
  {
    PlaceholderHasNoRemovable(ScriptElement);
    PlaceholderHasNoRemovable(StyleElement);
    PlaceholderHasNoRemovable(IframeElement);
    PlaceholderHasNoRemovable(ButtonElement);
    PlaceholderHasNoSrc();
    PlaceholderHasNoAnchor(AnchorOpen, SpanOpen);
    PlaceholderHasNoAnchor(AnchorClose, SpanClose);
  }
}
