/**
 * `extractBodyData` (src/main.js): walks a Gmail payload's part tree,
 * collecting decoded `text/plain` data into a text buffer and `text/html`
 * data into an HTML buffer, then picks the HTML, a `<pre>` wrapping of the
 * text, or the snippet.
 */
module MimeBody {
  import opened Wrappers
  import opened Base64
  import opened PayloadDecoder
  import opened SeqFacts

  /**
   * The `parts` property of a message part: absent, or an array. An empty
   * array is still present (it is truthy in JavaScript).
   */
  datatype Parts = Absent | Present(list: seq<Part>)

  /**
   * A message part: `mimeType`, the `body.data` string (None when `body`
   * or its `data` is missing; the code treats both alike), and `parts`.
   */
  datatype Part = Part(mimeType: string, data: Option<string>, parts: Parts)

  /** The payload passed to `extractBodyData`: its own part fields and the `snippet` the code reads from it. */
  datatype Payload = Payload(root: Part, snippet: Option<string>)

  /** `node.body && node.body.data`: the data is present and not the empty string. */
  predicate HasData(p: Part) {
    p.data.Some? && p.data.value != ""
  }

  /**
   * A leaf whose data goes to one of the two buffers: the base64url `data`
   * and what `decodeUrlSafeBase64` makes of it.
   */
  datatype Leaf =
    | PlainLeaf(data: string, decoded: Result<string, DecodeError>)
    | HtmlLeaf(data: string, decoded: Result<string, DecodeError>)

  /**
   * The leaves `traverse` visits, depth first in child order: a `text/plain`
   * or `text/html` part with data is a leaf and is not descended into; any
   * other part with `parts` is descended into; the rest contribute nothing.
   */
  function Leaves(nodes: seq<Part>): (r: seq<Leaf>)
    decreases nodes
    ensures forall i :: 0 <= i < |r| ==> FromData(r[i])
  {
    if nodes == [] then []
    else
      var front, last := Leaves(nodes[..|nodes| - 1]), PartLeaves(nodes[|nodes| - 1]);
      FromDataAppend(front, last);
      front + last
  }

  /** The leaves under one part, each collected from non-empty data and decoded from it. */
  function PartLeaves(p: Part): (r: seq<Leaf>)
    decreases p
    ensures forall i :: 0 <= i < |r| ==> FromData(r[i])
  {
    if p.mimeType == "text/plain" && HasData(p) then [PlainLeaf(p.data.value, DecodeUrlSafeBase64(p.data))]
    else if p.mimeType == "text/html" && HasData(p) then [HtmlLeaf(p.data.value, DecodeUrlSafeBase64(p.data))]
    else if p.parts.Present? then Leaves(p.parts.list)
    else []
  }

  lemma {:induction false} LeavesAppend(a: seq<Part>, b: seq<Part>)
    ensures Leaves(a + b) == Leaves(a) + Leaves(b)
    decreases |b|
  {
    if b == [] {
      assert a + b == a;
    } else {
      var n := |b| - 1;
      var front, last := b[..n], b[n];
      assert (a + b)[..|a + b| - 1] == a + front && (a + b)[|a + b| - 1] == last;
      LeavesAppend(a, front);
      calc {
        Leaves(a + b);
        Leaves(a + front) + PartLeaves(last);
        Leaves(a) + Leaves(front) + PartLeaves(last);
        { ConcatAssoc(Leaves(a), Leaves(front), PartLeaves(last)); }
        Leaves(a) + Leaves(b);
      }
    }
  }

  /** Every leaf's data decodes, so `traverse` runs to the end without throwing. */
  predicate AllDecode(ls: seq<Leaf>) {
    forall i :: 0 <= i < |ls| ==> ls[i].decoded.Success?
  }

  /** The decoded `text/plain` leaves, concatenated in order. */
  function PlainText(ls: seq<Leaf>): string
    requires AllDecode(ls)
  {
    if ls == [] then ""
    else PlainOf(ls[0]) + PlainText(ls[1..])
  }

  /** The decoded `text/html` leaves, concatenated in order. */
  function HtmlText(ls: seq<Leaf>): string
    requires AllDecode(ls)
  {
    if ls == [] then ""
    else HtmlOf(ls[0]) + HtmlText(ls[1..])
  }

  /** What one leaf adds to the text buffer. */
  function PlainOf(l: Leaf): string
    requires l.decoded.Success?
  {
    if l.PlainLeaf? then l.decoded.value else ""
  }

  /** What one leaf adds to the HTML buffer. */
  function HtmlOf(l: Leaf): string
    requires l.decoded.Success?
  {
    if l.HtmlLeaf? then l.decoded.value else ""
  }

  lemma {:induction false} TextAppend(a: seq<Leaf>, b: seq<Leaf>)
    requires AllDecode(a) && AllDecode(b)
    ensures AllDecode(a + b)
    ensures PlainText(a + b) == PlainText(a) + PlainText(b)
    ensures HtmlText(a + b) == HtmlText(a) + HtmlText(b)
    decreases |a|
  {
    AllDecodeAppend(a, b);
    if a == [] {
      assert a + b == b;
    } else {
      TailOfAppend(a, b);
      assert AllDecode(a[1..]) by {
        forall i | 0 <= i < |a[1..]| ensures a[1..][i].decoded.Success? {
          assert a[1..][i] == a[i + 1];
        }
      }
      TextAppend(a[1..], b);
      ConcatAssoc(PlainOf(a[0]), PlainText(a[1..]), PlainText(b));
      ConcatAssoc(HtmlOf(a[0]), HtmlText(a[1..]), HtmlText(b));
    }
  }

  lemma AllDecodeAppend(a: seq<Leaf>, b: seq<Leaf>)
    requires AllDecode(a) && AllDecode(b)
    ensures AllDecode(a + b)
  {
    forall i | 0 <= i < |a + b| ensures (a + b)[i].decoded.Success? {
      if i < |a| {
        assert (a + b)[i] == a[i];
      } else {
        assert (a + b)[i] == b[i - |a|];
      }
    }
  }

  /** The two `let` buffers that `traverse` appends to. */
  class BodyBuffers {
    var textBody: string
    var htmlBody: string

    constructor ()
      ensures textBody == "" && htmlBody == ""
    {
      textBody := "";
      htmlBody := "";
    }

    /**
     * `traverse(nodes)`. It returns false where the JavaScript throws
     * (some leaf's data is not base64); otherwise it has appended the
     * decoded text and HTML leaves of `nodes`, in depth-first order.
     */
    method Traverse(nodes: seq<Part>) returns (ok: bool)
      modifies this
      decreases nodes
      ensures ok == AllDecode(Leaves(nodes))
      ensures ok ==> Collected(Leaves(nodes), old(textBody), old(htmlBody), textBody, htmlBody)
    {
      ghost var t0, h0 := textBody, htmlBody;
      var i := 0;
      while i < |nodes|
        invariant 0 <= i <= |nodes|
        invariant Collected(Leaves(nodes[..i]), t0, h0, textBody, htmlBody)
      {
        ghost var text0, html0 := textBody, htmlBody;
        var visited := Visit(nodes[i]);
        if !visited {
          VisitFailureSpreads(nodes, i);
          return false;
        }
        CollectStep(nodes, i, t0, h0, text0, html0, textBody, htmlBody);
        i := i + 1;
      }
      assert nodes[..i] == nodes;
      ok := true;
    }

    /** One iteration of the loop in `traverse`: the three-way test on a node. */
    method Visit(node: Part) returns (ok: bool)
      modifies this
      decreases node
      ensures ok == AllDecode(PartLeaves(node))
      ensures ok ==> Collected(PartLeaves(node), old(textBody), old(htmlBody), textBody, htmlBody)
    {
      if node.mimeType == "text/plain" && HasData(node) {
        var d := DecodeUrlSafeBase64(node.data);
        assert PartLeaves(node) == [PlainLeaf(node.data.value, d)];
        if d.Failure? {
          assert !PartLeaves(node)[0].decoded.Success?;
          return false;
        }
        textBody := textBody + d.value;
      } else if node.mimeType == "text/html" && HasData(node) {
        var d := DecodeUrlSafeBase64(node.data);
        assert PartLeaves(node) == [HtmlLeaf(node.data.value, d)];
        if d.Failure? {
          assert !PartLeaves(node)[0].decoded.Success?;
          return false;
        }
        htmlBody := htmlBody + d.value;
      } else if node.parts.Present? {
        ok := Traverse(node.parts.list);
        return;
      }
      ok := true;
    }
  }

  /** One more sibling appends its leaves. */
  lemma LeavesStep(nodes: seq<Part>, i: nat)
    requires i < |nodes|
    ensures Leaves(nodes[..i + 1]) == Leaves(nodes[..i]) + PartLeaves(nodes[i])
  {
    assert nodes[..i + 1][..i] == nodes[..i];
  }

  /** The leaves of a forest around its `i`th tree. */
  lemma LeavesSplit(nodes: seq<Part>, i: nat)
    requires i < |nodes|
    ensures Leaves(nodes) == Leaves(nodes[..i]) + PartLeaves(nodes[i]) + Leaves(nodes[i + 1..])
  {
    var pre, post := nodes[..i + 1], nodes[i + 1..];
    SplitAt(nodes, i + 1);
    LeavesStep(nodes, i);
    LeavesAppend(pre, post);
  }

  /** The buffers went from `t0`/`h0` to `text`/`html` by appending the decoded leaves `ls`. */
  predicate Collected(ls: seq<Leaf>, t0: string, h0: string, text: string, html: string) {
    AllDecode(ls) && text == t0 + PlainText(ls) && html == h0 + HtmlText(ls)
  }

  lemma CollectStep(nodes: seq<Part>, i: nat, t0: string, h0: string, text0: string, html0: string, text1: string, html1: string)
    requires i < |nodes|
    requires Collected(Leaves(nodes[..i]), t0, h0, text0, html0)
    requires Collected(PartLeaves(nodes[i]), text0, html0, text1, html1)
    ensures Collected(Leaves(nodes[..i + 1]), t0, h0, text1, html1)
  {
    var done, here := Leaves(nodes[..i]), PartLeaves(nodes[i]);
    LeavesStep(nodes, i);
    TextAppend(done, here);
    var pd, ph := PlainText(done), PlainText(here);
    var hd, hh := HtmlText(done), HtmlText(here);
    assert text1 == t0 + pd + ph;
    assert html1 == h0 + hd + hh;
    assert PlainText(done + here) == pd + ph;
    ConcatAssoc(t0, pd, ph);
    ConcatAssoc(h0, hd, hh);
  }

  /** A part whose leaves do not all decode makes the whole forest fail. */
  lemma VisitFailureSpreads(nodes: seq<Part>, i: nat)
    requires i < |nodes| && !AllDecode(PartLeaves(nodes[i]))
    ensures !AllDecode(Leaves(nodes))
  {
    LeavesSplit(nodes, i);
    NotAllDecodeMiddle(Leaves(nodes[..i]), PartLeaves(nodes[i]), Leaves(nodes[i + 1..]));
  }

  /** Helper: one undecodable leaf anywhere spoils the whole sequence. */
  lemma NotAllDecodeMiddle(a: seq<Leaf>, b: seq<Leaf>, c: seq<Leaf>)
    requires !AllDecode(b)
    ensures !AllDecode(a + b + c)
  {
    var k :| 0 <= k < |b| && !b[k].decoded.Success?;
    assert (a + b + c)[|a| + k] == b[k];
  }

  /**
   * The leaves `extractBodyData` collects: the root's children when it has
   * `parts` (even an empty array, ignoring the root's own data); otherwise
   * the root's own data, as HTML when its type is exactly `text/html` and
   * as text for every other type.
   */
  function RootLeaves(root: Part): (r: seq<Leaf>)
    ensures forall i :: 0 <= i < |r| ==> FromData(r[i])
    ensures root.parts.Absent? ==> |r| <= 1 && (r == [] <==> !HasData(root))
    ensures root.parts.Absent? && r != [] ==> (r[0].HtmlLeaf? <==> root.mimeType == "text/html")
  {
    if root.parts.Present? then Leaves(root.parts.list)
    else if HasData(root) then
      var d := DecodeUrlSafeBase64(root.data);
      (if root.mimeType == "text/html" then [HtmlLeaf(root.data.value, d)] else [PlainLeaf(root.data.value, d)])
    else []
  }

  /** `htmlBody || payload.snippet || ""` after the `<pre>` fallback. */
  function ComposeHtml(text: string, html: string, snippet: Option<string>): (r: string)
    ensures html != "" ==> r == html
    ensures html == "" && text != "" ==> r == "<pre>" + text + "</pre>"
    ensures html == "" && text == "" ==> r == (if snippet.Some? then snippet.value else "")
    ensures r == "" <==> html == "" && text == "" && (snippet.None? || snippet.value == "")
  {
    if html != "" then html
    else if text != "" then "<pre>" + text + "</pre>"
    else if snippet.Some? then snippet.value
    else ""
  }

  /**
   * What `extractBodyData(payload).html` is, or the error it throws: it
   * throws exactly when the data of some collected leaf does not decode.
   */
  function BodyHtml(payload: Payload): (r: Result<string, DecodeError>)
    ensures r.Failure? <==>
      exists k :: 0 <= k < |RootLeaves(payload.root)| && DecodeUrlSafeBase64(Some(RootLeaves(payload.root)[k].data)).Failure?
  {
    var ls := RootLeaves(payload.root);
    if AllDecode(ls) then Success(ComposeHtml(PlainText(ls), HtmlText(ls), payload.snippet))
    else Failure(InvalidCharacterError)
  }

  /**
   * A root with neither `parts` nor body data contributes nothing, so the
   * result is the snippet, or "" when there is none.
   */
  lemma NoPartsNoDataGiveSnippet(payload: Payload)
    requires payload.root.parts.Absent? && !HasData(payload.root)
    ensures BodyHtml(payload) == Success(if payload.snippet.Some? then payload.snippet.value else "")
  {
    assert RootLeaves(payload.root) == [];
  }

  /** `extractBodyData(payload).html`. */
  method ExtractBodyData(payload: Payload) returns (r: Result<string, DecodeError>)
    ensures r == BodyHtml(payload)
  {
    var buffers := new BodyBuffers();
    var root := payload.root;
    ghost var ls := RootLeaves(root);
    if root.parts.Present? {
      var ok := buffers.Traverse(root.parts.list);
      if !ok {
        return Failure(InvalidCharacterError);
      }
    } else if HasData(root) {
      var d := DecodeUrlSafeBase64(root.data);
      if d.Failure? {
        assert !ls[0].decoded.Success?;
        return Failure(d.error);
      }
      if root.mimeType == "text/html" {
        buffers.htmlBody := d.value;
      } else {
        buffers.textBody := d.value;
      }
      assert buffers.textBody == PlainText(ls) && buffers.htmlBody == HtmlText(ls) by {
        assert ls[1..] == [];
      }
    }
    assert AllDecode(ls) && buffers.textBody == PlainText(ls) && buffers.htmlBody == HtmlText(ls);
    var html := buffers.htmlBody;
    if html == "" && buffers.textBody != "" {
      html := "<pre>" + buffers.textBody + "</pre>";
    }
    if html == "" && payload.snippet.Some? {
      html := payload.snippet.value;
    }
    r := Success(html);
  }

  /**
   * A collected leaf: its data is non-empty (`node.body.data` was truthy)
   * and its decoded text is what `decodeUrlSafeBase64` gives for it.
   */
  predicate FromData(l: Leaf) {
    l.data != "" && l.decoded == DecodeUrlSafeBase64(Some(l.data))
  }

  /** Helper: leaves from data, appended, are still from data. */
  lemma FromDataAppend(a: seq<Leaf>, b: seq<Leaf>)
    requires forall i :: 0 <= i < |a| ==> FromData(a[i])
    requires forall i :: 0 <= i < |b| ==> FromData(b[i])
    ensures forall i :: 0 <= i < |a + b| ==> FromData((a + b)[i])
  {
    forall i | 0 <= i < |a + b|
      ensures FromData((a + b)[i])
    {
      if i >= |a| {
        assert (a + b)[i] == b[i - |a|];
      } else {
        assert (a + b)[i] == a[i];
      }
    }
  }

  /**
   * When the payload has `parts`, its own `body.data` is ignored: the result
   * is the same as for the payload with that data removed.
   */
  lemma RootDataIgnoredWithParts(payload: Payload)
    requires payload.root.parts.Present?
    ensures BodyHtml(payload) == BodyHtml(payload.(root := payload.root.(data := None)))
  {
  }

  /** An empty `parts` array still suppresses the root's data: only the snippet (or "") remains. */
  lemma EmptyPartsGiveSnippet(payload: Payload)
    requires payload.root.parts == Present([])
    ensures BodyHtml(payload) == Success(if payload.snippet.Some? then payload.snippet.value else "")
  {
    assert RootLeaves(payload.root) == [];
  }

  /**
   * A single-part payload (no `parts`) with data is HTML exactly when its
   * type is `text/html`; any other type, even `text/xml`, goes to the text
   * buffer and is shown in `<pre>`.
   */
  lemma SinglePartRouting(payload: Payload)
    requires payload.root.parts.Absent? && HasData(payload.root)
    requires DecodeUrlSafeBase64(payload.root.data).Success?
    ensures payload.root.mimeType == "text/html" ==>
      BodyHtml(payload) == Success(ComposeHtml("", DecodeUrlSafeBase64(payload.root.data).value, payload.snippet))
    ensures payload.root.mimeType != "text/html" ==>
      BodyHtml(payload) == Success(ComposeHtml(DecodeUrlSafeBase64(payload.root.data).value, "", payload.snippet))
  {
    var ls := RootLeaves(payload.root);
    assert payload.root.data == Some(ls[0].data);
    SingleLeafText(ls[0]);
  }

  /** Helper: the buffers' contribution of a single leaf. */
  lemma SingleLeafText(l: Leaf)
    requires l.decoded.Success?
    ensures AllDecode([l])
    ensures PlainText([l]) == if l.PlainLeaf? then l.decoded.value else ""
    ensures HtmlText([l]) == if l.HtmlLeaf? then l.decoded.value else ""
  {
    var d := l.decoded.value;
    assert [l][1..] == [];
    assert d + "" == d;
  }

  /** Leaves that are all text contribute nothing to the HTML buffer. */
  lemma {:induction false} PlainLeavesNoHtml(ls: seq<Leaf>)
    requires AllDecode(ls)
    requires forall i :: 0 <= i < |ls| ==> ls[i].PlainLeaf?
    ensures HtmlText(ls) == ""
  {
    if ls != [] {
      PlainLeavesNoHtml(ls[1..]);
    }
  }

  /** A message with only decodable `text/plain` leaves, some of them non-empty, is shown as `<pre>` text. */
  lemma PlainOnlyIsPre(payload: Payload)
    requires AllDecode(RootLeaves(payload.root))
    requires forall i :: 0 <= i < |RootLeaves(payload.root)| ==> RootLeaves(payload.root)[i].PlainLeaf?
    requires PlainText(RootLeaves(payload.root)) != ""
    ensures BodyHtml(payload) == Success("<pre>" + PlainText(RootLeaves(payload.root)) + "</pre>")
  {
    PlainLeavesNoHtml(RootLeaves(payload.root));
  }
}
