/** `getHeader` (src/main.js): the value of a named message header. */
module Headers {
  import opened Wrappers

  /** One entry of a Gmail payload's `headers` array. */
  datatype Header = Header(name: string, value: string)

  /** The index `headers.find` stops at: the first entry whose name equals `name` exactly. */
  function FirstNamed(hs: seq<Header>, name: string): (r: Option<nat>)
    ensures r.Some? ==> r.value < |hs| && hs[r.value].name == name
    ensures r.Some? ==> forall j :: 0 <= j < r.value ==> hs[j].name != name
    ensures r.None? <==> forall j :: 0 <= j < |hs| ==> hs[j].name != name
  {
    if hs == [] then None
    else if hs[0].name == name then Some(0)
    else match FirstNamed(hs[1..], name)
      case None => None
      case Some(k) => Some(k + 1)
  }

  /**
   * `getHeader(headers, name)`: "" when `headers` is absent or no name
   * matches (the comparison is case-sensitive); otherwise the value of the
   * first matching header.
   */
  function GetHeader(headers: Option<seq<Header>>, name: string): (r: string)
    ensures headers.None? ==> r == ""
    ensures headers.Some? && (forall j :: 0 <= j < |headers.value| ==> headers.value[j].name != name) ==> r == ""
    ensures forall i ::
              (headers.Some? && 0 <= i < |headers.value| && headers.value[i].name == name &&
               forall j :: 0 <= j < i ==> headers.value[j].name != name)
              ==> r == headers.value[i].value
  {
    if headers.None? then ""
    else match FirstNamed(headers.value, name)
      case None => ""
      case Some(k) => headers.value[k].value
  }

  /** Headers before the first match do not matter, and neither do those after it. */
  lemma {:induction false} GetHeaderFirstWins(before: seq<Header>, h: Header, after: seq<Header>)
    requires forall j :: 0 <= j < |before| ==> before[j].name != h.name
    ensures GetHeader(Some(before + [h] + after), h.name) == h.value
  {
    var hs := before + [h] + after;
    assert hs[|before|] == h;
    forall j | 0 <= j < |before|
      ensures hs[j].name != h.name
    {
      assert hs[j] == before[j];
    }
  }

  /**
   * The lookup is case-sensitive: a header named only in another case is
   * not found. An instance of `GetHeader`'s contract for a list in which no
   * name matches exactly.
   */
  lemma CaseSensitive()
    ensures GetHeader(Some([Header("subject", "x")]), "Subject") == ""
  {
  }
}
