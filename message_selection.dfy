/**
 * The selection step of `loadEmails` (src/main.js): keep the fetched
 * message details that are present and carry the `UNREAD` label, then sort
 * them in place, oldest first, by `internalDate`.
 */
module MessageSelection {
  import opened Wrappers

  /** The fields of a Gmail message resource that the selection reads. */
  datatype MessageDetail = MessageDetail(id: string, labelIds: Option<seq<string>>, internalDate: int)

  /** `d.labelIds && d.labelIds.includes('UNREAD')`. */
  predicate IsUnread(d: MessageDetail) {
    d.labelIds.Some? && "UNREAD" in d.labelIds.value
  }

  /** `details.filter(d => d && d.labelIds && d.labelIds.includes('UNREAD'))`; a failed fetch is None. */
  function FilterUnread(details: seq<Option<MessageDetail>>): (r: seq<MessageDetail>)
    ensures |r| <= |details|
    ensures forall d :: d in r <==> Some(d) in details && IsUnread(d)
  {
    if details == [] then []
    else
      var rest := FilterUnread(details[1..]);
      assert details == [details[0]] + details[1..];
      if details[0].Some? && IsUnread(details[0].value) then [details[0].value] + rest else rest
  }

  /** Each unread detail is kept as often as it occurs; every other detail is dropped. */
  lemma {:induction false} FilterUnreadCounts(details: seq<Option<MessageDetail>>, d: MessageDetail)
    ensures multiset(FilterUnread(details))[d] == if IsUnread(d) then multiset(details)[Some(d)] else 0
  {
    if details != [] {
      FilterUnreadCounts(details[1..], d);
      assert details == [details[0]] + details[1..];
    }
  }

  /** Ascending `internalDate`: what the comparator `a.internalDate - b.internalDate` asks for. */
  predicate SortedByDate(s: seq<MessageDetail>) {
    forall i, j :: 0 <= i < j < |s| ==> s[i].internalDate <= s[j].internalDate
  }

  /** `validDetails.sort(...)`, as an insertion sort that swaps neighbours. */
  method SortByInternalDate(a: array<MessageDetail>)
    modifies a
    ensures SortedByDate(a[..])
    ensures multiset(a[..]) == multiset(old(a[..]))
  {
    var i := 0;
    while i < a.Length
      invariant 0 <= i <= a.Length
      invariant SortedByDate(a[..i])
      invariant multiset(a[..]) == multiset(old(a[..]))
    {
      InsertNext(a, i);
      i := i + 1;
    }
    assert a[..a.Length] == a[..];
  }

  /** One pass of the insertion sort: sinks `a[i]` into the sorted prefix `a[..i]`. */
  method InsertNext(a: array<MessageDetail>, i: nat)
    requires i < a.Length && SortedByDate(a[..i])
    modifies a
    ensures SortedByDate(a[..i + 1])
    ensures multiset(a[..]) == multiset(old(a[..]))
    ensures forall k :: i < k < a.Length ==> a[k] == old(a[k])
  {
    var j := i;
    while j > 0 && a[j - 1].internalDate > a[j].internalDate
      invariant 0 <= j <= i
      invariant forall k, l :: 0 <= k < l <= i && k != j && l != j ==> a[k].internalDate <= a[l].internalDate
      invariant forall l :: j < l <= i ==> a[j].internalDate <= a[l].internalDate
      invariant multiset(a[..]) == multiset(old(a[..]))
      invariant forall k :: i < k < a.Length ==> a[k] == old(a[k])
    {
      Swap(a, j - 1, j);
      j := j - 1;
    }
  }

  /** Exchanges two elements; the array keeps its elements. */
  method Swap(a: array<MessageDetail>, x: nat, y: nat)
    requires x < y < a.Length
    modifies a
    ensures a[..] == old(a[..])[x := old(a[y])][y := old(a[x])]
    ensures a[x] == old(a[y]) && a[y] == old(a[x])
    ensures forall k :: 0 <= k < a.Length && k != x && k != y ==> a[k] == old(a[k])
    ensures multiset(a[..]) == multiset(old(a[..]))
  {
    a[x], a[y] := a[y], a[x];
  }

  /**
   * The whole selection: exactly the present, unread details, each as often
   * as it was fetched, in ascending `internalDate` order.
   */
  method SelectUnread(details: seq<Option<MessageDetail>>) returns (selected: seq<MessageDetail>)
    ensures SortedByDate(selected)
    ensures multiset(selected) == multiset(FilterUnread(details))
    ensures forall d :: d in selected <==> Some(d) in details && IsUnread(d)
  {
    var valid := FilterUnread(details);
    var a := new MessageDetail[|valid|](k requires 0 <= k < |valid| => valid[k]);
    assert a[..] == valid;
    SortByInternalDate(a);
    selected := a[..];
    forall d
      ensures d in selected <==> d in valid
    {
      assert d in selected <==> multiset(selected)[d] > 0;
      assert d in valid <==> multiset(valid)[d] > 0;
    }
  }
}
