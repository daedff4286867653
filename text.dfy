/**
 * String searching shared by the scanners: literal occurrences (exact and
 * ASCII case-insensitive) and the white space that JavaScript's
 * `String.prototype.trim` removes.
 */
module Text {
  import opened Wrappers

  /**
   * ASCII lower-casing. A JavaScript regular expression with the `i` flag
   * and without `u` folds no non-ASCII character onto an ASCII one, so for
   * patterns written in ASCII this is exactly its notion of "same letter".
   */
  function Lower(c: char): (r: char)
    ensures 'A' <= c <= 'Z' ==> r as int == c as int + 32
    ensures !('A' <= c <= 'Z') ==> r == c
  {
    if 'A' <= c <= 'Z' then (c as int + 32) as char else c
  }

  /** `lit` occurs in `s` at index `i`, character for character. */
  predicate OccursAt(s: string, i: int, lit: string) {
    0 <= i && i + |lit| <= |s| && forall k :: 0 <= k < |lit| ==> s[i + k] == lit[k]
  }

  /** `lit`, written in lower case, occurs in `s` at index `i` ignoring ASCII case. */
  predicate OccursAtCI(s: string, i: int, lit: string) {
    0 <= i && i + |lit| <= |s| && forall k :: 0 <= k < |lit| ==> Lower(s[i + k]) == lit[k]
  }

  /** The first index at or after `from` where `lit` occurs exactly (see `FindFirst`). */
  function Find(s: string, lit: string, from: nat): (r: Option<nat>)
    decreases |s| - from
    ensures r.Some? ==> from <= r.value && r.value + |lit| <= |s|
  {
    if from + |lit| > |s| then None
    else if OccursAt(s, from, lit) then Some(from)
    else Find(s, lit, from + 1)
  }

  /** `Find` returns the first exact occurrence at or after `from`, and None only when there is none. */
  lemma {:induction false} FindFirst(s: string, lit: string, from: nat)
    decreases |s| - from
    ensures var r := Find(s, lit, from);
      r.Some? ==> OccursAt(s, r.value, lit) && forall j :: from <= j < r.value ==> !OccursAt(s, j, lit)
    ensures Find(s, lit, from).None? ==> forall j :: from <= j ==> !OccursAt(s, j, lit)
  {
    if from + |lit| <= |s| && !OccursAt(s, from, lit) {
      FindFirst(s, lit, from + 1);
    }
  }

  /** The first index at or after `from` where `lit` occurs ignoring ASCII case (see `FindCIFirst`). */
  function FindCI(s: string, lit: string, from: nat): (r: Option<nat>)
    decreases |s| - from
    ensures r.Some? ==> from <= r.value && r.value + |lit| <= |s|
  {
    if from + |lit| > |s| then None
    else if OccursAtCI(s, from, lit) then Some(from)
    else FindCI(s, lit, from + 1)
  }

  /** `FindCI` returns the first occurrence at or after `from`, and None only when there is none. */
  lemma {:induction false} FindCIFirst(s: string, lit: string, from: nat)
    decreases |s| - from
    ensures var r := FindCI(s, lit, from);
      r.Some? ==> OccursAtCI(s, r.value, lit) && forall j :: from <= j < r.value ==> !OccursAtCI(s, j, lit)
    ensures FindCI(s, lit, from).None? ==> forall j :: from <= j ==> !OccursAtCI(s, j, lit)
  {
    if from + |lit| <= |s| && !OccursAtCI(s, from, lit) {
      FindCIFirst(s, lit, from + 1);
    }
  }

  /** The first index at or after `from` holding the character `c` (see `FindCharFirst`). */
  function FindChar(s: string, c: char, from: nat): (r: Option<nat>)
    decreases |s| - from
    ensures r.Some? ==> from <= r.value < |s| && s[r.value] == c
  {
    if from >= |s| then None
    else if s[from] == c then Some(from)
    else FindChar(s, c, from + 1)
  }

  /** `FindChar` returns the first `c` at or after `from`, and None only when there is none. */
  lemma {:induction false} FindCharFirst(s: string, c: char, from: nat)
    decreases |s| - from
    ensures var r := FindChar(s, c, from);
      r.Some? ==> forall j :: from <= j < r.value ==> s[j] != c
    ensures FindChar(s, c, from).None? ==> forall j :: from <= j < |s| ==> s[j] != c
  {
    if from < |s| && s[from] != c {
      FindCharFirst(s, c, from + 1);
    }
  }

  /** `FindChar` returns `p` when `p` holds the first `c` at or after `from`. */
  lemma {:induction false} FindCharIs(s: string, c: char, from: nat, p: nat)
    requires from <= p < |s| && s[p] == c
    requires forall j :: from <= j < p ==> s[j] != c
    decreases p - from
    ensures FindChar(s, c, from) == Some(p)
  {
    if from < p {
      FindCharIs(s, c, from + 1, p);
    }
  }

  /** `FindCI` returns `p` when `p` holds the first occurrence at or after `from`, ignoring ASCII case. */
  lemma {:induction false} FindCIIs(s: string, lit: string, from: nat, p: nat)
    requires from <= p && OccursAtCI(s, p, lit)
    requires forall j :: from <= j < p ==> !OccursAtCI(s, j, lit)
    decreases p - from
    ensures FindCI(s, lit, from) == Some(p)
  {
    if from < p {
      FindCIIs(s, lit, from + 1, p);
    }
  }

  /** An occurrence ignoring ASCII case found in a suffix is one in the whole string. */
  lemma OccursInSuffixCI(s: string, n: nat, i: int, lit: string)
    requires n <= |s|
    ensures OccursAtCI(s[n..], i, lit) <==> (0 <= i && OccursAtCI(s, n + i, lit))
  {
    if 0 <= i && OccursAtCI(s, n + i, lit) {
      forall k | 0 <= k < |lit| ensures Lower(s[n..][i + k]) == lit[k] {
        assert Lower(s[n + i + k]) == lit[k];
      }
    }
  }

  /**
   * The characters JavaScript's `trim` removes: the WhiteSpace and
   * LineTerminator productions of ECMAScript (tab, vertical tab, form feed,
   * space, no-break space, byte order mark, the Space_Separator category,
   * line feed, carriage return, line and paragraph separators).
   */
  predicate IsJsSpace(c: char) {
    c == '\t' || c == '\n' || c == '\U{000B}' || c == '\U{000C}' || c == '\r' || c == ' '
    || c == '\U{00A0}' || c == '\U{1680}' || ('\U{2000}' <= c <= '\U{200A}')
    || c == '\U{2028}' || c == '\U{2029}' || c == '\U{202F}' || c == '\U{205F}'
    || c == '\U{3000}' || c == '\U{FEFF}'
  }

  /** The number of white-space characters at the start of `s`. */
  function LeadingSpace(s: string): (k: nat)
    ensures k <= |s|
    ensures forall i :: 0 <= i < k ==> IsJsSpace(s[i])
    ensures k < |s| ==> !IsJsSpace(s[k])
  {
    if s == [] || !IsJsSpace(s[0]) then 0
    else
      var k := 1 + LeadingSpace(s[1..]);
      assert forall i :: 1 <= i < k ==> s[i] == s[1..][i - 1];
      k
  }

  /** The length of `s` without its trailing white space. */
  function TrailingStart(s: string): (n: nat)
    ensures n <= |s|
    ensures forall i :: n <= i < |s| ==> IsJsSpace(s[i])
    ensures n > 0 ==> !IsJsSpace(s[n - 1])
  {
    if s == [] || !IsJsSpace(s[|s| - 1]) then |s|
    else TrailingStart(s[..|s| - 1])
  }

  /**
   * `String.prototype.trim`: `s` without its leading and trailing white
   * space; what is left neither starts nor ends with white space.
   */
  function Trim(s: string): (r: string)
    ensures LeadingSpace(s) + |r| <= |s|
    ensures r == "" || (!IsJsSpace(r[0]) && !IsJsSpace(r[|r| - 1]))
    ensures r == s[LeadingSpace(s)..LeadingSpace(s) + |r|]
    ensures forall i :: LeadingSpace(s) + |r| <= i < |s| ==> IsJsSpace(s[i])
  {
    var k := LeadingSpace(s);
    var n := TrailingStart(s[k..]);
    SuffixIndex(s, k, n);
    s[k..k + n]
  }

  /** Indexing into `s[k..]` and its prefix is indexing into `s`, shifted by `k`. */
  lemma SuffixIndex(s: string, k: nat, n: nat)
    requires k + n <= |s|
    ensures forall i :: k <= i < |s| ==> s[k..][i - k] == s[i]
    ensures forall i :: k <= i < k + n ==> s[k..k + n][i - k] == s[i]
  {
  }
}
