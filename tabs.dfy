/**
 * The tab record the browser hands to the extension, the internal-page test both resolvers
 * apply, and the grouping key of a URL ("origin + pathname + search": the URL with its
 * fragment removed).
 */
module Tabs {
  import opened Wrappers

  /** A browser tab as the popup sees it; the window it belongs to is given by the enclosing list. */
  datatype Tab = Tab(id: int, url: string, pinned: bool, audible: bool)

  /** True when no two tabs of the list share an identifier (the browser never reuses a live id). */
  predicate DistinctIds(tabs: seq<Tab>) {
    forall i, j :: 0 <= i < j < |tabs| ==> tabs[i].id != tabs[j].id
  }

  /** The elements of a list, as a set. */
  function Elements<T>(s: seq<T>): set<T> {
    set x | x in s
  }

  /** True when no two entries of an id list are equal. */
  predicate NoRepeats(ids: seq<int>) {
    forall i, j :: 0 <= i < j < |ids| ==> ids[i] != ids[j]
  }

  /** The ids of the tabs at the given indices. */
  function IdsAt(tabs: seq<Tab>, idx: seq<nat>): (r: seq<int>)
    requires forall k :: 0 <= k < |idx| ==> idx[k] < |tabs|
  {
    seq(|idx|, k requires 0 <= k < |idx| => tabs[idx[k]].id)
  }

  lemma IdsAtAppend(tabs: seq<Tab>, idx: seq<nat>, i: nat)
    requires forall k :: 0 <= k < |idx| ==> idx[k] < |tabs|
    requires i < |tabs|
    ensures IdsAt(tabs, idx + [i]) == IdsAt(tabs, idx) + [tabs[i].id]
  {
  }

  /** The ids at strictly increasing positions of a list without repeated ids are themselves never repeated. */
  lemma IdsAtNoRepeats(tabs: seq<Tab>, idx: seq<nat>)
    requires DistinctIds(tabs)
    requires forall k :: 0 <= k < |idx| ==> idx[k] < |tabs|
    requires forall k, l :: 0 <= k < l < |idx| ==> idx[k] < idx[l]
    ensures NoRepeats(IdsAt(tabs, idx))
  {
    var ids := IdsAt(tabs, idx);
    forall a, b | 0 <= a < b < |ids| ensures ids[a] != ids[b] {
      assert idx[a] < idx[b];
    }
  }

  /** An id is at one of the given positions exactly when a tab with that id sits at one of them. */
  lemma IdsAtMembership(tabs: seq<Tab>, idx: seq<nat>, x: int)
    requires forall k :: 0 <= k < |idx| ==> idx[k] < |tabs|
    ensures x in IdsAt(tabs, idx) <==> exists i :: 0 <= i < |tabs| && i in idx && tabs[i].id == x
  {
    var ids := IdsAt(tabs, idx);
    if x in ids {
      var k :| 0 <= k < |ids| && ids[k] == x;
      assert idx[k] in idx;
    }
    if exists i :: 0 <= i < |tabs| && i in idx && tabs[i].id == x {
      var i :| 0 <= i < |tabs| && i in idx && tabs[i].id == x;
      var k :| 0 <= k < |idx| && idx[k] == i;
      assert ids[k] == x;
    }
  }

  const ChromePrefix: string := "chrome://"
  const EdgePrefix: string := "edge://"

  /** A browser-internal page: its URL starts with `chrome://` or `edge://`. */
  predicate IsInternal(url: string) {
    ChromePrefix <= url || EdgePrefix <= url
  }

  predicate IsAlpha(c: char) {
    ('a' <= c <= 'z') || ('A' <= c <= 'Z')
  }

  /** Characters allowed after the first letter of a URL scheme. */
  predicate IsSchemeChar(c: char) {
    IsAlpha(c) || ('0' <= c <= '9') || c == '+' || c == '-' || c == '.'
  }

  /** `s` is a run of scheme characters ended by a ':' (the rest of the URL may be anything). */
  predicate SchemeTail(s: string) {
    |s| > 0 && (s[0] == ':' || (IsSchemeChar(s[0]) && SchemeTail(s[1..])))
  }

  /**
   * The URL parses: it opens with a scheme (a letter, then scheme characters, then ':').
   * This is the only part of URL parsing the model keeps, and a string without a scheme gets
   * no key here. The browser's URL constructor differs in both directions: it first strips
   * leading and trailing spaces and control characters and removes every tab and newline, so
   * it accepts some strings rejected here; and it throws for some strings with a scheme (an
   * empty or malformed host, a port out of range), which are accepted here.
   */
  predicate Parses(url: string) {
    |url| > 0 && IsAlpha(url[0]) && SchemeTail(url[1..])
  }

  /** The URL text before its first '#': the URL without its fragment. */
  function StripFragment(url: string): (r: string)
    ensures r <= url
    ensures '#' !in r
    ensures |r| < |url| ==> url[|r|] == '#'
  {
    if url == [] then []
    else if url[0] == '#' then []
    else [url[0]] + StripFragment(url[1..])
  }

  /**
   * The grouping key of a tab URL, or None when the URL does not parse.
   * The key is everything but the fragment, so two URLs that differ only after '#' share a key.
   */
  function Normalize(url: string): (r: Option<string>)
    ensures r.Some? <==> Parses(url)
    ensures r.Some? ==> r.value <= url && '#' !in r.value
    ensures r.Some? ==> |r.value| == |url| || url[|r.value|] == '#'
  {
    if Parses(url) then Some(StripFragment(url)) else None
  }

  lemma {:induction false} SchemeTailIgnoresFragment(u: string, f: string)
    requires '#' !in u
    ensures SchemeTail(u + "#" + f) == SchemeTail(u)
    decreases |u|
  {
    if u != [] {
      assert (u + "#" + f)[1..] == u[1..] + "#" + f;
      SchemeTailIgnoresFragment(u[1..], f);
    }
  }

  lemma {:induction false} StripFragmentOfFragment(u: string, f: string)
    requires '#' !in u
    ensures StripFragment(u + "#" + f) == u
    decreases |u|
  {
    if u != [] {
      assert (u + "#" + f)[1..] == u[1..] + "#" + f;
      StripFragmentOfFragment(u[1..], f);
    }
  }

  /** Appending a fragment to a fragment-free URL changes neither whether it parses nor its key. */
  lemma NormalizeIgnoresFragment(u: string, f: string)
    requires '#' !in u
    ensures Normalize(u + "#" + f) == Normalize(u)
    ensures Parses(u) ==> Normalize(u) == Some(u)
  {
    StripFragmentOfFragment(u, f);
    if u != [] {
      assert (u + "#" + f)[1..] == u[1..] + "#" + f;
      SchemeTailIgnoresFragment(u[1..], f);
    }
    assert StripFragment(u) == u;
  }
}
