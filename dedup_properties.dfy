/**
 * What duplicate detection promises: first tab with a key kept, later ones queued, skipped
 * and unparseable tabs left alone, counts consistent, order kept, URLs that differ only in
 * their fragment grouped together, and pinned tabs not exempt.
 */
module DedupProperties {
  import opened Wrappers
  import opened Tabs
  import opened Dedup

  /** The first grouped tab with a given key is kept; every later grouped tab with that key is queued. */
  lemma FirstKeptLaterQueued(scan: Scan, tabs: seq<Tab>, i: nat, j: nat)
    requires i < j < |tabs|
    requires Grouped(scan, tabs[i]) && Grouped(scan, tabs[j]) && Key(tabs[i]) == Key(tabs[j])
    requires forall k :: 0 <= k < i && Grouped(scan, tabs[k]) ==> Key(tabs[k]) != Key(tabs[i])
    ensures i !in DuplicateIndices(scan, tabs)
    ensures j in DuplicateIndices(scan, tabs)
  {
  }

  /** A queued id names a grouped tab with an earlier grouped tab of the same key, and the id is never repeated. */
  lemma {:induction false} QueuedIdsWellFormed(tabs: seq<Tab>)
    requires DistinctIds(tabs)
    ensures NoRepeats(QueuedIds(tabs))
    ensures forall i :: 0 <= i < |tabs| ==> (tabs[i].id in QueuedIds(tabs) <==> IsLaterDuplicate(SkipExempt, tabs, i))
  {
    var d := DuplicateIndices(SkipExempt, tabs);
    var ids := QueuedIds(tabs);
    forall a, b | 0 <= a < b < |ids| ensures ids[a] != ids[b] {
      assert d[a] < d[b];
    }
    forall i | 0 <= i < |tabs|
      ensures tabs[i].id in ids <==> IsLaterDuplicate(SkipExempt, tabs, i)
    {
      QueuedIdIff(tabs, i);
    }
  }

  /** The id of tab `i` is queued exactly when tab `i` is a later duplicate (ids being distinct). */
  lemma QueuedIdIff(tabs: seq<Tab>, i: nat)
    requires DistinctIds(tabs) && i < |tabs|
    ensures tabs[i].id in QueuedIds(tabs) <==> IsLaterDuplicate(SkipExempt, tabs, i)
  {
    var d := DuplicateIndices(SkipExempt, tabs);
    var ids := QueuedIds(tabs);
    if tabs[i].id in ids {
      var k :| 0 <= k < |ids| && ids[k] == tabs[i].id;
      assert d[k] == i;
    }
    if IsLaterDuplicate(SkipExempt, tabs, i) {
      var k :| 0 <= k < |d| && d[k] == i;
      assert ids[k] == tabs[i].id;
    }
  }

  /** Audible tabs, internal pages and tabs whose URL does not parse are never queued for closing. */
  lemma UngroupedNeverQueued(tabs: seq<Tab>, i: nat)
    requires DistinctIds(tabs) && i < |tabs|
    requires tabs[i].audible || IsInternal(tabs[i].url) || Normalize(tabs[i].url).None?
    ensures tabs[i].id !in QueuedIds(tabs)
  {
    QueuedIdsWellFormed(tabs);
  }

  /** A tab that does not take part in grouping is not recorded as seen: the walk's seen keys stay as they were. */
  lemma UngroupedNotRecorded(scan: Scan, tabs: seq<Tab>, i: nat)
    requires i < |tabs| && !Grouped(scan, tabs[i])
    ensures SeenKeys(scan, tabs[..i + 1]) == SeenKeys(scan, tabs[..i])
  {
    SeenKeysStep(scan, tabs, i);
  }

  /** The number of duplicates is the number of grouped tabs minus the number of distinct keys. */
  lemma {:induction false} DuplicateCount(scan: Scan, tabs: seq<Tab>)
    ensures |DuplicateIndices(scan, tabs)| + |SeenKeys(scan, tabs)| == GroupedCount(scan, tabs)
    decreases |tabs|
  {
    if tabs != [] {
      var n := |tabs| - 1;
      DuplicateCount(scan, tabs[..n]);
      SeenKeysStep(scan, tabs, n);
      LaterDuplicateIffSeen(scan, tabs, n);
      DuplicateIndicesStep(scan, tabs, n);
      assert tabs[..n + 1] == tabs;
      var seen := SeenKeys(scan, tabs[..n]);
      if Grouped(scan, tabs[n]) && Key(tabs[n]) !in seen {
        assert |seen + {Key(tabs[n])}| == |seen| + 1;
      }
    }
  }

  /**
   * Tabs whose URLs differ only in the fragment are duplicates: the later one is queued. Either
   * URL may be the plain `u` or carry a fragment of its own.
   */
  lemma FragmentVariantsAreDuplicates(tabs: seq<Tab>, i: nat, j: nat, u: string, f1: string, f2: string)
    requires i < j < |tabs|
    requires '#' !in u && Parses(u)
    requires tabs[i].url == u || tabs[i].url == u + "#" + f1
    requires tabs[j].url == u || tabs[j].url == u + "#" + f2
    requires !tabs[i].audible && !tabs[j].audible && !IsInternal(tabs[i].url) && !IsInternal(tabs[j].url)
    ensures j in DuplicateIndices(SkipExempt, tabs)
  {
    NormalizeIgnoresFragment(u, f1);
    NormalizeIgnoresFragment(u, f2);
    assert Grouped(SkipExempt, tabs[i]) && Key(tabs[i]) == Key(tabs[j]);
  }

  /** Every duplicate a cleaning run would queue is also counted by the statistics line. */
  lemma {:induction false} StatsCoverCleaning(tabs: seq<Tab>)
    ensures |DuplicateIndices(SkipExempt, tabs)| <= |DuplicateIndices(ScanAll, tabs)|
  {
    var c, a := DuplicateIndices(SkipExempt, tabs), DuplicateIndices(ScanAll, tabs);
    assert Elements(c) <= Elements(a) by {
      forall x | x in Elements(c) ensures x in Elements(a) {
        CleaningDuplicateIsStatsDuplicate(tabs, x);
      }
    }
    IncreasingCard(c);
    IncreasingCard(a);
    SubsetCard(Elements(c), Elements(a));
  }

  lemma CleaningDuplicateIsStatsDuplicate(tabs: seq<Tab>, x: nat)
    requires x < |tabs| && IsLaterDuplicate(SkipExempt, tabs, x)
    ensures IsLaterDuplicate(ScanAll, tabs, x)
  {
    var j :| 0 <= j < x && Grouped(SkipExempt, tabs[j]) && Key(tabs[j]) == Key(tabs[x]);
    assert Grouped(ScanAll, tabs[j]);
  }

  lemma SubsetCard(x: set<nat>, y: set<nat>)
    requires x <= y
    ensures |x| <= |y|
  {
    assert y == x + (y - x);
  }

  lemma {:induction false} IncreasingCard(s: seq<nat>)
    requires forall k, l :: 0 <= k < l < |s| ==> s[k] < s[l]
    ensures |Elements(s)| == |s|
    decreases |s|
  {
    if s != [] {
      var n := |s| - 1;
      IncreasingCard(s[..n]);
      assert Elements(s) == Elements(s[..n]) + {s[n]};
      assert s[n] !in Elements(s[..n]);
    }
  }

  /**
   * Pinned tabs are not exempt from duplicate cleaning: the walk only passes over audible tabs
   * and internal pages, so a pinned tab that repeats an earlier tab's key is queued for closing.
   */
  lemma PinnedDuplicateQueued(tabs: seq<Tab>, i: nat, j: nat)
    requires DistinctIds(tabs) && i < j < |tabs|
    requires tabs[j].pinned && !tabs[j].audible && !IsInternal(tabs[j].url)
    requires Grouped(SkipExempt, tabs[i]) && Normalize(tabs[j].url) == Normalize(tabs[i].url)
    ensures tabs[j].id in QueuedIds(tabs)
  {
    assert IsLaterDuplicate(SkipExempt, tabs, j);
    QueuedIdIff(tabs, j);
  }

  /** Every URL of the form `https:` + rest opens with a valid scheme. */
  lemma HttpsParses(rest: string)
    ensures Parses("https:" + rest)
  {
    var u := "https:" + rest;
    assert SchemeTail(u[5..]);
    assert SchemeTail(u[4..]);
    assert SchemeTail(u[3..]);
    assert SchemeTail(u[2..]);
    assert SchemeTail(u[1..]);
  }

  /** An `https:` URL is not a browser-internal page. */
  lemma HttpsNotInternal(rest: string)
    ensures !IsInternal("https:" + rest)
  {
    var u := "https:" + rest;
    assert u[0] != ChromePrefix[0] && u[0] != EdgePrefix[0];
  }

  /** The key of an `https:` URL is its text before the fragment. */
  lemma HttpsKey(rest: string, f: string)
    requires '#' !in rest
    ensures Normalize("https:" + rest + "#" + f) == Some("https:" + rest)
    ensures Normalize("https:" + rest) == Some("https:" + rest)
  {
    HttpsParses(rest);
    var u := "https:" + rest;
    assert '#' !in u;
    NormalizeIgnoresFragment(u, f);
  }

  /** The first two URLs of the example window share the key `https://x.com/p?q=1`. */
  lemma ScenarioFragmentKey(url: string, frag: string)
    requires url == "https://x.com/p?q=1#" + frag
    ensures !IsInternal(url) && Normalize(url) == Some("https://x.com/p?q=1")
  {
    assert url == "https:" + ("//x.com/p?q=1#" + frag);
    HttpsNotInternal("//x.com/p?q=1#" + frag);
    assert url == "https:" + "//x.com/p?q=1" + "#" + frag;
    HttpsKey("//x.com/p?q=1", frag);
    assert "https:" + "//x.com/p?q=1" == "https://x.com/p?q=1";
  }

  /** The third URL of the example window is its own key. */
  lemma ScenarioOtherKey(url: string)
    requires url == "https://y.com/"
    ensures !IsInternal(url) && Normalize(url) == Some(url)
  {
    assert url == "https:" + "//y.com/";
    HttpsNotInternal("//y.com/");
    HttpsKey("//y.com/", "");
  }

  lemma ScenarioKeys(a: Tab, b: Tab, c: Tab)
    requires a.url == "https://x.com/p?q=1#frag1" && b.url == "https://x.com/p?q=1#frag2" && c.url == "https://y.com/"
    ensures Grouped(SkipExempt, a) == !a.audible && Grouped(SkipExempt, b) == !b.audible
    ensures Grouped(SkipExempt, c) == !c.audible
    ensures Normalize(a.url).Some? && Normalize(b.url).Some? && Normalize(c.url).Some?
    ensures Key(a) == Key(b) && Key(c) != Key(a)
  {
    assert a.url == "https://x.com/p?q=1#" + "frag1";
    ScenarioFragmentKey(a.url, "frag1");
    assert b.url == "https://x.com/p?q=1#" + "frag2";
    ScenarioFragmentKey(b.url, "frag2");
    ScenarioOtherKey(c.url);
    assert |c.url| != |"https://x.com/p?q=1"|;
  }

  /** Two grouped tabs with one key: the second is queued. */
  lemma PairDuplicate(scan: Scan, a: Tab, b: Tab)
    requires Grouped(scan, a) && Grouped(scan, b) && Key(a) == Key(b)
    ensures DuplicateIndices(scan, [a, b]) == [1]
  {
    assert [a, b][..1] == [a] && [a][..0] == [];
    assert DuplicateIndices(scan, [a]) == [];
    assert [a, b][0] == a;
    assert IsLaterDuplicate(scan, [a, b], 1);
  }

  /** A window of three grouped tabs where only the first two share a key: the second alone is queued. */
  lemma ThreeTabWindow(scan: Scan, a: Tab, b: Tab, c: Tab)
    requires Grouped(scan, a) && Grouped(scan, b) && Grouped(scan, c)
    requires Key(a) == Key(b) && Key(c) != Key(a)
    ensures DuplicateIndices(scan, [a, b, c]) == [1]
  {
    var tabs := [a, b, c];
    PairDuplicate(scan, a, b);
    assert tabs[..2] == [a, b];
    assert !IsLaterDuplicate(scan, tabs, 2) by {
      assert tabs[0] == a && tabs[1] == b && tabs[2] == c;
    }
  }

  /**
   * The example window [https://x.com/p?q=1#frag1, https://x.com/p?q=1#frag2, https://y.com/]:
   * the first tab is kept, the second is queued, the third is kept.
   */
  lemma FragmentScenario(a: Tab, b: Tab, c: Tab)
    requires a.url == "https://x.com/p?q=1#frag1" && b.url == "https://x.com/p?q=1#frag2" && c.url == "https://y.com/"
    requires !a.audible && !b.audible && !c.audible
    ensures DuplicateIndices(SkipExempt, [a, b, c]) == [1]
  {
    ScenarioKeys(a, b, c);
    ThreeTabWindow(SkipExempt, a, b, c);
  }
}
