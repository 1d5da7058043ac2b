/**
 * `filterEntries()` (script.js): the entries the gallery shows. First the
 * platform selector, unless it is "all", keeps the entries whose platform
 * contains it; then a non-empty search text keeps the entries whose title,
 * prompt, tags or platform contains it. Both tests ignore letter case.
 */
module Filter {
  import opened Text
  import opened Entries

  const AllPlatforms: string := "all"

  /** `xs.filter(keep)` */
  function Keep(xs: seq<Entry>, keep: Entry -> bool): (r: seq<Entry>)
    ensures |r| <= |xs|
    ensures forall e :: e in r <==> e in xs && keep(e)
  {
    if xs == [] then []
    else (if keep(xs[0]) then [xs[0]] else []) + Keep(xs[1..], keep)
  }

  /** The platform selector's test. */
  predicate OnPlatform(e: Entry, selected: string)
  {
    Contains(Lower(e.platform), Lower(selected))
  }

  /** The search test, for an already lower-cased query `q`. */
  predicate MatchesQuery(e: Entry, q: string)
  {
    || Contains(Lower(e.title), q)
    || Contains(Lower(e.prompt), q)
    || (e.tags != [] && Contains(Lower(e.tags), q))
    || Contains(Lower(e.platform), q)
  }

  /** `filterEntries()` over the entries, the active platform filter and the
      search text. */
  function FilterEntries(all: seq<Entry>, activeFilter: string, searchQuery: string): seq<Entry>
  {
    var filtered := if activeFilter != AllPlatforms then Keep(all, e => OnPlatform(e, activeFilter)) else all;
    if searchQuery != [] then
      var q := Lower(searchQuery);
      Keep(filtered, e => MatchesQuery(e, q))
    else filtered
  }

  /** Whether one entry passes both filters. */
  predicate Shown(e: Entry, activeFilter: string, searchQuery: string)
  {
    && (activeFilter != AllPlatforms ==> OnPlatform(e, activeFilter))
    && (searchQuery != [] ==> MatchesQuery(e, Lower(searchQuery)))
  }

  /** Filtering keeps the order: it distributes over concatenation. */
  lemma {:induction false} KeepAppend(a: seq<Entry>, b: seq<Entry>, keep: Entry -> bool)
    ensures Keep(a + b, keep) == Keep(a, keep) + Keep(b, keep)
    decreases |a|
  {
    if a == [] {
      assert a + b == b;
    } else {
      assert (a + b)[0] == a[0] && (a + b)[1..] == a[1..] + b;
      KeepAppend(a[1..], b, keep);
    }
  }

  /** Two filters in a row are one filter by both tests. */
  lemma {:induction false} KeepKeep(xs: seq<Entry>, f: Entry -> bool, g: Entry -> bool)
    ensures Keep(Keep(xs, f), g) == Keep(xs, e => f(e) && g(e))
    decreases |xs|
  {
    if xs != [] {
      var h := if f(xs[0]) then [xs[0]] else [];
      KeepAppend(h, Keep(xs[1..], f), g);
      KeepKeep(xs[1..], f, g);
      if f(xs[0]) {
        assert Keep(h, g) == (if g(xs[0]) then [xs[0]] else []) + Keep([], g);
      }
    }
  }

  lemma {:induction false} KeepSame(xs: seq<Entry>, f: Entry -> bool, g: Entry -> bool)
    requires forall e :: f(e) == g(e)
    ensures Keep(xs, f) == Keep(xs, g)
    decreases |xs|
  {
    if xs != [] {
      KeepSame(xs[1..], f, g);
    }
  }

  lemma {:induction false} KeepAll(xs: seq<Entry>, f: Entry -> bool)
    requires forall e :: f(e)
    ensures Keep(xs, f) == xs
    decreases |xs|
  {
    if xs != [] {
      KeepAll(xs[1..], f);
      assert xs == [xs[0]] + xs[1..];
    }
  }

  /** The two filters in sequence are a single filter by `Shown`: the result
      is, in order, exactly the entries that pass both tests. */
  lemma FilterEntriesIsKeepShown(all: seq<Entry>, activeFilter: string, searchQuery: string)
    ensures FilterEntries(all, activeFilter, searchQuery) == Keep(all, e => Shown(e, activeFilter, searchQuery))
  {
    var shown := e => Shown(e, activeFilter, searchQuery);
    var onP := e => OnPlatform(e, activeFilter);
    var q := Lower(searchQuery);
    var matchQ := e => MatchesQuery(e, q);
    if activeFilter != AllPlatforms && searchQuery != [] {
      KeepKeep(all, onP, matchQ);
      KeepSame(all, e => onP(e) && matchQ(e), shown);
    } else if activeFilter != AllPlatforms {
      KeepSame(all, onP, shown);
    } else if searchQuery != [] {
      KeepSame(all, matchQ, shown);
    } else {
      KeepAll(all, shown);
    }
  }

  /** An entry is shown exactly when it is in the catalog and passes both
      tests. */
  lemma FilterEntriesMembership(all: seq<Entry>, activeFilter: string, searchQuery: string, e: Entry)
    ensures e in FilterEntries(all, activeFilter, searchQuery) <==> e in all && Shown(e, activeFilter, searchQuery)
  {
    FilterEntriesIsKeepShown(all, activeFilter, searchQuery);
  }

  /** With the selector on "all" and no search text every entry is shown,
      in catalog order. */
  lemma FilterEntriesShowsAll(all: seq<Entry>)
    ensures FilterEntries(all, AllPlatforms, "") == all
  {
  }

  /** Filtering the catalog with an entry appended shows what it showed
      before, followed by the new entry when that entry passes. */
  lemma FilterEntriesAppend(all: seq<Entry>, e: Entry, activeFilter: string, searchQuery: string)
    ensures FilterEntries(all + [e], activeFilter, searchQuery)
      == FilterEntries(all, activeFilter, searchQuery) + (if Shown(e, activeFilter, searchQuery) then [e] else [])
  {
    var shown := x => Shown(x, activeFilter, searchQuery);
    FilterEntriesIsKeepShown(all + [e], activeFilter, searchQuery);
    FilterEntriesIsKeepShown(all, activeFilter, searchQuery);
    KeepAppend(all, [e], shown);
    assert Keep([e], shown) == (if shown(e) then [e] else []) + Keep([], shown);
  }

  /** The search ignores letter case in the search text. */
  lemma SearchIgnoresCase(all: seq<Entry>, activeFilter: string, searchQuery: string)
    ensures FilterEntries(all, activeFilter, Lower(searchQuery)) == FilterEntries(all, activeFilter, searchQuery)
  {
    LowerIdempotent(searchQuery);
  }

  /** The platform test ignores letter case in the selector, except that only
      the exact value "all" switches it off. */
  lemma SelectorIgnoresCase(all: seq<Entry>, activeFilter: string, searchQuery: string)
    requires Lower(activeFilter) != AllPlatforms || activeFilter == AllPlatforms
    ensures FilterEntries(all, Lower(activeFilter), searchQuery) == FilterEntries(all, activeFilter, searchQuery)
  {
    LowerIdempotent(activeFilter);
    KeepSame(all, e => OnPlatform(e, Lower(activeFilter)), e => OnPlatform(e, activeFilter));
    if activeFilter == AllPlatforms {
      assert Lower(activeFilter) == activeFilter;
    }
  }

  /** The guard on empty tags changes nothing for a non-empty search text:
      an empty text contains no non-empty one. */
  lemma TagsGuardRedundant(tags: string, q: string)
    requires q != []
    ensures (tags != [] && Contains(Lower(tags), q)) <==> Contains(Lower(tags), q)
  {
  }
}
