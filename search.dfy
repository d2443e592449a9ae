/** The search box: after every change of its text the grid is emptied and
    refilled with the apps that match the lowercased text. */
module Search {
  import opened Text
  import opened Widgets

  /** The non-empty pieces of `parts`, lowercased, in order. */
  function NonEmptyLowered(parts: seq<string>): (r: seq<string>)
    ensures |r| <= |parts|
    decreases |parts|
  {
    if parts == [] then []
    else (if parts[0] == "" then [] else [Lower(parts[0])]) + NonEmptyLowered(parts[1..])
  }

  /** The keywords of a `Keywords` entry: its `;`-separated pieces, empty
      pieces dropped, each lowercased. Every keyword is therefore non-empty,
      lowercase and free of `;`. */
  function Keywords(keywords: string): (r: seq<string>)
    ensures forall k :: k in r <==> exists p :: p in Split(keywords, ';') && p != "" && Lower(p) == k
    ensures forall k :: k in r ==> k != "" && ';' !in k && Lower(k) == k
  {
    NonEmptyLoweredShape(Split(keywords, ';'));
    forall k ensures k in NonEmptyLowered(Split(keywords, ';')) <==>
      exists p :: p in Split(keywords, ';') && p != "" && Lower(p) == k
    {
      NonEmptyLoweredMembership(Split(keywords, ';'), k);
    }
    NonEmptyLowered(Split(keywords, ';'))
  }

  /** A keyword is listed exactly when it is the lowercasing of a non-empty piece. */
  lemma {:induction false} NonEmptyLoweredMembership(parts: seq<string>, k: string)
    ensures k in NonEmptyLowered(parts) <==> exists p :: p in parts && p != "" && Lower(p) == k
    decreases |parts|
  {
    if parts != [] {
      NonEmptyLoweredMembership(parts[1..], k);
      assert parts == [parts[0]] + parts[1..];
      if k in NonEmptyLowered(parts) && k !in NonEmptyLowered(parts[1..]) {
        assert parts[0] != "" && Lower(parts[0]) == k;
      }
    }
  }

  /** Every keyword is a non-empty, lowercase, `;`-free piece of the entry. */
  lemma {:induction false} NonEmptyLoweredShape(parts: seq<string>)
    requires forall p :: p in parts ==> ';' !in p
    ensures forall k :: k in NonEmptyLowered(parts) ==> k != "" && ';' !in k && Lower(k) == k
    decreases |parts|
  {
    if parts != [] {
      NonEmptyLoweredShape(parts[1..]);
      if parts[0] != "" {
        var k := Lower(parts[0]);
        assert parts[0] in parts;
        LowerIdempotent(parts[0]);
        assert ';' !in k by {
          forall i | 0 <= i < |k| ensures k[i] != ';' {
            assert parts[0][i] != ';';
          }
        }
      }
    }
  }

  /** Some keyword contains the query. */
  predicate AnyKeywordContains(keywords: seq<string>, query: string)
  {
    exists k :: k in keywords && Contains(k, query)
  }

  /** An app matches when its lowercased name contains the query, or when it
      has a `Keywords` entry and one of its keywords contains the query. */
  predicate Matches(app: App, query: string)
  {
    || Contains(Lower(app.name), query)
    || (app.keywords.Some? && AnyKeywordContains(Keywords(app.keywords.value), query))
  }

  /** The match test in the order the search callback performs it: the name
      first, then, for an app with keywords, a second test that sets the flag
      only when a keyword matches. */
  method AppMatches(app: App, query: string) returns (matches: bool)
    ensures matches <==> Matches(app, query)
  {
    var nameLow := Lower(app.name);
    matches := Contains(nameLow, query);
    if app.keywords.Some? {
      var keywords := Keywords(app.keywords.value);
      if AnyKeywordContains(keywords, query) || Contains(Lower(app.name), query) {
        if AnyKeywordContains(keywords, query) {
          matches := true;
        }
      }
    }
  }

  /** An app is put into the grid when it matches and asks to be shown. */
  predicate Inserted(app: App, query: string)
  {
    Matches(app, query) && app.shouldShow
  }

  /** The apps the grid holds for `query`, in their original order. */
  function SearchResults(apps: seq<App>, query: string): seq<App>
    decreases |apps|
  {
    if apps == [] then []
    else
      var last := apps[|apps| - 1];
      SearchResults(apps[..|apps| - 1], query) + (if Inserted(last, query) then [last] else [])
  }

  /** An app is listed exactly when it is installed, matches and asks to be shown. */
  lemma {:induction false} SearchResultsMembership(apps: seq<App>, query: string, a: App)
    ensures a in SearchResults(apps, query) <==> a in apps && Inserted(a, query)
    decreases |apps|
  {
    if apps != [] {
      var init := apps[..|apps| - 1];
      SearchResultsMembership(init, query, a);
      assert apps == init + [apps[|apps| - 1]];
    }
  }

  /** Results keep the installed order: the results for two blocks of apps
      are those of the first block followed by those of the second. */
  lemma {:induction false} SearchResultsConcat(a: seq<App>, b: seq<App>, query: string)
    ensures SearchResults(a + b, query) == SearchResults(a, query) + SearchResults(b, query)
    decreases |b|
  {
    if b == [] {
      assert a + b == a;
    } else {
      var init := b[..|b| - 1];
      assert (a + b)[..|a + b| - 1] == a + init;
      assert (a + b)[|a + b| - 1] == b[|b| - 1];
      SearchResultsConcat(a, init, query);
    }
  }

  /** The empty query lists every app that asks to be shown: the same apps the
      grid holds when the launcher starts. */
  lemma {:induction false} EmptyQueryListsShown(apps: seq<App>)
    ensures SearchResults(apps, "") == ShownApps(apps)
    decreases |apps|
  {
    if apps != [] {
      EmptyQueryListsShown(apps[..|apps| - 1]);
      ContainsEmpty(Lower(apps[|apps| - 1].name));
    }
  }

  /** A more specific query matches fewer apps: an app matching `longer`
      matches every query that `longer` contains. */
  lemma MatchesNarrowing(app: App, shorter: string, longer: string)
    requires Contains(longer, shorter)
    requires Matches(app, longer)
    ensures Matches(app, shorter)
  {
    if Contains(Lower(app.name), longer) {
      ContainsTransitive(Lower(app.name), longer, shorter);
    } else {
      var k :| k in Keywords(app.keywords.value) && Contains(k, longer);
      ContainsTransitive(k, longer, shorter);
    }
  }

  /** Typing more characters can be answered from the current results:
      searching the results of `shorter` for `longer` gives the results of
      `longer` over all apps. */
  lemma {:induction false} RefineFromResults(apps: seq<App>, shorter: string, longer: string)
    requires Contains(longer, shorter)
    ensures SearchResults(SearchResults(apps, shorter), longer) == SearchResults(apps, longer)
    decreases |apps|
  {
    if apps != [] {
      var init := apps[..|apps| - 1];
      var last := apps[|apps| - 1];
      RefineFromResults(init, shorter, longer);
      var tail := if Inserted(last, shorter) then [last] else [];
      SearchResultsConcat(SearchResults(init, shorter), tail, longer);
      if Inserted(last, longer) {
        MatchesNarrowing(last, shorter, longer);
      }
      if tail == [last] {
        assert SearchResults(tail, longer) == SearchResults([], longer) + (if Inserted(last, longer) then [last] else []);
      }
    }
  }

  /** The search callback: removes every tile, then appends a tile, with the
      remembered icon size, for each app that matches and asks to be shown. */
  method OnSearchChanged(grid: FlowBox, memory: IconSizeMemory, text: string, apps: seq<App>)
    modifies grid
    ensures grid.children == TilesOf(SearchResults(apps, Lower(text)), memory.size)
  {
    var query := Lower(text);
    while grid.children != []
      decreases |grid.children|
    {
      grid.RemoveFirst();
    }
    for i := 0 to |apps|
      invariant grid.children == TilesOf(SearchResults(apps[..i], query), memory.size)
    {
      assert apps[..i + 1][..i] == apps[..i];
      var matches := AppMatches(apps[i], query);
      if matches && apps[i].shouldShow {
        grid.Insert(Tile(apps[i], memory.size));
      }
    }
    assert apps[..|apps|] == apps;
  }
}
