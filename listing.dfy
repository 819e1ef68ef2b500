/** The table printed by `list_spacy_models`: a fixed header row, then one row
    per model of the release index, ordered by model name. The installed
    packages are an input (`installed` maps a distribution name to its
    version), standing for `get_installed_model_version`. */
module SpacyListing {
  import opened Options
  import opened Text
  import opened SpacyReleases

  datatype Row = Row(model: string, installed: Option<string>, available: string)

  /** What `list_spacy_models` ends with: the table and the status it
      returns, or the tag whose `ValueError` escaped from the release fetch. */
  datatype Listing = Listed(table: seq<Row>, status: int) | ListFailed(tag: string)

  const HeaderRow := Row("spaCy model", Some("installed version"), "available versions")

  /** `get_installed_model_version`: `None` when the distribution is not found. */
  function InstalledVersion(installed: map<string, string>, name: string): Option<string> {
    if name in installed then Some(installed[name]) else None
  }

  function ModelRow(releases: map<string, seq<string>>, installed: map<string, string>, name: string): Row
    requires name in releases
  {
    Row(name, InstalledVersion(installed, name), Join(releases[name], ", "))
  }

  function Models(rows: seq<Row>): seq<string> {
    seq(|rows|, k requires 0 <= k < |rows| => rows[k].model)
  }

  /** `s[lo..hi]` is ascending, ties allowed. */
  predicate SortedIn(s: seq<string>, lo: nat, hi: nat) {
    forall k :: lo < k < hi && k < |s| ==> StrLe(s[k - 1], s[k])
  }

  predicate Sorted(s: seq<string>) {
    SortedIn(s, 0, |s|)
  }

  predicate StrictlySorted(s: seq<string>) {
    forall k :: 0 < k < |s| ==> StrLt(s[k - 1], s[k])
  }

  /** The table the source prints for `releases`: the header, then every key
      exactly once in ascending order, each with its installed version and its
      available versions joined by ", ". */
  ghost predicate IsListing(table: seq<Row>, releases: map<string, seq<string>>, installed: map<string, string>) {
    && |table| >= 1
    && table[0] == HeaderRow
    && StrictlySorted(Models(table[1..]))
    && multiset(Models(table[1..])) == multiset(releases.Keys)
    && forall k :: 1 <= k < |table| ==>
         table[k].model in releases && table[k] == ModelRow(releases, installed, table[k].model)
  }

  /** `list.sort` on the model names, in place (an insertion sort; the names
      are distinct, so every correct sort gives the same order). */
  method SortByName(a: array<string>)
    modifies a
    ensures Sorted(a[..])
    ensures multiset(a[..]) == old(multiset(a[..]))
  {
    var i := 0;
    while i < a.Length
      invariant 0 <= i <= a.Length
      invariant SortedIn(a[..], 0, i)
      invariant multiset(a[..]) == old(multiset(a[..]))
    {
      SinkInto(a, i);
      i := i + 1;
    }
  }

  /** One pass of the sort: moves `a[i]` down into the sorted prefix `a[..i]`. */
  method SinkInto(a: array<string>, i: nat)
    requires i < a.Length && SortedIn(a[..], 0, i)
    modifies a
    ensures SortedIn(a[..], 0, i + 1)
    ensures multiset(a[..]) == old(multiset(a[..]))
    ensures a[i + 1..] == old(a[i + 1..])
  {
    var j := i;
    while j > 0 && StrLt(a[j], a[j - 1])
      invariant 0 <= j <= i
      invariant SortedIn(a[..], 0, j) && SortedIn(a[..], j, i + 1)
      invariant 0 < j < i ==> StrLe(a[j - 1], a[j + 1])
      invariant multiset(a[..]) == old(multiset(a[..]))
      invariant a[i + 1..] == old(a[i + 1..])
    {
      ghost var before := a[..];
      a[j - 1], a[j] := a[j], a[j - 1];
      SwapStep(before, a[..], i, j);
      j := j - 1;
    }
    if j > 0 && a[j - 1] != a[j] {
      StrLtTotal(a[j - 1], a[j]);
    }
  }

  /** Exchanging `s[j - 1]` and `s[j]` when they are out of order moves the
      sorted run one place to the left. */
  lemma SwapStep(s: seq<string>, t: seq<string>, i: nat, j: nat)
    requires 0 < j <= i < |s| && t == s[j - 1 := s[j]][j := s[j - 1]]
    requires SortedIn(s, 0, j) && SortedIn(s, j, i + 1)
    requires j < i ==> StrLe(s[j - 1], s[j + 1])
    requires StrLt(s[j], s[j - 1])
    ensures SortedIn(t, 0, j - 1) && SortedIn(t, j - 1, i + 1)
    ensures 0 < j - 1 < i ==> StrLe(t[j - 2], t[j])
  {
  }

  /** `list(releases.items())`, keys only: every key once, in whatever order
      the map yields them. */
  method KeysOf(releases: map<string, seq<string>>) returns (names: array<string>)
    ensures fresh(names)
    ensures multiset(names[..]) == multiset(releases.Keys)
  {
    names := new string[|releases|];
    var remaining := releases.Keys;
    var k := 0;
    while remaining != {}
      invariant 0 <= k <= names.Length
      invariant |remaining| == names.Length - k
      invariant remaining <= releases.Keys
      invariant multiset(names[..k]) + multiset(remaining) == multiset(releases.Keys)
      decreases remaining
    {
      var name :| name in remaining;
      names[k] := name;
      assert names[..k + 1] == names[..k] + [name];
      assert multiset(remaining) == multiset(remaining - {name}) + multiset{name};
      remaining := remaining - {name};
      k := k + 1;
    }
    assert names[..] == names[..k];
  }

  /** The table for releases already fetched. */
  method Tabulate(releases: map<string, seq<string>>, installed: map<string, string>) returns (table: seq<Row>)
    ensures IsListing(table, releases, installed)
  {
    var names := KeysOf(releases);
    SortByName(names);
    var sorted := names[..];
    assert multiset(sorted) == multiset(releases.Keys);
    forall j | 0 <= j < |sorted| ensures sorted[j] in releases {
      assert sorted[j] in multiset(sorted);
      assert sorted[j] in multiset(releases.Keys);
    }

    table := [HeaderRow];
    for i := 0 to |sorted|
      invariant |table| == i + 1 && table[0] == HeaderRow
      invariant Models(table[1..]) == sorted[..i]
      invariant forall k :: 1 <= k < |table| ==>
        table[k].model in releases && table[k] == ModelRow(releases, installed, table[k].model)
    {
      ghost var prev := table;
      table := table + [ModelRow(releases, installed, sorted[i])];
      assert table[1..] == prev[1..] + [table[i + 1]];
      assert sorted[..i + 1] == sorted[..i] + [sorted[i]];
      ModelsSnoc(prev[1..], table[i + 1]);
    }
    assert sorted[..|sorted|] == sorted;
    DistinctSortedIsStrict(sorted, releases.Keys);
  }

  lemma ModelsSnoc(rows: seq<Row>, row: Row)
    ensures Models(rows + [row]) == Models(rows) + [row.model]
  {
  }

  /** Ascending and repetition-free (as the keys of a map are) means strictly
      ascending. */
  lemma DistinctSortedIsStrict(s: seq<string>, keys: set<string>)
    requires Sorted(s) && multiset(s) == multiset(keys)
    ensures StrictlySorted(s)
  {
    forall k | 0 < k < |s| ensures StrLt(s[k - 1], s[k]) {
      if s[k - 1] == s[k] {
        CountedTwice(s, k - 1, k);
        assert false;
      }
    }
  }

  lemma CountedTwice(s: seq<string>, i: nat, j: nat)
    requires i < j < |s| && s[i] == s[j]
    ensures multiset(s)[s[i]] >= 2
  {
    assert s == s[..i] + [s[i]] + s[i + 1..j] + [s[j]] + s[j + 1..];
  }

  method ListSpacyModels(pages: seq<seq<string>>, httpError: bool, installed: map<string, string>)
    returns (r: Listing)
    ensures SpacyModels(pages, httpError).TagError? ==> r == ListFailed(SpacyModels(pages, httpError).tag)
    ensures SpacyModels(pages, httpError).Releases? ==>
      r.Listed? && r.status == 0 && IsListing(r.table, SpacyModels(pages, httpError).releases, installed)
  {
    var fetched := GetSpacyModels(pages, httpError);
    if fetched.TagError? {
      return ListFailed(fetched.tag);
    }
    var table := Tabulate(fetched.releases, installed);
    return Listed(table, 0);
  }

  // ---------------------------------------------------------------------
  // The listing is determined by the releases

  lemma {:induction false} StrictlySortedFirstIsLeast(s: seq<string>, k: nat)
    requires StrictlySorted(s) && 0 < k < |s|
    ensures StrLt(s[0], s[k])
    decreases k
  {
    if k > 1 {
      StrictlySortedFirstIsLeast(s, k - 1);
      StrLtTransitive(s[0], s[k - 1], s[k]);
    }
  }

  /** Strictly ascending sequences with the same elements start alike. */
  lemma SameLeast(s: seq<string>, t: seq<string>)
    requires StrictlySorted(s) && StrictlySorted(t) && multiset(s) == multiset(t)
    requires |s| > 0
    ensures |t| > 0 && s[0] == t[0]
  {
    assert s[0] in multiset(t) && t[0] in multiset(s);
    var i :| 0 <= i < |t| && t[i] == s[0];
    var j :| 0 <= j < |s| && s[j] == t[0];
    if i > 0 && j > 0 {
      StrictlySortedFirstIsLeast(t, i);
      StrictlySortedFirstIsLeast(s, j);
      StrLtTransitive(s[0], s[j], s[0]);
      StrLtIrreflexive(s[0]);
    }
  }

  /** Two strictly ascending sequences with the same elements are equal. */
  lemma {:induction false} StrictlySortedUnique(s: seq<string>, t: seq<string>)
    requires StrictlySorted(s) && StrictlySorted(t) && multiset(s) == multiset(t)
    ensures s == t
    decreases |s|
  {
    if |s| > 0 {
      SameLeast(s, t);
      assert s == [s[0]] + s[1..] && t == [t[0]] + t[1..];
      assert multiset(s[1..]) == multiset(s) - multiset{s[0]};
      assert multiset(t[1..]) == multiset(t) - multiset{t[0]};
      StrictlySortedUnique(s[1..], t[1..]);
    } else {
      assert |t| == |multiset(t)| == 0;
    }
  }

  /** Whatever order the source happened to see the keys in, there is one
      table for given releases and installed packages. */
  lemma ListingUnique(t1: seq<Row>, t2: seq<Row>, releases: map<string, seq<string>>, installed: map<string, string>)
    requires IsListing(t1, releases, installed) && IsListing(t2, releases, installed)
    ensures t1 == t2
  {
    StrictlySortedUnique(Models(t1[1..]), Models(t2[1..]));
    assert |t1| == |t2|;
    forall k | 1 <= k < |t1| ensures t1[k] == t2[k] {
      assert Models(t1[1..])[k - 1] == t1[k].model;
      assert Models(t2[1..])[k - 1] == t2[k].model;
    }
  }

  /** One row per key: the table has as many model rows as the map has keys,
      and every key appears. */
  lemma ListingCoversKeys(table: seq<Row>, releases: map<string, seq<string>>, installed: map<string, string>, name: string)
    requires IsListing(table, releases, installed)
    ensures |table| == |releases| + 1
    ensures name in releases <==> exists k :: 1 <= k < |table| && table[k].model == name
  {
    var models := Models(table[1..]);
    assert |models| == |multiset(models)| == |multiset(releases.Keys)| == |releases.Keys|;
    if name in releases {
      assert name in multiset(models);
      var k :| 0 <= k < |models| && models[k] == name;
      assert table[k + 1].model == name;
    }
  }
}
