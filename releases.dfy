/** The release index of the spaCy models (`get_spacy_models`): the tags of the
    GitHub releases, page by page, folded into a map from model name to the
    list of its stable versions.

    The HTTP side is an input: `pages` holds the tag names of every page that
    was fetched successfully, in order, and `httpError` says whether the
    request after the last of them raised `HTTPError` (the loop otherwise ends
    when a response has no "next" link). */
module SpacyReleases {
  import opened Options

  /** The known spaCy model names, in the order of the source's list. */
  const SpacyModelNames: seq<string> := [
    "ca_core_news_lg", "ca_core_news_md", "ca_core_news_sm", "ca_core_news_trf",
    "da_core_news_lg", "da_core_news_md", "da_core_news_sm", "da_core_news_trf",
    "de_core_news_lg", "de_core_news_md", "de_core_news_sm", "de_dep_news_trf",
    "de_pytt_bertbasecased_lg", "de_trf_bertbasecased_lg", "el_core_news_lg", "el_core_news_md",
    "el_core_news_sm", "en_core_web_lg", "en_core_web_md", "en_core_web_sm",
    "en_core_web_trf", "en_depent_web_md", "en_pytt_bertbaseuncased_lg", "en_pytt_distilbertbaseuncased_lg",
    "en_pytt_robertabase_lg", "en_pytt_xlnetbasecased_lg", "en_trf_bertbaseuncased_lg", "en_trf_distilbertbaseuncased_lg",
    "en_trf_robertabase_lg", "en_trf_xlnetbasecased_lg", "en_vectors_glove_md", "en_vectors_web_lg",
    "es_core_news_lg", "es_core_news_md", "es_core_news_sm", "es_core_web_md",
    "es_dep_news_trf", "fr_core_news_lg", "fr_core_news_md", "fr_core_news_sm",
    "fr_dep_news_trf", "fr_depvec_web_lg", "it_core_news_lg", "it_core_news_md",
    "it_core_news_sm", "ja_core_news_lg", "ja_core_news_md", "ja_core_news_sm",
    "ja_core_news_trf", "lt_core_news_lg", "lt_core_news_md", "lt_core_news_sm",
    "mk_core_news_lg", "mk_core_news_md", "mk_core_news_sm", "nb_core_news_lg",
    "nb_core_news_md", "nb_core_news_sm", "nl_core_news_lg", "nl_core_news_md",
    "nl_core_news_sm", "pl_core_news_lg", "pl_core_news_md", "pl_core_news_sm",
    "pt_core_news_lg", "pt_core_news_md", "pt_core_news_sm", "ro_core_news_lg",
    "ro_core_news_md", "ro_core_news_sm", "ru_core_news_lg", "ru_core_news_md",
    "ru_core_news_sm", "xx_ent_wiki_sm", "xx_sent_ud_sm", "zh_core_web_lg",
    "zh_core_web_md", "zh_core_web_sm", "zh_core_web_trf"
  ]

  /** What `get_spacy_models` gives back: the release map, or the first tag
      without a hyphen, whose unpacking raises a `ValueError` that nothing
      catches. */
  datatype Fetch = Releases(releases: map<string, seq<string>>) | TagError(tag: string)

  /** Index of the first `-` in `s`, if any. */
  function HyphenIndex(s: string): (r: Option<nat>)
    ensures r.Some? ==> r.value < |s| && s[r.value] == '-' && '-' !in s[..r.value]
    ensures r.None? ==> '-' !in s
  {
    if |s| == 0 then None
    else if s[0] == '-' then Some(0)
    else match HyphenIndex(s[1..])
      case None => None
      case Some(i) => Some(i + 1)
  }

  /** `tag.split("-", maxsplit=1)` unpacked into `(name, version)`; `None`
      when the split yields a single part. */
  function SplitTag(tag: string): Option<(string, string)> {
    match HyphenIndex(tag)
    case None => None
    case Some(i) => Some((tag[..i], tag[i + 1..]))
  }

  /** The alpha/beta filter: any `a` or `b` anywhere in the version. */
  predicate IsPreRelease(version: string) {
    'a' in version || 'b' in version
  }

  /** `releases.get(name, [])` */
  function VersionsIn(releases: map<string, seq<string>>, name: string): seq<string> {
    if name in releases then releases[name] else []
  }

  /** The fallback after an HTTP error: every known name mapped to `[]`. */
  function Fallback(): map<string, seq<string>> {
    map name | name in SpacyModelNames :: []
  }

  /** Every page's tags, in order. */
  function Flatten(pages: seq<seq<string>>): seq<string>
    decreases |pages|
  {
    if pages == [] then [] else Flatten(pages[..|pages| - 1]) + pages[|pages| - 1]
  }

  /** One pass of the inner loop body over an accumulated map. */
  function Record(releases: map<string, seq<string>>, tag: string): Fetch {
    match SplitTag(tag)
    case None => TagError(tag)
    case Some((name, version)) =>
      if IsPreRelease(version) then Releases(releases)
      else Releases(releases[name := VersionsIn(releases, name) + [version]])
  }

  /** The loop over all tags, one step per tag, stopping at the first error. */
  function Collect(tags: seq<string>): Fetch
    decreases |tags|
  {
    if tags == [] then Releases(map[])
    else
      var before := Collect(tags[..|tags| - 1]);
      if before.TagError? then before else Record(before.releases, tags[|tags| - 1])
  }

  /** The whole of `get_spacy_models` as a function of what the network gave. */
  function SpacyModels(pages: seq<seq<string>>, httpError: bool): Fetch {
    var collected := Collect(Flatten(pages));
    if collected.TagError? then collected
    else if httpError then Releases(Fallback())
    else collected
  }

  method GetSpacyModels(pages: seq<seq<string>>, httpError: bool) returns (r: Fetch)
    ensures r == SpacyModels(pages, httpError)
  {
    var releases: map<string, seq<string>> := map[];
    var p := 0;
    while p < |pages|
      invariant 0 <= p <= |pages|
      invariant Collect(Flatten(pages[..p])) == Releases(releases)
    {
      var page := pages[p];
      ghost var done := Flatten(pages[..p]);
      assert done + page[..0] == done;
      for i := 0 to |page|
        invariant Collect(done + page[..i]) == Releases(releases)
      {
        var tag := page[i];
        CollectPageStep(done, page, i);
        var split := SplitTag(tag);
        if split.None? {
          CollectErrorInPage(pages, p, i);
          return TagError(tag);
        }
        var (name, version) := split.value;
        if IsPreRelease(version) {
          continue;
        }
        releases := releases[name := VersionsIn(releases, name) + [version]];
      }
      FlattenStep(pages, p);
      p := p + 1;
    }
    assert pages[..|pages|] == pages;
    if httpError {
      releases := Fallback();
    }
    r := Releases(releases);
  }

  /** The accepted versions of `name` among `tags`, in order: the reference
      definition the release map is checked against. */
  function VersionsOf(tags: seq<string>, name: string): seq<string>
    decreases |tags|
  {
    if tags == [] then []
    else
      var here := match SplitTag(tags[0])
        case Some((n, v)) => if n == name && !IsPreRelease(v) then [v] else []
        case None => [];
      here + VersionsOf(tags[1..], name)
  }

  predicate AllHyphenated(tags: seq<string>) {
    forall i :: 0 <= i < |tags| ==> '-' in tags[i]
  }

  // ---------------------------------------------------------------------
  // Splitting a tag

  /** The split is at the first hyphen: the name holds no `-`, the version
      keeps whatever hyphens follow. */
  lemma SplitTagIff(tag: string, name: string, version: string)
    ensures SplitTag(tag) == Some((name, version)) <==> tag == name + "-" + version && '-' !in name
  {
    if tag == name + "-" + version && '-' !in name {
      assert tag[..|name|] == name;
      assert tag[|name|] == '-';
      assert tag[|name| + 1..] == version;
    }
  }

  lemma SplitTagNone(tag: string)
    ensures SplitTag(tag).None? <==> '-' !in tag
  {
  }

  // ---------------------------------------------------------------------
  // Facts about the fold

  lemma CollectSnoc(tags: seq<string>, tag: string)
    ensures Collect(tags + [tag]) ==
      if Collect(tags).TagError? then Collect(tags) else Record(Collect(tags).releases, tag)
  {
    assert (tags + [tag])[..|tags|] == tags;
  }

  lemma CollectPageStep(done: seq<string>, page: seq<string>, i: nat)
    requires i < |page|
    ensures Collect(done + page[..i + 1]) ==
      if Collect(done + page[..i]).TagError? then Collect(done + page[..i])
      else Record(Collect(done + page[..i]).releases, page[i])
  {
    assert done + page[..i + 1] == (done + page[..i]) + [page[i]];
    CollectSnoc(done + page[..i], page[i]);
  }

  lemma FlattenStep(pages: seq<seq<string>>, p: nat)
    requires p < |pages|
    ensures Flatten(pages[..p + 1]) == Flatten(pages[..p]) + pages[p][..|pages[p]|]
  {
    assert pages[..p + 1][..p] == pages[..p];
    assert pages[p][..|pages[p]|] == pages[p];
  }

  /** A tag that fails inside page `p` decides the whole fold. */
  lemma CollectErrorInPage(pages: seq<seq<string>>, p: nat, i: nat)
    requires p < |pages| && i < |pages[p]|
    requires Collect(Flatten(pages[..p]) + pages[p][..i + 1]).TagError?
    ensures Collect(Flatten(pages)) == Collect(Flatten(pages[..p]) + pages[p][..i + 1])
  {
    var upTo := Flatten(pages[..p]) + pages[p][..i + 1];
    FlattenPrefix(pages, p + 1);
    FlattenStep(pages, p);
    assert upTo <= Flatten(pages[..p + 1]);
    assert Flatten(pages)[..|upTo|] == upTo;
    CollectErrorPrefix(Flatten(pages), |upTo|);
  }

  /** Once a prefix has failed, the whole fold reports the same tag. */
  lemma {:induction false} CollectErrorPrefix(tags: seq<string>, k: nat)
    requires k <= |tags| && Collect(tags[..k]).TagError?
    ensures Collect(tags) == Collect(tags[..k])
    decreases |tags| - k
  {
    if k < |tags| {
      assert tags[..k + 1] == tags[..k] + [tags[k]];
      CollectSnoc(tags[..k], tags[k]);
      CollectErrorPrefix(tags, k + 1);
    } else {
      assert tags[..k] == tags;
    }
  }

  lemma {:induction false} FlattenPrefix(pages: seq<seq<string>>, q: nat)
    requires q <= |pages|
    ensures Flatten(pages[..q]) <= Flatten(pages)
    decreases |pages| - q
  {
    if q < |pages| {
      FlattenPrefix(pages, q + 1);
      assert pages[..q + 1][..q] == pages[..q];
    } else {
      assert pages[..q] == pages;
    }
  }

  /** Concatenating tag lists concatenates the versions of every name: the
      pages contribute in the order they were fetched. */
  lemma {:induction false} VersionsOfAppend(xs: seq<string>, ys: seq<string>, name: string)
    ensures VersionsOf(xs + ys, name) == VersionsOf(xs, name) + VersionsOf(ys, name)
    decreases |xs|
  {
    if xs != [] {
      assert (xs + ys)[1..] == xs[1..] + ys;
      VersionsOfAppend(xs[1..], ys, name);
    } else {
      assert xs + ys == ys;
    }
  }

  /** A version is listed for a name exactly when some tag reads
      `name-version` with a name free of hyphens and a stable version. */
  lemma {:induction false} VersionsOfMember(tags: seq<string>, name: string, version: string)
    ensures version in VersionsOf(tags, name) <==>
      '-' !in name && !IsPreRelease(version) &&
      exists i :: 0 <= i < |tags| && tags[i] == name + "-" + version
    decreases |tags|
  {
    if tags != [] {
      VersionsOfMember(tags[1..], name, version);
      SplitTagIff(tags[0], name, version);
      match SplitTag(tags[0])
      case None =>
      case Some((n, v)) =>
        SplitTagIff(tags[0], n, v);
      if exists i :: 0 <= i < |tags| && tags[i] == name + "-" + version {
        var i :| 0 <= i < |tags| && tags[i] == name + "-" + version;
        if i > 0 {
          assert tags[1..][i - 1] == tags[i];
        }
      }
      if exists i :: 0 <= i < |tags[1..]| && tags[1..][i] == name + "-" + version {
        var i :| 0 <= i < |tags[1..]| && tags[1..][i] == name + "-" + version;
        assert tags[i + 1] == tags[1..][i];
      }
    }
  }

  /** When every tag splits, the fold succeeds and each name's list is
      exactly its accepted versions in order; a name is a key only if at least
      one of its versions was accepted. */
  lemma {:induction false} CollectIsVersionsOf(tags: seq<string>)
    requires AllHyphenated(tags)
    ensures Collect(tags).Releases?
    ensures forall name :: name in Collect(tags).releases <==> VersionsOf(tags, name) != []
    ensures forall name :: name in Collect(tags).releases ==>
      Collect(tags).releases[name] == VersionsOf(tags, name)
    decreases |tags|
  {
    if tags != [] {
      var init, last := tags[..|tags| - 1], tags[|tags| - 1];
      assert init + [last] == tags;
      CollectIsVersionsOf(init);
      CollectSnoc(init, last);
      var m := Collect(init).releases;
      assert '-' in last;
      var (n, v) := SplitTag(last).value;
      SplitTagIff(last, n, v);
      assert VersionsOf([last], n) == if IsPreRelease(v) then [] else [v];
      forall name
        ensures VersionsOf(tags, name) == VersionsOf(init, name) + VersionsOf([last], name)
        ensures name != n ==> VersionsOf([last], name) == []
      {
        VersionsOfAppend(init, [last], name);
      }
    }
  }

  /** The fold succeeds exactly when every tag has a hyphen. */
  lemma {:induction false} CollectSucceedsIff(tags: seq<string>)
    ensures Collect(tags).Releases? <==> AllHyphenated(tags)
    decreases |tags|
  {
    if tags != [] {
      var init, last := tags[..|tags| - 1], tags[|tags| - 1];
      assert init + [last] == tags;
      CollectSucceedsIff(init);
      CollectSnoc(init, last);
      if AllHyphenated(tags) {
        assert AllHyphenated(init) by {
          forall i | 0 <= i < |init| ensures '-' in init[i] {
            assert init[i] == tags[i];
          }
        }
      }
      if Collect(tags).Releases? {
        forall i | 0 <= i < |tags| ensures '-' in tags[i] {
          if i < |init| {
            assert init[i] == tags[i];
          }
        }
      }
    }
  }

  /** The fold stops at the first tag without a hyphen and reports it. */
  lemma {:induction false} CollectFirstMalformed(tags: seq<string>, i: nat)
    requires i < |tags| && '-' !in tags[i] && AllHyphenated(tags[..i])
    ensures Collect(tags) == TagError(tags[i])
  {
    CollectIsVersionsOf(tags[..i]);
    CollectSnoc(tags[..i], tags[i]);
    assert tags[..i + 1] == tags[..i] + [tags[i]];
    CollectErrorPrefix(tags, i + 1);
  }

  // ---------------------------------------------------------------------
  // Properties of get_spacy_models

  /** Without an HTTP error, every name maps to its stable versions in the
      order the pages and tags were walked, duplicates kept. */
  lemma SpacyModelsVersions(pages: seq<seq<string>>, name: string)
    requires AllHyphenated(Flatten(pages))
    ensures SpacyModels(pages, false).Releases?
    ensures name in SpacyModels(pages, false).releases <==> VersionsOf(Flatten(pages), name) != []
    ensures name in SpacyModels(pages, false).releases ==>
      SpacyModels(pages, false).releases[name] == VersionsOf(Flatten(pages), name)
  {
    CollectIsVersionsOf(Flatten(pages));
  }

  /** No pre-release version and no name with a hyphen reaches the map. */
  lemma SpacyModelsNoPreRelease(pages: seq<seq<string>>, name: string, version: string)
    requires SpacyModels(pages, false).Releases?
    requires name in SpacyModels(pages, false).releases
    requires version in SpacyModels(pages, false).releases[name]
    ensures !IsPreRelease(version) && '-' !in name
    ensures name + "-" + version in Flatten(pages)
  {
    var tags := Flatten(pages);
    CollectSucceedsIff(tags);
    CollectIsVersionsOf(tags);
    VersionsOfMember(tags, name, version);
  }

  /** An HTTP error discards whatever was gathered: the result is the fixed
      list of known names, each with no versions. */
  lemma SpacyModelsHttpError(pages: seq<seq<string>>)
    requires AllHyphenated(Flatten(pages))
    ensures SpacyModels(pages, true) == Releases(Fallback())
    ensures SpacyModels(pages, true).releases.Keys == set name | name in SpacyModelNames
    ensures forall name :: name in SpacyModels(pages, true).releases ==>
      SpacyModels(pages, true).releases[name] == []
  {
    CollectIsVersionsOf(Flatten(pages));
  }

  /** A tag without a hyphen escapes as an error, whatever the HTTP outcome,
      and it is the first such tag. */
  lemma SpacyModelsTagError(pages: seq<seq<string>>, httpError: bool, i: nat)
    requires i < |Flatten(pages)| && '-' !in Flatten(pages)[i]
    requires AllHyphenated(Flatten(pages)[..i])
    ensures SpacyModels(pages, httpError) == TagError(Flatten(pages)[i])
  {
    CollectFirstMalformed(Flatten(pages), i);
  }
}
