/**
 * The "newest radar file" step of `fetchLatestRadar` in server.js: collect
 * the anchor targets of the directory index that name compressed GRIB2 files,
 * sort them, take the last one, build its download URL, and report the whole
 * routine as the fixed PNG path or `null`.
 *
 * The network, the HTML parser, the filesystem and the conversion tool are
 * not modelled; what they produce (or the error they throw) is an input.
 */
module Server {
  import opened Wrappers
  import opened JsString
  import ArraySort

  /** The `href` attribute of one anchor; `None` when the anchor has none (`undefined`). */
  type Href = Option<JsStr>

  /** A thrown JavaScript `Error`, reduced to its message. */
  datatype Error = Error(message: JsStr)

  /** How an external step ended: it completed, or it threw. */
  datatype Outcome = Done | Threw(error: Error)

  /**
   * What the outside world does during one run:
   * `listing` is the `href` of every anchor of the index page in document
   * order, or the error thrown while fetching it; `download` is the outcome of
   * fetching a file URL and writing its body to the cache; `convert` is the
   * outcome of the decompress-and-convert command.
   */
  datatype World = World(listing: Result<seq<Href>, Error>, download: JsStr -> Outcome, convert: Outcome)

  /** The directory index of the reflectivity-at-lowest-altitude product, as code units:
      "https://mrms.ncep.noaa.gov/2D/ReflectivityAtLowestAltitude/". */
  const BaseUrl: JsStr := [104, 116, 116, 112, 115, 58, 47, 47, 109, 114, 109, 115, 46, 110, 99, 101, 112, 46, 110, 111, 97, 97, 46, 103, 111, 118, 47, 50, 68, 47, 82, 101, 102, 108, 101, 99, 116, 105, 118, 105, 116, 121, 65, 116, 76, 111, 119, 101, 115, 116, 65, 108, 116, 105, 116, 117, 100, 101, 47]

  /** The extension of the compressed GRIB2 files: ".grib2.gz". */
  const GribSuffix: JsStr := [46, 103, 114, 105, 98, 50, 46, 103, 122]

  /** The error thrown when the index holds no data file: "No radar files found". */
  const NoRadarFiles: Error := Error([78, 111, 32, 114, 97, 100, 97, 114, 32, 102, 105, 108, 101, 115, 32, 102, 111, 117, 110, 100])

  /** The file name of the converted image joined onto the cache directory: "/latest.png". */
  const PngName: JsStr := [47, 108, 97, 116, 101, 115, 116, 46, 112, 110, 103]

  /** The suffix, image-name and error-message constants are the code units of their literals. */
  lemma GribSuffixSpellsLiteral()
    ensures Spells(GribSuffix, ".grib2.gz")
  {
  }

  lemma PngNameSpellsLiteral()
    ensures Spells(PngName, "/latest.png")
  {
  }

  lemma NoRadarFilesSpellsLiteral()
    ensures Spells(NoRadarFiles.message, "No radar files found")
  {
  }

  /** JavaScript truthiness of a string: only the empty string is falsy. */
  predicate Truthy(s: JsStr) {
    s != []
  }

  /** `href && href.endsWith(".grib2.gz")` */
  predicate IsGribLink(href: Href): (r: bool)
    ensures r <==> href.Some? && EndsWith(href.value, GribSuffix)
  {
    href.Some? && Truthy(href.value) && EndsWith(href.value, GribSuffix)
  }

  /** Every name ending with the suffix is non-empty, so the truthiness test never rejects one. */
  lemma GribNameIsTruthy(name: JsStr)
    requires EndsWith(name, GribSuffix)
    ensures Truthy(name)
  {
  }

  /**
   * The links the `.each` loop pushes, in document order: the present hrefs
   * that end with the suffix.
   */
  function GribLinks(hrefs: seq<Href>): (links: seq<JsStr>)
    ensures forall name | name in links :: EndsWith(name, GribSuffix)
    ensures forall name | EndsWith(name, GribSuffix) :: name in links <==> Some(name) in hrefs
  {
    if hrefs == [] then []
    else
      var n := |hrefs|;
      var front := GribLinks(hrefs[..n - 1]);
      assert hrefs == hrefs[..n - 1] + [hrefs[n - 1]];
      if IsGribLink(hrefs[n - 1]) then front + [hrefs[n - 1].value] else front
  }

  /** Models lines 29-33: a loop over the anchors pushing every matching href. */
  method CollectLinks(hrefs: seq<Href>) returns (links: seq<JsStr>)
    ensures links == GribLinks(hrefs)
  {
    links := [];
    for i := 0 to |hrefs|
      invariant links == GribLinks(hrefs[..i])
    {
      assert hrefs[..i + 1][..i] == hrefs[..i];
      var href := hrefs[i];
      if IsGribLink(href) {
        links := links + [href.value];
      }
    }
    assert hrefs[..|hrefs|] == hrefs;
  }

  /** A name occurs in the links exactly as often as it occurs as an href, if it ends with the suffix. */
  lemma {:induction false} GribLinksCount(hrefs: seq<Href>, name: JsStr)
    ensures multiset(GribLinks(hrefs))[name] ==
            if EndsWith(name, GribSuffix) then multiset(hrefs)[Some(name)] else 0
  {
    if hrefs != [] {
      var n := |hrefs|;
      GribLinksCount(hrefs[..n - 1], name);
      assert hrefs == hrefs[..n - 1] + [hrefs[n - 1]];
      assert multiset(hrefs) == multiset(hrefs[..n - 1]) + multiset([hrefs[n - 1]]);
      if EndsWith(name, GribSuffix) {
        GribNameIsTruthy(name);
      }
    }
  }

  /** The filter works anchor by anchor: the links of a page are those of its first part followed by those of the rest. */
  lemma {:induction false} GribLinksAppend(front: seq<Href>, back: seq<Href>)
    ensures GribLinks(front + back) == GribLinks(front) + GribLinks(back)
  {
    if back == [] {
      assert front + back == front;
    } else {
      var n := |back|;
      assert (front + back)[..|front + back| - 1] == front + back[..n - 1];
      GribLinksAppend(front, back[..n - 1]);
    }
  }

  /** An anchor without an href, or whose href lacks the suffix, contributes nothing wherever it stands. */
  lemma IgnoredHref(front: seq<Href>, href: Href, back: seq<Href>)
    requires href == None || !EndsWith(href.value, GribSuffix)
    ensures GribLinks(front + [href] + back) == GribLinks(front + back)
  {
    GribLinksAppend(front + [href], back);
    GribLinksAppend(front, [href]);
    GribLinksAppend(front, back);
    assert [href][..0] == [];
  }

  /** Reordering the anchors reorders the links and nothing more. */
  lemma GribLinksPermutation(hrefs: seq<Href>, others: seq<Href>)
    requires multiset(hrefs) == multiset(others)
    ensures multiset(GribLinks(hrefs)) == multiset(GribLinks(others))
  {
    forall name
      ensures multiset(GribLinks(hrefs))[name] == multiset(GribLinks(others))[name]
    {
      GribLinksCount(hrefs, name);
      GribLinksCount(others, name);
    }
  }

  /** The greatest name in code-unit order: the reference definition of "the latest file". */
  function Maximum(names: seq<JsStr>): (m: JsStr)
    requires names != []
    ensures m in names
    ensures forall name | name in names :: !Less(m, name)
  {
    if |names| == 1 then
      LessIrreflexive(names[0]);
      names[0]
    else
      var rest := Maximum(names[1..]);
      assert names == [names[0]] + names[1..];
      if Less(rest, names[0]) then
        LessAsymmetric(rest, names[0]);
        LessIrreflexive(names[0]);
        assert forall name | name in names[1..] :: !Less(names[0], name) by {
          forall name | name in names[1..]
            ensures !Less(names[0], name)
          {
            if Less(names[0], name) {
              LessTransitive(rest, names[0], name);
            }
          }
        }
        names[0]
      else
        rest
  }

  /** The greatest element depends only on which names there are, not on their order. */
  lemma MaximumOfPermutation(names: seq<JsStr>, others: seq<JsStr>)
    requires names != [] && multiset(names) == multiset(others)
    ensures others != [] && Maximum(names) == Maximum(others)
  {
    var m, o := Maximum(names), Maximum(others);
    assert m in multiset(others) && o in multiset(names);
    LessTotal(m, o);
  }

  /** `array.at(index)`: a negative index counts from the end; out of range gives `undefined`. */
  function At<T>(s: seq<T>, index: int): (r: Option<T>)
    ensures r.Some? <==> -|s| <= index < |s|
    ensures index < 0 && r.Some? ==> r.value == s[|s| + index]
    ensures 0 <= index && r.Some? ==> r.value == s[index]
  {
    var k := if index < 0 then |s| + index else index;
    if 0 <= k < |s| then Some(s[k]) else None
  }

  /** Models lines 36-37 after the sort: `latest = links.at(-1)`, then `if (!latest) throw`. */
  function PickLast(sorted: seq<JsStr>): (r: Result<JsStr, Error>)
    ensures r.Failure? ==> r.error == NoRadarFiles
    ensures sorted == [] ==> r.Failure?
    ensures sorted != [] && Truthy(sorted[|sorted| - 1]) ==> r == Success(sorted[|sorted| - 1])
    ensures r.Failure? <==> sorted == [] || !Truthy(sorted[|sorted| - 1])
  {
    var latest := At(sorted, -1);
    if latest.None? || !Truthy(latest.value) then Failure(NoRadarFiles) else Success(latest.value)
  }

  /**
   * Taking the last of the sorted links is taking their maximum; the error is
   * thrown exactly when there is no link.
   */
  lemma PickLastIsMaximum(sorted: seq<JsStr>, links: seq<JsStr>)
    requires ArraySort.Sorted(sorted) && multiset(sorted) == multiset(links)
    requires forall name | name in links :: EndsWith(name, GribSuffix)
    ensures PickLast(sorted) == if links == [] then Failure(NoRadarFiles) else Success(Maximum(links))
  {
    assert |sorted| == |multiset(links)| == |links|;
    if links != [] {
      var last, m := sorted[|sorted| - 1], Maximum(links);
      assert last in multiset(links) && m in multiset(sorted);
      assert last in links && m in sorted;
      ArraySort.SortedLastIsGreatest(sorted);
      LessTotal(last, m);
      assert last == m;
      GribNameIsTruthy(last);
      assert At(sorted, -1) == Some(last);
    }
  }

  /** Line 39: the template literal `${baseUrl}${latest}`. */
  function FileUrl(base: JsStr, name: JsStr): (url: JsStr)
    ensures |url| == |base| + |name|
    ensures url[..|base|] == base && url[|base|..] == name
  {
    base + name
  }

  /** Distinct files get distinct URLs under one base. */
  lemma FileUrlInjective(base: JsStr, name: JsStr, other: JsStr)
    requires FileUrl(base, name) == FileUrl(base, other)
    ensures name == other
  {
  }

  /**
   * What lines 29-39 compute from the index page: the download URL of the
   * greatest matching link, or the "No radar files found" error.
   */
  function Locate(hrefs: seq<Href>): (r: Result<JsStr, Error>)
    ensures r.Failure? <==> GribLinks(hrefs) == []
    ensures r.Failure? ==> r.error == NoRadarFiles
  {
    var links := GribLinks(hrefs);
    if links == [] then Failure(NoRadarFiles) else Success(FileUrl(BaseUrl, Maximum(links)))
  }

  /**
   * A located URL is the base URL followed by a name that some anchor links
   * to, that ends with the suffix, and that no other matching link is above.
   */
  lemma LocatedUrlNamesNewestFile(hrefs: seq<Href>)
    requires Locate(hrefs).Success?
    ensures |BaseUrl| <= |Locate(hrefs).value|
    ensures Locate(hrefs).value[..|BaseUrl|] == BaseUrl
    ensures var name := Locate(hrefs).value[|BaseUrl|..];
      Some(name) in hrefs && EndsWith(name, GribSuffix) &&
      forall other | other in GribLinks(hrefs) :: !Less(name, other)
  {
  }

  /** Lines 29-39 as the source runs them: collect, sort in place, take the last, check, build the URL. */
  method LocateLatest(hrefs: seq<Href>) returns (r: Result<JsStr, Error>)
    ensures r == Locate(hrefs)
  {
    var links := CollectLinks(hrefs);
    var a := new JsStr[|links|](k requires 0 <= k < |links| => links[k]);
    assert a[..] == links;
    ArraySort.SortInPlace(a);
    PickLastIsMaximum(a[..], links);
    var latest := PickLast(a[..]);
    if latest.Failure? {
      return Failure(latest.error);
    }
    r := Success(FileUrl(BaseUrl, latest.value));
  }

  /** The order of the anchors on the index page does not change which URL is chosen. */
  lemma LocateIgnoresAnchorOrder(hrefs: seq<Href>, others: seq<Href>)
    requires multiset(hrefs) == multiset(others)
    ensures Locate(hrefs) == Locate(others)
  {
    GribLinksPermutation(hrefs, others);
    if GribLinks(hrefs) != [] {
      MaximumOfPermutation(GribLinks(hrefs), GribLinks(others));
    } else {
      assert |multiset(GribLinks(others))| == 0;
    }
  }

  /** `path.join(CACHE_DIR, "latest.png")` for a resolved cache directory. */
  function PngPath(cacheDir: JsStr): (p: JsStr)
    ensures |p| == |cacheDir| + |PngName|
    ensures p[..|cacheDir|] == cacheDir && EndsWith(p, PngName)
  {
    EndsWithAppend(cacheDir, PngName);
    cacheDir + PngName
  }

  /** The body of the `try` block (lines 22-54): the path it returns, or the error it throws. */
  function Refresh(world: World, cacheDir: JsStr): (r: Result<JsStr, Error>)
    ensures r.Success? ==> r.value == PngPath(cacheDir)
    ensures r.Failure? && world.listing.Success? ==>
      r.error == NoRadarFiles ||
      (Locate(world.listing.value).Success? && world.download(Locate(world.listing.value).value) == Threw(r.error)) ||
      world.convert == Threw(r.error)
    ensures world.listing.Failure? ==> r == Failure(world.listing.error)
  {
    match world.listing
    case Failure(e) => Failure(e)
    case Success(hrefs) =>
      match Locate(hrefs)
      case Failure(e) => Failure(e)
      case Success(url) =>
        match world.download(url)
        case Threw(e) => Failure(e)
        case Done =>
          match world.convert
          case Threw(e) => Failure(e)
          case Done => Success(PngPath(cacheDir))
  }

  /**
   * `fetchLatestRadar` (lines 21-59): every failure is caught and reported as
   * `null`; a completed run reports the fixed image path.
   */
  method FetchLatestRadar(world: World, cacheDir: JsStr) returns (r: Option<JsStr>)
    ensures r == None || r == Some(PngPath(cacheDir))
    ensures r.Some? <==>
      world.listing.Success? &&
      GribLinks(world.listing.value) != [] &&
      world.download(FileUrl(BaseUrl, Maximum(GribLinks(world.listing.value)))).Done? &&
      world.convert.Done?
    ensures r.Some? <==> Refresh(world, cacheDir).Success?
  {
    if world.listing.Failure? {
      return None;
    }
    var hrefs := world.listing.value;
    var fileUrl := LocateLatest(hrefs);
    if fileUrl.Failure? {
      return None;
    }
    assert fileUrl.value == FileUrl(BaseUrl, Maximum(GribLinks(hrefs)));
    if world.download(fileUrl.value).Threw? {
      return None;
    }
    if world.convert.Threw? {
      return None;
    }
    r := Some(PngPath(cacheDir));
  }

  /**
   * With no matching link the routine throws "No radar files found" whatever
   * the download and the conversion would do: neither is reached.
   */
  lemma EmptyListingSkipsDownload(hrefs: seq<Href>, download: JsStr -> Outcome, convert: Outcome, cacheDir: JsStr)
    requires GribLinks(hrefs) == []
    ensures Refresh(World(Success(hrefs), download, convert), cacheDir) == Failure(NoRadarFiles)
  {
  }

  /** Only the URL of the newest file is ever downloaded: the routine's outcome depends on no other. */
  lemma RefreshDownloadsOnlyLatest(hrefs: seq<Href>, download: JsStr -> Outcome, other: JsStr -> Outcome,
                                   convert: Outcome, cacheDir: JsStr)
    requires GribLinks(hrefs) != []
    requires download(FileUrl(BaseUrl, Maximum(GribLinks(hrefs)))) == other(FileUrl(BaseUrl, Maximum(GribLinks(hrefs))))
    ensures Refresh(World(Success(hrefs), download, convert), cacheDir) ==
            Refresh(World(Success(hrefs), other, convert), cacheDir)
  {
  }

  /** Reordering the anchors of the index page does not change the outcome of the routine. */
  lemma RefreshIgnoresAnchorOrder(hrefs: seq<Href>, others: seq<Href>, download: JsStr -> Outcome,
                                  convert: Outcome, cacheDir: JsStr)
    requires multiset(hrefs) == multiset(others)
    ensures Refresh(World(Success(hrefs), download, convert), cacheDir) ==
            Refresh(World(Success(others), download, convert), cacheDir)
  {
    LocateIgnoresAnchorOrder(hrefs, others);
  }

  lemma GribLinksOfTwo(first: JsStr, second: JsStr)
    requires EndsWith(first, GribSuffix) && EndsWith(second, GribSuffix)
    ensures GribLinks([Some(first), Some(second)]) == [first, second]
  {
    var hrefs := [Some(first), Some(second)];
    GribNameIsTruthy(first);
    GribNameIsTruthy(second);
    assert hrefs[..1][..0] == [];
    assert GribLinks(hrefs[..1]) == [first] by {
      assert hrefs[..1] == [Some(first)];
    }
    assert hrefs[..|hrefs| - 1] == hrefs[..1];
  }

  lemma MaximumOfTwo(first: JsStr, second: JsStr)
    requires Less(first, second)
    ensures Maximum([first, second]) == second
  {
  }

  /**
   * Two files that differ only in an equal-width timestamp: the one with the
   * later timestamp is the one whose URL is built.
   */
  lemma NewerTimestampWins(stem: JsStr, older: JsStr, newer: JsStr)
    requires |older| == |newer| && Less(older, newer)
    ensures Locate([Some(stem + older + GribSuffix), Some(stem + newer + GribSuffix)]) ==
            Success(FileUrl(BaseUrl, stem + newer + GribSuffix))
  {
    var first, second := stem + older + GribSuffix, stem + newer + GribSuffix;
    LessUnderSuffixes(older, newer, GribSuffix, GribSuffix);
    LessCommonPrefix(stem, older + GribSuffix, newer + GribSuffix);
    assert first == stem + (older + GribSuffix) && second == stem + (newer + GribSuffix);
    EndsWithAppend(stem + older, GribSuffix);
    EndsWithAppend(stem + newer, GribSuffix);
    GribLinksOfTwo(first, second);
    MaximumOfTwo(first, second);
  }

  /** Of the files stamped 00:00:00 and 00:02:00 on 1 January 2024, the later one is chosen. */
  lemma TwoMinutesLaterIsChosen()
    ensures var stem := Utf16("RALA_20240101-");
      Locate([Some(stem + Utf16("000000") + GribSuffix), Some(stem + Utf16("000200") + GribSuffix)]) ==
      Success(FileUrl(BaseUrl, stem + Utf16("000200") + GribSuffix))
  {
    var older, newer := Utf16("000000"), Utf16("000200");
    Utf16OfBmp("000000");
    Utf16OfBmp("000200");
    assert older == [48, 48, 48, 48, 48, 48] && newer == [48, 48, 48, 50, 48, 48];
    assert older[3..] == [48, 48, 48] && newer[3..] == [50, 48, 48];
    assert Less(older, newer);
    NewerTimestampWins(Utf16("RALA_20240101-"), older, newer);
  }
}
