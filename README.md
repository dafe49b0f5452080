# Newest-radar-file selection of the SkyScope backend

The backend serves the latest low-altitude radar reflectivity mosaic of the
MRMS feed as a PNG. Each refresh runs `fetchLatestRadar` in `server.js`. It
reads the feed's directory index. It keeps the anchor targets that name
compressed GRIB2 files (`.grib2.gz`). It sorts them with JavaScript's default
`Array.prototype.sort` and takes the last one, which is the newest because the
names carry fixed-width timestamps. If there is none it throws
"No radar files found". Otherwise it downloads `baseUrl + name`, converts the
file with an external tool, and reports the image path `<cache>/latest.png`,
or `null` when anything failed.

This project models that routine in Dafny:

- `wrappers.dfy` (module `Wrappers`): `Option` (JavaScript's `undefined`) and `Result` (a value or a thrown error).
- `js_string.dfy` (module `JsString`): JavaScript strings as sequences of UTF-16 code units. It defines `Less`, the string `<` of ECMAScript (code unit by code unit, a proper prefix is smaller), and proves it a strict total order. It also defines `endsWith` and the UTF-16 encoding of literals.
- `array_sort.dfy` (module `ArraySort`): `links.sort()` as an in-place sort of an `array` into `Less` order. It proves that every correct sort leaves the same array, so the engine's choice of algorithm does not matter.
- `server.dfy` (module `Server`): the link filter, the loop that collects links, the maximum, `at(-1)` with the falsy check, URL construction, and the try/catch outcome of `fetchLatestRadar`.

The network, the HTML parser, the filesystem and the conversion command are
inputs of the model (`World`). `listing` is the `href` of every anchor in
document order, or the error thrown while fetching the index. `download` gives
the outcome of fetching one URL and writing it to the cache. `convert` is the
outcome of the `gunzip | gdal_translate` command. The cache directory is a
parameter, because `path.resolve("./cache")` depends on the working directory.

## Model

| member | source | states |
|---|---|---|
| `JsString.EndsWith` | server.js:32 | `endsWith`: a string ends with a suffix exactly when it is some string followed by that suffix |
| `Server.IsGribLink` | server.js:32 | the test `href && href.endsWith(".grib2.gz")` holds exactly for a present href ending with the suffix (the truthiness test adds nothing) |
| `Server.GribLinks` | server.js:29-33 | every collected link ends with `.grib2.gz`; a name ending with it is collected exactly when some anchor's href is that name (both directions) |
| `Server.CollectLinks` | server.js:29-33 | the `.each` loop that pushes hrefs builds exactly the filtered list `GribLinks` |
| `Server.GribNameIsTruthy` | server.js:32 | a name ending with the suffix is never the empty string, so the `href &&` test never rejects a matching name |
| `Server.GribSuffixSpellsLiteral` | server.js:32 | the suffix constant holds, one code unit per character, `".grib2.gz"` |
| `Server.GribLinksCount` | server.js:30-33 | each name occurs in the list as often as it occurs as an href if it ends with the suffix, and otherwise never |
| `Server.GribLinksAppend` | server.js:30-33 | the filter keeps document order: the links of a page are the links of its first part followed by those of the rest |
| `Server.IgnoredHref` | server.js:31-32 | an anchor with no href, or with an href lacking the suffix, contributes nothing wherever it stands |
| `Server.GribLinksPermutation` | server.js:30-33 | reordering the anchors only reorders the collected links (same multiset) |
| `JsString.Less` | server.js:36 | the string order of the default sort: a proper prefix is below the longer string, and a string is never below one of its own prefixes |
| `JsString.LessAtFirstDifference` | server.js:36 | where neither string is a prefix of the other, the first differing code unit decides the order |
| `JsString.LessIrreflexive` | server.js:36 | no string sorts below itself |
| `JsString.LessTransitive` | server.js:36 | the sort order is transitive |
| `JsString.LessTotal` | server.js:36 | of two different strings one sorts below the other |
| `JsString.LessAsymmetric` | server.js:36 | two strings never sort below each other |
| `JsString.NotLessTransitive` | server.js:36 | "not below" chains: the relation a sorted array keeps between neighbours extends to all pairs |
| `ArraySort.SortInPlace` | server.js:36 | `links.sort()` leaves the array in ascending code-unit order and a permutation of what it held |
| `ArraySort.SortedLastIsGreatest` | server.js:36 | the last element of a sorted array is not below any other element |
| `ArraySort.SortedPermutationsEqual` | server.js:36 | two sorted arrangements of the same strings are equal, so any sorting algorithm gives the same array |
| `Server.Maximum` | server.js:36 | the reference "latest" name: it is one of the names, and no name is above it |
| `Server.MaximumOfPermutation` | server.js:36 | the maximum depends only on the multiset of names |
| `Server.At` | server.js:36 | `at(index)`: defined exactly for `-length <= index < length`; a non-negative index counts from the start, a negative one from the end |
| `Server.PickLast` | server.js:36-37 | `at(-1)` plus the `!latest` test: it fails, always with "No radar files found", exactly when the array is empty or its last element is the empty string; otherwise the last element is the result |
| `Server.NoRadarFilesSpellsLiteral` | server.js:37 | the error constant's message is the code units of `"No radar files found"` |
| `Server.PickLastIsMaximum` | server.js:36-37 | on a sorted permutation of the collected links, picking the last gives the maximum, and the error is thrown exactly when there are no links |
| `Server.FileUrl` | server.js:39 | the download URL has the base URL as prefix and the chosen name as suffix, and nothing else |
| `Server.FileUrlInjective` | server.js:39 | distinct names give distinct URLs under one base |
| `Server.Locate` | server.js:29-39 | the listing step fails exactly when no link matches, and then with "No radar files found" |
| `Server.LocatedUrlNamesNewestFile` | server.js:29-39 | a located URL is the base URL followed by a name that an anchor links to, that ends with the suffix, and that no matching link is above |
| `Server.LocateLatest` | server.js:29-39 | collecting, sorting in place, picking the last, checking and concatenating compute `Locate` |
| `Server.LocateIgnoresAnchorOrder` | server.js:29-39 | permuting the anchors of the index page does not change the URL or the error |
| `Server.NewerTimestampWins` | server.js:35-39 | of two names that differ only in an equal-width timestamp, the later timestamp's URL is built |
| `Server.TwoMinutesLaterIsChosen` | server.js:35-39 | `RALA_20240101-000200.grib2.gz` is chosen over `RALA_20240101-000000.grib2.gz` |
| `Server.PngNameSpellsLiteral` | server.js:43 | the image name constant holds, one code unit per character, `"/latest.png"` |
| `Server.PngPath` | server.js:43 | the image path is the cache directory followed by `/latest.png` |
| `Server.Refresh` | server.js:22-54 | the `try` block: success is always the fixed image path; a failure is the listing's error, "No radar files found", the download's error or the conversion's error |
| `Server.FetchLatestRadar` | server.js:21-59 | the result is `null` or the fixed image path; it is the path exactly when the listing was fetched, some link matched, the newest file's URL downloaded and the conversion ran |
| `Server.EmptyListingSkipsDownload` | server.js:37-51 | with no matching link the routine fails with "No radar files found" whatever the download and the conversion would do |
| `Server.RefreshDownloadsOnlyLatest` | server.js:39-47 | the outcome depends on the download of the newest file's URL and of no other URL |
| `Server.RefreshIgnoresAnchorOrder` | server.js:29-57 | the outcome of the whole routine does not depend on the order of the anchors |

## Left out

- HTTP fetching of the index and of the data file (server.js:25, 46-47): network I/O. Their outcome is an input. The code never checks the response status, so a 404 page is parsed like any other.
- Parsing the index with cheerio (server.js:28-30): a foreign library. Its output, the `href` of every anchor in document order, is the input sequence.
- Creating the cache directory and writing the downloaded file (server.js:17-18, 48): filesystem side effects. The write is folded into the `download` outcome.
- The `gunzip | gdal_translate` command (server.js:51): an external process. Only its success or failure is modelled. No decompression, GRIB2 decoding or rasterisation exists in the code to model.
- `path.resolve` and `path.join` (server.js:17, 42-43): the cache directory is a parameter, and the image path is that directory followed by `/latest.png`. This assumes the POSIX separator `/` and a directory without a trailing separator, which is what `path.resolve` returns there; `Server.PngPath` does not require it of its argument, and no normalisation of `path.join` is modelled.
- The Express routes, CORS, compression and `listen` (server.js:10-14, 62-78): HTTP plumbing. The routes only map `null` to a 500 response. The "serve the existing file" check is commented out (server.js:64, 67), so there is no cache state to model.
- Console logging, including the error message printed by the `catch` block (server.js:24, 40, 53, 56).
- Concurrency: two overlapping requests run two independent refreshes writing the same files. The model describes one run.
- The base URL constant: that its code units spell `https://mrms.ncep.noaa.gov/2D/ReflectivityAtLowestAltitude/` is stated in its comment and not proved. Unfolding `Utf16` over the 60-character literal is too costly for the solver.
