# Omniarchive vault crawler, modelled in Dafny

This project models the crawler in `src/vault-crawler.ts` of mc-versions. The
crawler walks the Omniarchive vault of Minecraft Java builds. It reads each
listing page and builds a catalog of every client and server artifact, filed
by era (pre-classic, classic, indev, infdev, alpha, beta, release, april-fools).

The work has two phases.

1. **Crawl.** For each page the crawler does three things:
   - It finds the era from the page title. The title must contain a
     `client-<slug>` or `server-<slug>` segment after `/archive/java/`, or a
     `misc` segment.
   - It keeps each anchor whose link is a `.jar`, or a `.zip` on the
     `server-classic` side.
   - It reads the upload time and size from the text after that anchor.
   Each artifact is stored in a per-side map keyed by a derived id. A later
   artifact with the same id replaces the earlier one.
2. **Merge.** Each client artifact becomes one version. That version is paired
   with the server artifact of the same id, if there is one, and that server
   artifact is removed from its map. The server artifacts left over become
   versions of their own. Every version goes into the bucket of its era, and
   the versions are counted.

The Dafny modules follow that structure:

- `Wrappers`: `Option`, `Result`, and the page handler's `Outcome`.
- `JsString`: the JavaScript string and number primitives the code uses. These
  are `split` on one character, `at(-1)`, `trim`, `split(/\s+/)` and `Number`.
- `OrderedMaps`: a JavaScript `Map`, as a key sequence in insertion order plus
  a map.
- `Classify`: the eras, `getVersionType`, the title pattern, and how an
  artifact's id and side are derived from its link.
- `Extract`: `verifyExtension`, parsing of the description text, and the
  reading of one anchor and of one page.
- `Merge`: the merge and bucketing as functions (the specification), with the
  lemmas about them, and the bucket initialisation and counting loops.
- `Vault`: the mutable state, `vaultDownloadMap`, as a class. Its methods
  handle a page and run the merge, each proved against the functions above.
- `Frontier`: the regular expression that chooses which links are enqueued.

## Model

| member | source | states |
|---|---|---|
| Extract.AcceptedLinkStem | src/vault-crawler.ts:154-156 | a link `VerifyExtension` accepts ends in `.jar`, or in `.zip` and mentions `server-classic`; its last path segment is the file stem plus that four-character extension |
| Classify.TypeOfSlug | src/vault-crawler.ts:164-181 | the switch maps a second field to the one era whose slug it is, and to nothing when no era has that slug |
| Classify.GetVersionType | src/vault-crawler.ts:158-184 | the only failure is the thrown "unknown version type" error, and it carries the raw segment |
| Classify.GetVersionTypeIff | src/vault-crawler.ts:158-184 | the era is t exactly when the segment mentions `misc` and t is release, or it does not and its second `-`-field is t's slug |
| Classify.GetVersionTypeBySecondField | src/vault-crawler.ts:158-184 | without `misc`, the era is t exactly when the second `-`-field is t's slug; it fails exactly when there is no second field or no era has that slug |
| Classify.GetVersionTypeOfSideSegment | src/vault-crawler.ts:158-184 | a `client-`/`server-` segment with a known slug maps to that slug's era |
| Classify.GetVersionTypeOfUnknownSlug | src/vault-crawler.ts:181-182 | a `client-`/`server-` segment with an unknown slug throws |
| Classify.SlugLength | src/vault-crawler.ts:43 | `[a-z\-]*` takes the longest run of slug characters |
| Classify.FirstMatch | src/vault-crawler.ts:43-45 | the result is the leftmost position where the title pattern matches; no earlier position matches |
| Classify.TitleSegment | src/vault-crawler.ts:43-45 | there is no segment exactly when the pattern matches nowhere; otherwise the segment is the title's text at the leftmost match: `misc`, or `client-`/`server-` followed by the whole run of slug characters there |
| Classify.MatchTextAt | src/vault-crawler.ts:43 | the text matched at a position occurs in the title there, and a side segment's slug run cannot be extended |
| Classify.DeriveIdIsStemPrefix | src/vault-crawler.ts:50-51 | the id (`DeriveId`) is a prefix of the last path segment, no longer than the stem; it equals the stem unless the stem ends in `-server` and is longer than 14 characters |
| Classify.ServerCutIsSuffixStripOnlyAt21 | src/vault-crawler.ts:51 | for a `-server` stem, `slice(0, 14)` removes exactly the suffix iff the stem is 21 characters long |
| Extract.ParseDescription | src/vault-crawler.ts:53-58 | the only way parsing fails is the crash on a missing time token |
| Extract.ParseDescriptionFailsIffOneWord | src/vault-crawler.ts:53-56 | parsing fails iff the trimmed text has no whitespace, so `descArray[1]` is undefined |
| Extract.DescriptionTokens | src/vault-crawler.ts:53-54 | trimming and splitting on whitespace runs yields exactly the three tokens, whatever whitespace surrounds and separates them |
| Extract.ParseWellFormed | src/vault-crawler.ts:53-58 | text in the listing's `d/m/y h:m:s size` format parses to the numbers written in it, with the month made zero-based |
| Extract.ParseNumeralTokens | src/vault-crawler.ts:55-58 | `ParseTokens` of the three tokens gives the `new Date` arguments (year, month less one, day, hour, minute, second) and the size |
| JsString.SplitThenJoin | src/vault-crawler.ts:50 | joining the fields of `split` with the separator gives back the string |
| JsString.JoinThenSplit | src/vault-crawler.ts:55-56 | splitting separator-free fields that were joined gives back the fields |
| JsString.DecimalRoundTrip | src/vault-crawler.ts:55-58 | `Number` of a decimal numeral is its value |
| Extract.ReadAnchor | src/vault-crawler.ts:48-71 | an anchor is skipped iff its link fails the extension check, and crashes iff the link passes and its text fails to parse; an extracted download carries the link, the page's era and the derived id, is server-side (`DeriveSide`) iff the link contains `server`, and its time and size are what its text parses to |
| Extract.ReadWellFormedAnchor | src/vault-crawler.ts:48-71 | an accepted anchor followed by `d/m/y h:m:s size` text yields one download with the derived id and side and the numbers written in the text, the month less one |
| Extract.ScanAnchors | src/vault-crawler.ts:47-73 | every download of a page has the page's era, an accepted link, and the id and side derived from that link |
| Extract.ScanAnchorsComplete | src/vault-crawler.ts:47-73 | a page fails iff some anchor crashes; a page that does not fail yields one download per accepted anchor, in anchor order |
| Extract.ScanStopsAtFirstCrash | src/vault-crawler.ts:47-73 | a page that fails stops at its first crashing anchor, reports that anchor's error, and has yielded one download per accepted anchor before it, in order |
| Extract.PageScan | src/vault-crawler.ts:43-73 | a title without a match yields nothing; a title with an unknown era yields that error and no downloads; on a page of a known era every download has that era, and the page fails iff one of its anchors crashes |
| Extract.MiscPageIsRelease | src/vault-crawler.ts:43-45 | every artifact of a `misc` page is a release |
| OrderedMaps.OrderedMap.Set | src/vault-crawler.ts:71 | `Map.set` updates the entry; a new key goes to the end of the insertion order and an existing key keeps its place |
| OrderedMaps.OrderedMap.Delete | src/vault-crawler.ts:104 | `Map.delete` removes the entry and its key (the keys become `Without(keys, {k})`) |
| OrderedMaps.WithoutAppend | src/vault-crawler.ts:104 | removing keys from a key sequence keeps the remaining keys in their order: it distributes over concatenation |
| OrderedMaps.KeysCount | src/vault-crawler.ts:90-91 | a map's `size` is the number of its keys |
| Vault.Absorb | src/vault-crawler.ts:47-71 | storing a page's downloads keeps the map well formed, only appends keys, and keeps every entry keyed by its own id on the right side |
| Vault.AbsorbLastWins | src/vault-crawler.ts:71 | after storing a sequence of downloads, an id holds the last download of that side with that id |
| Vault.AbsorbUntouched | src/vault-crawler.ts:71 | an id that no download of that side carries keeps its old entry, or its absence |
| Vault.Vault.constructor | src/vault-crawler.ts:35 | both per-side maps start empty |
| Vault.Vault.Record | src/vault-crawler.ts:71 | through `Put`, a download is stored in the map of its own side under its id, and the other map is unchanged |
| Vault.Vault.HandleAnchor | src/vault-crawler.ts:48-71 | one anchor step yields the anchor's reading and stores an extracted download; a skip or crash changes nothing |
| Vault.Vault.HandleAnchors | src/vault-crawler.ts:47-73 | the anchor loop stores the page's downloads in anchor order and fails with the first crash, keeping what was stored before it |
| Vault.Vault.HandlePage | src/vault-crawler.ts:39-74 | handling a page stores exactly the page's downloads and fails iff the page's reading fails |
| Merge.ClientPass | src/vault-crawler.ts:100-125 | the client pass makes one version per client key, in insertion order |
| Merge.ServerPass | src/vault-crawler.ts:127-137 | the server pass makes one server-only version per remaining server key, in insertion order |
| Merge.MergedAt | src/vault-crawler.ts:100-137 | version i has the i-th client key, or else a leftover server key, and is the expected version for its id |
| Merge.MergeCorrect | src/vault-crawler.ts:100-137 | the merged versions (`MergedVersions`) have distinct ids; each is the expected pairing for its id; every id of either side appears; there are \|client\|+\|server\|-\|shared ids\| of them |
| Merge.MergedVersionShape | src/vault-crawler.ts:100-137 | a version pairs both sides iff its id is on both; it has a client part iff its id is a client id; its era is the client's when there is one, else the server's |
| Merge.ClientDownloadEmittedOnce | src/vault-crawler.ts:100-125 | each stored client download appears in exactly one version |
| Merge.ServerDownloadEmittedOnce | src/vault-crawler.ts:100-137 | each stored server download appears in exactly one version, paired or on its own |
| Merge.EmptyCatalog | src/vault-crawler.ts:95-98 | every era has a bucket of that era with no versions |
| Merge.NewTypeContainers | src/vault-crawler.ts:95-98 | the initialisation loop builds the empty catalog |
| Merge.Bucketize | src/vault-crawler.ts:113-136 | filing versions by era leaves a bucket for every era |
| Merge.BucketizeStep | src/vault-crawler.ts:113-136 | filing one more version (`Push`) appends it to the bucket of its era and leaves every other bucket unchanged |
| Merge.BucketizeAt | src/vault-crawler.ts:113-136 | the bucket of era t holds exactly the versions of era t, in merge order |
| Merge.OfTypeMembers | src/vault-crawler.ts:113-136 | a version is in era t's bucket iff it was merged and has era t |
| Merge.CatalogCorrect | src/vault-crawler.ts:95-148 | every era has its own bucket; membership is by era; the bucket sizes add up to the number of versions |
| Merge.CatalogIdsUnique | src/vault-crawler.ts:95-137 | no id occurs twice in any bucket or across buckets |
| Merge.FileServerOnly | src/vault-crawler.ts:127-137 | the server loop appends the leftover server versions, in key order, to the catalog built so far |
| Merge.CountVersions | src/vault-crawler.ts:141-149 | the counting loop's total is the number of merged versions |
| Merge.MergedCount | src/vault-crawler.ts:90-93 | the number of merged versions is the client count plus the server count less the ids found on both sides |
| Vault.Vault.PairOne | src/vault-crawler.ts:101-124 | one client entry becomes its version, and its server partner, if any, is deleted |
| Vault.Vault.PairClients | src/vault-crawler.ts:100-125 | the client loop files the client pass and leaves only the unpaired server artifacts |
| Vault.Vault.Merge | src/vault-crawler.ts:95-137 | the merge phase leaves the client map unchanged and the server map drained, and its catalog is the buckets of the merged versions |
| Vault.Vault.Assemble | src/vault-crawler.ts:95-149 | the client map is unchanged and the server map is left with only the unpaired artifacts; the final catalog is the bucketing of the merged versions, and the total is client count plus server count less shared ids |
| Frontier.AsWrittenAcceptsAnyCharacter | src/vault-crawler.ts:79 | the pattern as written (`MatchesAsWritten`) accepts `index` + any character + `html`; only `.` is a real index page |
| Frontier.IndexPageShape | src/vault-crawler.ts:79 | every index page is the archive root, a middle part and `index.html`, and the pattern as written accepts it |
| Frontier.Enqueue | src/vault-crawler.ts:78-80 | a link is enqueued iff the pattern as written accepts it |
| Frontier.EnqueueKeepsIndexPages | src/vault-crawler.ts:78-80 | every real index page among the links is enqueued, and so is `index` + any other character + `html` |

## Left out

- The crawler framework (Crawlee's `CheerioCrawler`) is not part of this model. This covers the request queue, URL resolution, de-duplication of visited pages, `maxConcurrency`, the rate limit, `sleep(10)` and the start URL (lines 37-87). A page is an input: its title and its anchors.
- HTML parsing by Cheerio: each anchor is given as its `href` (empty when it has none) and the text of the next node (lines 47-53).
- Of `enqueueLinks`, only the filter by the line-79 pattern as written is modelled. The links are taken as already absolute, and queueing and visiting are left out with the crawler.
- `Date`: the model keeps the six numbers passed to `new Date(...)`, with the month less one. It does not model the calendar, time zones or field overflow (line 57).
- `Number`: only the empty string (0) and decimal digit strings are modelled. Any other text, and a missing field, is NaN. Signs, fractions, exponents, hex and surrounding whitespace in a token are left out (lines 55-58).
- Logging, `Dataset.pushData`, `JSON.stringify` and the file write are left out (lines 40-41, 60, 92-93, 144, 149, 151-152). The JSON object `allVaultVersions` (lines 139, 147) is the catalog itself.
- Crawlee catches an error thrown in a page handler, then retries the page or gives it up. The model returns the error as `Outcome.Fail` and leaves retries out. Artifacts stored before the error stay stored, as they do in the source.
- The only description crash modelled is the missing `descArray[1]`. A missing first token cannot happen, because `split` always yields at least one field.
- The `(misc)(?=\/)` alternative of the title pattern has no lookbehind, so it can match anywhere in the title. The model keeps this and finds the leftmost match of either alternative, as `String.match` with `/g` does.
- The server id cut is the literal `slice(0, 14)`. Stripping `-server` would cut at `|stem| - 7`; the code cuts at 14, and the two agree only for 21-character stems. A `foo-client.jar` / `foo-server.jar` pair gets the ids `foo-client` and `foo-server` (a 10-character stem is kept whole), so they do not pair.
- The merged catalog depends on order: within a side the last artifact with an id wins, and on iteration order of the maps. The model keeps insertion order; it does not claim that the order of pages leaves the result unchanged.

## Findings

| source | as written | input that shows it | evidently intended | confidence | as-written member | corrected member |
|---|---|---|---|---|---|---|
| src/vault-crawler.ts:79 | `.*index.html$` leaves the dot unescaped, so any character between `index` and `html` matches | `https://vault.omniarchive.uk/archive/java/indexXhtml` | only URLs ending in the literal `index.html` | not executed | Frontier.AsWrittenAcceptsAnyCharacter | Frontier.IndexPageShape |

`Frontier.Enqueue` keeps the links the pattern accepts as written, since that is
what the crawler does. `Frontier.IsIndexPage` is the intended filter.
`Frontier.IndexPageShape` and `Frontier.EnqueueKeepsIndexPages` prove that the
slip only widens the filter: no real index page is lost.
