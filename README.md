# Product scraper API route: a Dafny model

This project models the decision logic of the Next.js API route
`POST /api/scrape-product`. The route is given a product page URL. It renders
the page in a remote browser and reads the product's fields in the page: title,
price, description, a specification table and image URLs. It then saves a
screenshot, the HTML, every image and a JSON file into a fresh
`product-<timestamp>` run folder, and answers with the data and download links.

The model has seven modules:

- `Wrappers` (`wrappers.dfy`): `Option`.
- `Text` (`text.dfy`): the JavaScript string operations the route uses.
  - `trim`, with the ECMAScript whitespace set.
  - `includes`.
  - `split(c).pop()` and `split(c)[0]`.
  - The decimal rendering of an index in a template literal.
- `Dom` (`dom.dfy`): the page as a sequence of elements in document order.
  - CSS selectors are opaque tags.
  - A comma-separated selector list matches an element when one of its members does.
  - `querySelector` and `querySelectorAll`.
- `OrderedMap` (`ordered_map.dfy`): the `specifications` object, as a list of
  entries in property order.
  - Assigning a new key appends it.
  - Assigning an existing key replaces its value where it stands.
- `Extractor` (`extractor.dfy`): the callback passed to `page.evaluate`.
  - Specification functions give each field: title, first-winning price and
    description, first-qualifying specification container, primary and
    fallback image lists.
  - Methods with the callback's own loops and `break`s are proved equal to
    those functions.
- `Artifacts` (`artifacts.dfy`): what the route derives after extraction.
  - The sanitised run-folder name.
  - The image extension, file name and link.
  - The per-image outcomes and their `filter(Boolean)` compaction into
    `downloadedImages`.
  - The three download links.
  - The names of the files written into one run folder.
- `Handler` (`handler.dfy`): the order of the route's checks.
  - 405 for a method other than POST.
  - 500 when creating the downloads root throws.
  - 400 for a falsy `url`.
  - 500 with `error.message` or the fixed fallback when a later step throws.
  - 200 with the payload otherwise.

Inputs stand in for the outside world. The browser, the clock, the file system
and the network are not modelled; their results are inputs to the model:

- the rendered page, as a `seq<Element>`;
- the ISO timestamp;
- whether creating the downloads root throws, and whether any later awaited
  step throws, as `Option<Thrown>`;
- whether each image's fetch and write went through, as `seq<bool>` indexed by
  the image's position.

Some of the code's rules differ from what a quick reading of it suggests. The
model follows the code exactly:

- **Specification container.** One might expect a container whose rows are all
  invalid to fall through to the next container selector. The code stops at the
  first container with at least one element matching
  `tr, .spec-row, .attribute-row`, even when no row has both a label and a
  value. `Extractor.SpecsFromFirstQualifying` states the code's rule.
- **`__proto__` label.** The code assigns into a plain `{}`. A row labelled
  `__proto__` runs the inherited setter, which ignores a string value, so that
  row adds nothing (`Extractor.ProtoLabelIgnored`).
- **Image extension.** One might expect the extension to come from the URL's
  last path segment. The code takes everything after the last `.` of the whole
  URL, query included, and then cuts at the first `?`.
  - A URL whose path has no dot gets as "extension" the part of the host after
    its last dot, then the path (`Artifacts.ExtensionOfDotlessPath`:
    `https://cdn.io/photo` gives `io/photo`). A URL with no dot at all, such as
    `https://localhost/photo`, gives the whole URL (`Artifacts.ExtensionWithoutDot`).
    The file name then contains slashes, which would normally make the write
    fail, so that image counts as not downloaded.
  - A dot inside the query decides the extension (`Artifacts.ExtensionDotInQuery`).
- **Per-selector lookup.** For each price, description or container selector,
  only the first element in document order that matches it is looked at.
  A later element for the same selector is never considered.
- **Failed image fetches.** One might expect an image whose fetch returns 404
  to count as not downloaded. In the code, `fetch` does not throw on an HTTP
  error status, so a 404 image is written and linked like any other. In the
  model, an image's outcome is false only when its fetch, body read or write
  throws.
- **Downloads root.** The code creates the downloads root before it checks
  `url`. A failure there yields 500 even for a request without a URL
  (`Handler.HandleStatus`).

## Model

| member | source | states |
|---|---|---|
| `Text.Trim` | src/pages/api/scrape-product.ts:69 | the result is the input with whitespace removed at both ends: it is empty exactly when the input is all whitespace, otherwise it neither starts nor ends with whitespace, and the input is whitespace + result + whitespace |
| `Text.TrimIdempotent` | src/pages/api/scrape-product.ts:123-124 | trimming an already trimmed label or value changes nothing |
| `Text.Contains` | src/pages/api/scrape-product.ts:141 | `includes`; `Text.ContainsAt` characterises it |
| `Text.ContainsAt` | src/pages/api/scrape-product.ts:141 | `includes(p)` holds exactly when `p` occurs at some index of the string |
| `Text.AfterLast` | src/pages/api/scrape-product.ts:189 | `split(c).pop()` is a suffix free of `c` that is the whole string or is preceded by `c` |
| `Text.BeforeFirst` | src/pages/api/scrape-product.ts:189 | `split(c)[0]` is a prefix free of `c` that is the whole string or is followed by `c` |
| `Text.NatToString` | src/pages/api/scrape-product.ts:190 | the decimal numeral of an index has at least one character, all digits, and one digit exactly below 10 |
| `Text.NatToStringValue` | src/pages/api/scrape-product.ts:190 | the digits of `${index}` spell the index in decimal, with no leading zero |
| `Text.NatToStringInjective` | src/pages/api/scrape-product.ts:190 | different indices render as different numerals |
| `Dom.QuerySelector` | src/pages/api/scrape-product.ts:81 | `querySelector` returns nothing exactly when no element matches, otherwise the element at the first matching index |
| `Dom.QuerySelectorAtFirstMatch` | src/pages/api/scrape-product.ts:116 | the element returned is the one at the first matching index |
| `Dom.QuerySelectorAll` | src/pages/api/scrape-product.ts:119 | `querySelectorAll` returns exactly the matching elements, never more than there are |
| `Dom.QuerySelectorAllAppend` | src/pages/api/scrape-product.ts:136 | matches keep document order: those of `a + b` are those of `a` followed by those of `b` |
| `OrderedMap.Lookup` | src/pages/api/scrape-product.ts:127 | a key is absent exactly when no entry has it; a found value is stored under that key |
| `OrderedMap.Put` | src/pages/api/scrape-product.ts:127 | after `m[k] = v` with `k` a storable key, `k` is present with `v`; entries with other keys are unchanged; keys stay distinct; an existing key keeps its position and a new key goes last (the fold never calls it for `__proto__`) |
| `OrderedMap.PutLookup` | src/pages/api/scrape-product.ts:127 | reading back after `m[k] = v` gives `v` for `k` and the old value for every other key |
| `OrderedMap.Keys` | src/pages/api/scrape-product.ts:127 | the keys in property order, one per entry, and exactly the keys present |
| `OrderedMap.PutKeys` | src/pages/api/scrape-product.ts:127 | `m[k] = v` appends `k` to the key order when it is new and leaves the order unchanged when it is already present |
| `OrderedMap.PutEntries` | src/pages/api/scrape-product.ts:127 | `m[k] = v` adds no entry other than `(k, v)`: every entry afterwards is that one or was already there |
| `Extractor.Title` | src/pages/api/scrape-product.ts:69 | the title rule; `Extractor.TitleOfFirstHeading` and `Extractor.TitleWithoutHeading` characterise it |
| `Extractor.TitleOfFirstHeading` | src/pages/api/scrape-product.ts:69 | the title is the trimmed text of the first `h1`, and is empty exactly when that text is missing or blank |
| `Extractor.TitleWithoutHeading` | src/pages/api/scrape-product.ts:69 | with no `h1` the title is the empty string |
| `Extractor.Wins` | src/pages/api/scrape-product.ts:82 | `if (el && el.textContent)` for the first element of one selector |
| `Extractor.FirstText` | src/pages/api/scrape-product.ts:80-102 | the first-winner rule for price and description; `Extractor.FirstTextWinner`, `Extractor.FirstTextAbsent`, `Extractor.FirstTextPresent` and `Extractor.FirstTextShortCircuit` characterise it |
| `Extractor.FirstTextWinner` | src/pages/api/scrape-product.ts:80-86 | when selector `i` is the first whose element has non-empty text, the value is that element's trimmed text |
| `Extractor.FirstTextAbsent` | src/pages/api/scrape-product.ts:80-86 | price or description is absent exactly when no selector's first element has non-empty text |
| `Extractor.FirstTextPresent` | src/pages/api/scrape-product.ts:96-102 | a present value always comes from the first winning selector |
| `Extractor.FirstTextShortCircuit` | src/pages/api/scrape-product.ts:84 | once a selector wins, selectors listed after it do not affect the value |
| `Extractor.FirstTextFallThrough` | src/pages/api/scrape-product.ts:80-86 | when no selector of a list wins, the selectors after the list decide alone |
| `Extractor.BlankTextWins` | src/pages/api/scrape-product.ts:82-83 | an element whose text is non-empty but all whitespace still wins, and stores the empty string |
| `Extractor.FindFirstText` | src/pages/api/scrape-product.ts:80-86 | the loop with `break` computes the first-winner value |
| `Extractor.RowEntry` | src/pages/api/scrape-product.ts:123-126 | what one row contributes; `Extractor.RowEntryClean` characterises it |
| `Extractor.RowEntryClean` | src/pages/api/scrape-product.ts:123-126 | a row contributes only a non-empty, trimmed label and value |
| `Extractor.SpecsFrom` | src/pages/api/scrape-product.ts:115-133 | the container loop's result; `Extractor.SpecsFromFirstQualifying` and `Extractor.SpecsFromNoneQualifying` characterise it |
| `Extractor.Specifications` | src/pages/api/scrape-product.ts:105-133 | `productInfo.specifications`; `Extractor.FindSpecifications` computes it |
| `Extractor.SpecsFromFirstQualifying` | src/pages/api/scrape-product.ts:115-133 | the first container with at least one row element supplies all entries, from its rows alone |
| `Extractor.SpecsFromNoneQualifying` | src/pages/api/scrape-product.ts:113-133 | with no such container the specifications stay `{}` |
| `Extractor.Collect` | src/pages/api/scrape-product.ts:122-129 | the `forEach` fold over row entries; `Extractor.CollectLookup`, `Extractor.CollectKeys`, `Extractor.CollectOrder` and `Extractor.CollectWellFormed` characterise it |
| `Extractor.ProtoLabelIgnored` | src/pages/api/scrape-product.ts:126-127 | a row labelled `__proto__` leaves the dictionary unchanged, as the inherited setter ignores a string |
| `Extractor.CollectWellFormed` | src/pages/api/scrape-product.ts:122-129 | the dictionary built from row entries has distinct keys, never `__proto__`, and no more entries than rows |
| `Extractor.CollectLookup` | src/pages/api/scrape-product.ts:122-129 | a label other than `__proto__` maps to `v` exactly when the last row entry with that label has value `v`: a repeated label overwrites |
| `Extractor.CollectKeys` | src/pages/api/scrape-product.ts:126-127 | a label other than `__proto__` is present exactly when some row entry carries it |
| `Extractor.FirstLabelsMembers` | src/pages/api/scrape-product.ts:122-129 | the independently defined label order lists exactly the labels other than `__proto__` that some row entry carries |
| `Extractor.FirstLabelsOrder` | src/pages/api/scrape-product.ts:122-129 | that label order has no repeats, and every row carrying a later label comes after a row carrying each earlier one: labels are ordered by first appearance |
| `Extractor.CollectOrder` | src/pages/api/scrape-product.ts:122-129 | the dictionary's keys, in property order, are the labels in order of first appearance: a repeated label keeps the place of its first row |
| `Extractor.RowsToSpecs` | src/pages/api/scrape-product.ts:119-129 | the dictionary one container's rows build; `Extractor.RowsToSpecsSpec`, `Extractor.RowsToSpecsOrder` and `Extractor.RowsToSpecsWellFormed` characterise it |
| `Extractor.RowsToSpecsSpec` | src/pages/api/scrape-product.ts:119-129 | for a container's rows: the labels are exactly those of valid rows other than `__proto__`, and each maps to the value of the last valid row with that label |
| `Extractor.RowsToSpecsOrder` | src/pages/api/scrape-product.ts:119-129 | the keys of a container's dictionary follow document order: each valid label once, ordered by the first row carrying it |
| `Extractor.RowsToSpecsWellFormed` | src/pages/api/scrape-product.ts:119-129 | no label repeats, there is at most one entry per row, and every label and value is non-empty and trimmed |
| `Extractor.CollectRows` | src/pages/api/scrape-product.ts:122-129 | the `forEach` over the rows builds the specified dictionary |
| `Extractor.FindSpecifications` | src/pages/api/scrape-product.ts:113-133 | the loop over `specSelectors` with `break` builds the specified dictionary |
| `Extractor.Srcs` | src/pages/api/scrape-product.ts:139-144 | the kept sources are exactly the `src` values of the elements the filter keeps, never more than there are elements |
| `Extractor.SrcsAppend` | src/pages/api/scrape-product.ts:139-144 | kept sources keep document order across `a + b` |
| `Extractor.PrimaryImages` | src/pages/api/scrape-product.ts:136-144 | the primary scan; `Extractor.PrimaryImagesSpec` characterises it |
| `Extractor.FallbackImages` | src/pages/api/scrape-product.ts:148-157 | the fallback scan; `Extractor.FallbackImagesSpec` characterises it |
| `Extractor.Images` | src/pages/api/scrape-product.ts:136-158 | `productInfo.images`; `Extractor.ImagesGate` characterises it and `Extractor.CollectImages` computes it |
| `Extractor.PrimaryImagesSpec` | src/pages/api/scrape-product.ts:136-144 | the primary list holds the `src` of exactly the product-image elements without "placeholder" or "loading", in document order |
| `Extractor.FallbackImagesSpec` | src/pages/api/scrape-product.ts:148-157 | the fallback list holds the `src` of exactly the `img` elements wider than 200 pixels without "logo" or "icon", in document order |
| `Extractor.ImagesGate` | src/pages/api/scrape-product.ts:147-158 | a non-empty primary list is the result; an image is in the result exactly when it is primary, or the primary list is empty and it is a fallback image |
| `Extractor.FallbackAdmitsPlaceholder` | src/pages/api/scrape-product.ts:154 | the fallback scan does not screen out a placeholder or loading URL |
| `Extractor.CollectImages` | src/pages/api/scrape-product.ts:136-158 | the two `forEach` scans, the second run only when the first found nothing, build the specified image list |
| `Extractor.Extracted` | src/pages/api/scrape-product.ts:63-161 | the callback's result, field by field, as the functions above define them; `Extractor.Evaluate` computes it |
| `Extractor.Evaluate` | src/pages/api/scrape-product.ts:63-161 | the whole callback returns title, price, description, specifications and images as specified |
| `Artifacts.Sanitize` | src/pages/api/scrape-product.ts:167 | each `:` and `.` becomes `-`, every other character and the length are kept |
| `Artifacts.FolderName` | src/pages/api/scrape-product.ts:167-168 | the folder is `product-` followed by the sanitised timestamp and holds no `:` or `.` |
| `Artifacts.FolderNameUnique` | src/pages/api/scrape-product.ts:167-168 | two different ISO timestamps give two different folders |
| `Artifacts.Extension` | src/pages/api/scrape-product.ts:189 | the extension is never empty and holds no `.` or `?` |
| `Artifacts.ExtensionOfUsualUrl` | src/pages/api/scrape-product.ts:189 | a URL ending in `.ext` or `.ext?query` with no dot in the query has extension `ext` |
| `Artifacts.ExtensionDefault` | src/pages/api/scrape-product.ts:189 | nothing between the last dot and the query gives `jpg` |
| `Artifacts.ExtensionWithoutDot` | src/pages/api/scrape-product.ts:189 | a URL with no dot is its own extension up to its first `?` |
| `Artifacts.ExtensionDotInQuery` | src/pages/api/scrape-product.ts:189 | a dot in the query decides the extension |
| `Artifacts.ExtensionOfDotlessPath` | src/pages/api/scrape-product.ts:189 | a URL whose path has no dot takes as extension the part of the host after its last dot, then the path: `https://cdn.io/photo` gives `io/photo` |
| `Artifacts.ImageFileName` | src/pages/api/scrape-product.ts:190 | `image-${index}.${imageExt}`; `Artifacts.ImageFileNamesDistinct` and `Artifacts.ImageFileNameNotFixed` characterise it |
| `Artifacts.ImagePath` | src/pages/api/scrape-product.ts:194 | the returned link; `Artifacts.ImagePathsDistinct` and `Artifacts.ImagePathNonEmpty` characterise it |
| `Artifacts.ImagePathNonEmpty` | src/pages/api/scrape-product.ts:194 | an image link is never the empty string, so `filter(Boolean)` never drops a success |
| `Artifacts.ImageFileNamesDistinct` | src/pages/api/scrape-product.ts:190 | images at different positions get different file names, whatever their URLs |
| `Artifacts.ImageFileNameNotFixed` | src/pages/api/scrape-product.ts:175-209 | no image file name is `screenshot.png`, `page.html` or `product-data.json` |
| `Artifacts.ImagePathsDistinct` | src/pages/api/scrape-product.ts:194 | images at different positions get different links |
| `Artifacts.ImageLinksWellFormed` | src/pages/api/scrape-product.ts:194 | every image link is non-empty, and no two positions share one |
| `Artifacts.CompactKept` | src/pages/api/scrape-product.ts:201-202 | compacting per-position outcomes of non-empty links keeps exactly the links at successful positions, in order |
| `Artifacts.KeptSpec` | src/pages/api/scrape-product.ts:202 | with distinct links, the kept links hold a position's link exactly when it succeeded, never repeat, and are no more than the positions |
| `Artifacts.DownloadOutcomes` | src/pages/api/scrape-product.ts:183-199 | the `images.map(...)` outcomes; `Artifacts.CompactOutcomes` characterises their compaction |
| `Artifacts.DownloadedImages` | src/pages/api/scrape-product.ts:182-203 | `productData.downloadedImages`; `Artifacts.DownloadedImagesSpec` characterises it |
| `Artifacts.Compact` | src/pages/api/scrape-product.ts:202 | `filter(Boolean)` keeps exactly the outcomes that are non-empty links, never more than there were |
| `Artifacts.CompactAppend` | src/pages/api/scrape-product.ts:202 | compaction keeps order across `a + b` |
| `Artifacts.CompactOutcomes` | src/pages/api/scrape-product.ts:183-202 | compacting the outcomes gives the links of the successful downloads, in order, each under its original index |
| `Artifacts.DownloadedImagesSpec` | src/pages/api/scrape-product.ts:182-203 | `downloadedImages` is set exactly when there are images; it then holds an image's link exactly when its download succeeded, without repeats, and no more links than images |
| `Artifacts.SecondOfThreeFails` | src/pages/api/scrape-product.ts:195-202 | with three images and the second failing, the links are those of images 0 and 2 |
| `Artifacts.RunFiles` | src/pages/api/scrape-product.ts:175-209 | the files written into one run folder; `Artifacts.RunFilesDistinct` characterises them |
| `Artifacts.RunFilesDistinct` | src/pages/api/scrape-product.ts:175-209 | no file written into a run folder overwrites another |
| `Artifacts.RunPathsSeparate` | src/pages/api/scrape-product.ts:219-222 | the same file name in two different folders gives two different links |
| `Artifacts.FolderOfPath` | src/pages/api/scrape-product.ts:219-222 | the run folder can be read back from any of the run's links |
| `Artifacts.DownloadLinks` | src/pages/api/scrape-product.ts:219-223 | the `downloads` object; `Artifacts.DownloadLinksSpec` characterises it |
| `Artifacts.DownloadLinksSpec` | src/pages/api/scrape-product.ts:215-223 | the three links lie in the run folder and differ from each other and from every image link |
| `Handler.ErrorText` | src/pages/api/scrape-product.ts:230 | the reported error is the thrown message when that is truthy, otherwise the fixed fallback; it is never falsy |
| `Handler.Handle` | src/pages/api/scrape-product.ts:27-233 | the route, in the order of its checks; `Handler.HandleStatus`, `Handler.MethodCheckedFirst`, `Handler.UrlCheckedBeforeBrowsing`, `Handler.FailureReportsError` and `Handler.SuccessPayload` characterise it |
| `Handler.Scrape` | src/pages/api/scrape-product.ts:163-225 | the successful run; `Handler.ScrapePayload` characterises it |
| `Handler.HandleStatus` | src/pages/api/scrape-product.ts:32-44 | 405 exactly for non-POST; 400 exactly for POST with a falsy `url` once the root exists; 500 exactly when a stage that runs throws; otherwise 200; `success` exactly for 200 |
| `Handler.MethodCheckedFirst` | src/pages/api/scrape-product.ts:32-34 | a non-POST request gets 405 whatever the rest of the environment |
| `Handler.UrlCheckedBeforeBrowsing` | src/pages/api/scrape-product.ts:40-44 | a falsy `url` gets 400 whatever the page and the later steps do |
| `Handler.FailureReportsError` | src/pages/api/scrape-product.ts:226-231 | a 500 carries the first thrown error's message, or the fallback |
| `Handler.SuccessPayload` | src/pages/api/scrape-product.ts:215-225 | a POST with a truthy `url` where no stage throws is answered by the successful run, with `success: true` |
| `Handler.ScrapePayload` | src/pages/api/scrape-product.ts:182-225 | a successful run carries the extracted fields, `downloadedImages` with exactly the successful image links (set only when there are images), and the three links into the run's folder |
| `Handler.RunsDoNotCollide` | src/pages/api/scrape-product.ts:167-222 | two successful runs at different ISO timestamps return different JSON links |

## Left out

- Browser automation: connecting, setting the user agent and viewport,
  navigating, and awaiting network idle. The rendered page is an input.
- Screenshots and `page.content()`. Only their file names and links are modelled.
- Real CSS selector matching. Each element carries the set of selector strings
  it matches, so `.product-gallery img` and `img.product-image` are tags like
  any other.
- `textContent` is an input string per element. The model does not compute it
  from child nodes.
- Compound selectors inside a row or container are matched against the
  container's descendants, given flat in document order.
- `fetch`, `arrayBuffer` and the file writes. Each image's outcome is an input
  boolean: whether these steps threw.
- The concurrency of `Promise.all`. The outcomes keep input order whatever the
  completion order, which the model states.
- `new Date().toISOString()`. The timestamp is an input string.
  `Artifacts.FolderNameUnique` assumes the ISO shape.
- `path.join` and `process.cwd()`. Links are built as the route's template
  literals do, and file names are compared within one folder.
- `JSON.stringify` of the product data, and the response serialisation, are
  not modelled. The JSON body is a datatype.
- A `url` that is a non-string truthy value is passed to the browser
  unchanged. The model only decides truthiness, and leaves out NaN and
  non-integer numbers.
- A `req.body` that is `null` or `undefined` makes the destructuring throw.
  This path is not modelled: the request carries the `url` property directly.
- `specifications`: JavaScript places integer-like property names before the
  others in enumeration order. This is not modelled; keys keep insertion order.
- Strings are sequences of characters. UTF-16 code units and lone surrogates
  are not modelled.
- `console.error`, `process.env.BLESS_TOKEN` and closing the browser are left
  out. A failure of `browser.close()` is part of the later-step failure input.
- `src/pages/index.tsx`, `src/pages/_app.tsx` and
  `src/utils/ensureDirectories.ts` are the UI and setup code; they are not part
  of this model.
