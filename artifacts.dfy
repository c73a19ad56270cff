/**
 * What the API route derives after extraction: the run folder's name, the
 * name and link of every downloaded image, the compaction of the per-image
 * outcomes into `downloadedImages`, and the three artifact links. Writing the
 * files and fetching the images are outside the model; a fetch-and-write
 * outcome per image is an input.
 */
module Artifacts {
  import opened Wrappers
  import opened Text

  // -------------------------------------------------------------- run folder

  /** The replacement `replace(/[:.]/g, '-')` makes for one character. */
  function SafeChar(c: char): char {
    if c == ':' || c == '.' then '-' else c
  }

  /** `timestamp.replace(/[:.]/g, '-')`: same length, each `:` and `.` turned into `-`, all else kept. */
  function Sanitize(ts: string): (r: string)
    ensures |r| == |ts|
    ensures forall i :: 0 <= i < |ts| ==> r[i] == SafeChar(ts[i])
    ensures ':' !in r && '.' !in r
  {
    if ts == [] then [] else [SafeChar(ts[0])] + Sanitize(ts[1..])
  }

  const FolderPrefix := "product-"

  /** `product-${timestamp}` with the timestamp sanitised: no `:` or `.`, eight characters longer than the timestamp. */
  function FolderName(ts: string): (r: string)
    ensures |r| == 8 + |ts|
    ensures r[..|FolderPrefix|] == FolderPrefix && r[|FolderPrefix|..] == Sanitize(ts)
    ensures ':' !in r && '.' !in r
  {
    FolderPrefix + Sanitize(ts)
  }

  /** The shape of `Date.prototype.toISOString()` for years 0000 to 9999: `YYYY-MM-DDTHH:mm:ss.sssZ`. */
  predicate IsIsoTimestamp(ts: string) {
    |ts| == 24
    && ts[4] == '-' && ts[7] == '-' && ts[10] == 'T' && ts[13] == ':' && ts[16] == ':'
    && ts[19] == '.' && ts[23] == 'Z'
    && forall i :: 0 <= i < 24 && i !in {4, 7, 10, 13, 16, 19, 23} ==> IsDigit(ts[i])
  }

  /** Two different ISO timestamps give two different run folders. */
  lemma FolderNameUnique(a: string, b: string)
    requires IsIsoTimestamp(a) && IsIsoTimestamp(b) && a != b
    ensures FolderName(a) != FolderName(b)
  {
    var i :| 0 <= i < 24 && a[i] != b[i];
    assert i !in {4, 7, 10, 13, 16, 19, 23};
    assert FolderName(a)[8 + i] == SafeChar(a[i]) == a[i];
    assert FolderName(b)[8 + i] == SafeChar(b[i]) == b[i];
  }

  /** The server-relative directory every link of the run points into. */
  function RunPrefix(folder: string): string {
    "/downloads/" + folder + "/"
  }

  // ------------------------------------------------------------------ images

  /** `imageUrl.split('.').pop()?.split('?')[0] || 'jpg'`: after the last dot, before the first `?`, else `jpg`. */
  function Extension(url: string): (r: string)
    ensures r != [] && '.' !in r && '?' !in r
  {
    var ext := BeforeFirst(AfterLast(url, '.'), '?');
    if ext == "" then "jpg" else ext
  }

  /** A URL ending in `.ext` or `.ext?query`, with no dot in the query, has extension `ext`. */
  lemma ExtensionOfUsualUrl(base: string, ext: string, query: string)
    requires ext != [] && '.' !in ext && '?' !in ext
    requires query == [] || (query[0] == '?' && '.' !in query)
    ensures Extension(base + "." + ext + query) == ext
  {
    assert base + "." + ext + query == base + ['.'] + (ext + query);
    AfterLastOfSuffix(base, '.', ext + query);
    BeforeFirstOfPrefix(ext, '?', query);
  }

  /** When the text after the last dot is empty or starts with `?`, the extension defaults to `jpg`. */
  lemma ExtensionDefault(base: string, query: string)
    requires '.' !in query && (query == [] || query[0] == '?')
    ensures Extension(base + "." + query) == "jpg"
  {
    assert base + "." + query == base + ['.'] + query;
    AfterLastOfSuffix(base, '.', query);
    BeforeFirstOfPrefix([], '?', query);
    assert [] + query == query;
  }

  /** A URL with no dot at all is its own extension up to its first `?`, slashes included. */
  lemma ExtensionWithoutDot(url: string, query: string)
    requires url != [] && '.' !in url && '?' !in url
    requires '.' !in query && (query == [] || query[0] == '?')
    ensures Extension(url + query) == url
  {
    assert AfterLast(url + query, '.') == url + query;
    BeforeFirstOfPrefix(url, '?', query);
  }

  /** A dot inside the query string decides the extension. */
  lemma ExtensionDotInQuery()
    ensures Extension("https://cdn.shop.example/p/42.png?v=1.2") == "2"
  {
    AfterLastOfSuffix("https://cdn.shop.example/p/42.png?v=1", '.', "2");
    assert "https://cdn.shop.example/p/42.png?v=1.2" == "https://cdn.shop.example/p/42.png?v=1" + ['.'] + "2";
    BeforeFirstOfPrefix("2", '?', []);
    assert "2" + [] == "2";
  }

  /** A URL whose path has no dot takes its "extension" from the host name onward, slashes included. */
  lemma ExtensionOfDotlessPath()
    ensures Extension("https://cdn.io/photo") == "io/photo"
  {
    var u := "https://cdn.io/photo";
    var tail := "io/photo";
    assert u == u[..11] + [u[11]] + u[12..];
    assert u[11] == '.' && u[12..] == tail && '.' !in tail && '?' !in tail;
    AfterLastOfSuffix(u[..11], '.', tail);
    BeforeFirstOfPrefix(tail, '?', []);
    assert tail + [] == tail;
  }

  /** `image-${index}.${imageExt}`. */
  function ImageFileName(index: nat, url: string): string {
    "image-" + (NatToString(index) + "." + Extension(url))
  }

  /** The link returned for a downloaded image: `/downloads/${folderName}/image-${index}.${imageExt}`. */
  function ImagePath(folder: string, index: nat, url: string): string {
    RunPrefix(folder) + ImageFileName(index, url)
  }

  lemma ImagePathNonEmpty(folder: string, index: nat, url: string)
    ensures ImagePath(folder, index, url) != ""
  {
    assert ImagePath(folder, index, url)[0] == '/';
  }

  /** Two strings free of dots, each followed by a dot, are equal when the results are. */
  lemma SplitAtFirstDot(a: string, x: string, b: string, y: string)
    requires '.' !in a && '.' !in b
    requires a + "." + x == b + "." + y
    ensures a == b
  {
    assert a + "." + x == a + ("." + x);
    assert b + "." + y == b + ("." + y);
    BeforeFirstOfPrefix(a, '.', "." + x);
    BeforeFirstOfPrefix(b, '.', "." + y);
  }

  /** `image-${a}.${x}` and `image-${b}.${y}` differ when the dot-free `a` and `b` do. */
  lemma PrefixedNamesDiffer(a: string, x: string, b: string, y: string)
    requires '.' !in a && '.' !in b && a != b
    ensures "image-" + (a + "." + x) != "image-" + (b + "." + y)
  {
    var s, t := "image-" + (a + "." + x), "image-" + (b + "." + y);
    if s == t {
      assert s[6..] == a + "." + x;
      assert t[6..] == b + "." + y;
      SplitAtFirstDot(a, x, b, y);
    }
  }

  lemma NumeralHasNoDot(n: nat)
    ensures '.' !in NatToString(n)
  {
    assert !IsDigit('.');
  }

  /** Different positions give different file names, whatever the URLs: no image overwrites another. */
  lemma ImageFileNamesDistinct(i: nat, j: nat, u: string, w: string)
    requires i != j
    ensures ImageFileName(i, u) != ImageFileName(j, w)
  {
    NumeralHasNoDot(i);
    NumeralHasNoDot(j);
    if NatToString(i) == NatToString(j) {
      NatToStringInjective(i, j);
    } else {
      PrefixedNamesDiffer(NatToString(i), Extension(u), NatToString(j), Extension(w));
    }
  }

  /** `image-` followed by anything is none of the three fixed artifact names. */
  lemma PrefixedNotFixed(s: string)
    ensures "image-" + s != ScreenshotFile
    ensures "image-" + s != HtmlFile
    ensures "image-" + s != JsonFile
  {
    assert ("image-" + s)[0] == 'i';
  }

  /** An image file name is none of the three fixed artifact names. */
  lemma ImageFileNameNotFixed(i: nat, u: string)
    ensures ImageFileName(i, u) != ScreenshotFile
    ensures ImageFileName(i, u) != HtmlFile
    ensures ImageFileName(i, u) != JsonFile
  {
    PrefixedNotFixed(NatToString(i) + "." + Extension(u));
  }

  /** Different positions give different links within one run folder. */
  lemma ImagePathsDistinct(folder: string, i: nat, j: nat, u: string, w: string)
    requires i != j
    ensures ImagePath(folder, i, u) != ImagePath(folder, j, w)
  {
    ImageFileNamesDistinct(i, j, u, w);
    var p := RunPrefix(folder);
    assert ImageFileName(i, u) == ImagePath(folder, i, u)[|p|..];
    assert ImageFileName(j, w) == ImagePath(folder, j, w)[|p|..];
  }

  /** The link each image gets when it is downloaded, by position. */
  function ImageLinks(folder: string, images: seq<string>): (r: seq<string>)
    ensures |r| == |images|
  {
    seq(|images|, i requires 0 <= i < |images| => ImagePath(folder, i, images[i]))
  }

  /** Every image link is non-empty, and no two positions share one. */
  lemma ImageLinksWellFormed(folder: string, images: seq<string>)
    ensures forall i :: 0 <= i < |images| ==> ImageLinks(folder, images)[i] != ""
    ensures forall i, j :: 0 <= i < j < |images| ==> ImageLinks(folder, images)[i] != ImageLinks(folder, images)[j]
  {
    var links := ImageLinks(folder, images);
    forall i | 0 <= i < |images| ensures links[i] != "" {
      ImagePathNonEmpty(folder, i, images[i]);
    }
    forall i, j | 0 <= i < j < |images| ensures links[i] != links[j] {
      ImagePathsDistinct(folder, i, j, images[i], images[j]);
    }
  }

  /** One outcome per position, in input order: the link when `ok` holds there and `null` otherwise. */
  function Outcomes(links: seq<string>, ok: seq<bool>): seq<Option<string>>
    requires |ok| == |links|
  {
    seq(|links|, i requires 0 <= i < |links| => if ok[i] then Some(links[i]) else None)
  }

  /**
   * `images.map(...)`: the outcome of each image, its link when `ok[index]`
   * (it was fetched and written) and `null` otherwise.
   */
  function DownloadOutcomes(folder: string, images: seq<string>, ok: seq<bool>): seq<Option<string>>
    requires |ok| == |images|
  {
    Outcomes(ImageLinks(folder, images), ok)
  }

  /** `filter(Boolean)`: the outcomes that are neither `null` nor the empty string, in order. */
  function Compact(outcomes: seq<Option<string>>): (r: seq<string>)
    ensures |r| <= |outcomes|
    ensures forall x :: x in r <==> x != "" && Some(x) in outcomes
  {
    if outcomes == [] then []
    else
      var init := outcomes[..|outcomes| - 1];
      var last := outcomes[|outcomes| - 1];
      assert outcomes == init + [last];
      Compact(init) + (if last.Some? && last.value != "" then [last.value] else [])
  }

  /** Order is kept: compacting `a + b` compacts `a`, then `b`. */
  lemma {:induction false} CompactAppend(a: seq<Option<string>>, b: seq<Option<string>>)
    ensures Compact(a + b) == Compact(a) + Compact(b)
    decreases |b|
  {
    if b == [] {
      assert a + b == a;
    } else {
      var b' := b[..|b| - 1];
      assert (a + b)[..|a + b| - 1] == a + b';
      CompactAppend(a, b');
    }
  }

  /** The positions whose download succeeded, in increasing order. */
  function SuccessIndices(ok: seq<bool>): (r: seq<nat>)
    ensures |r| <= |ok|
    ensures forall k :: 0 <= k < |r| ==> r[k] < |ok| && ok[r[k]]
    ensures forall k, l :: 0 <= k < l < |r| ==> r[k] < r[l]
    ensures forall i :: 0 <= i < |ok| && ok[i] ==> i in r
  {
    if ok == [] then []
    else
      var n := |ok| - 1;
      var r := SuccessIndices(ok[..n]);
      r + (if ok[n] then [n] else [])
  }

  /** The links at the successful positions, in increasing order of position. */
  function Kept(links: seq<string>, ok: seq<bool>): seq<string>
    requires |ok| == |links|
  {
    var idx := SuccessIndices(ok);
    seq(|idx|, k requires 0 <= k < |idx| => links[idx[k]])
  }

  /** The links of the successful downloads, in their original order, each under its original index. */
  function SuccessLinks(folder: string, images: seq<string>, ok: seq<bool>): seq<string>
    requires |ok| == |images|
  {
    Kept(ImageLinks(folder, images), ok)
  }

  /** `productData.downloadedImages`: set only when there are images, to the compacted outcomes. */
  function DownloadedImages(folder: string, images: seq<string>, ok: seq<bool>): Option<seq<string>>
    requires |ok| == |images|
  {
    if |images| > 0 then Some(Compact(DownloadOutcomes(folder, images, ok))) else None
  }

  lemma OutcomesPrefix(links: seq<string>, ok: seq<bool>, n: nat)
    requires |ok| == |links| && n <= |links|
    ensures Outcomes(links, ok)[..n] == Outcomes(links[..n], ok[..n])
  {
  }

  lemma KeptStep(links: seq<string>, ok: seq<bool>)
    requires |ok| == |links| && links != []
    ensures var n := |links| - 1;
      Kept(links, ok) == Kept(links[..n], ok[..n]) + (if ok[n] then [links[n]] else [])
  {
    var n := |links| - 1;
    var idx', idx := SuccessIndices(ok[..n]), SuccessIndices(ok);
    assert idx == idx' + (if ok[n] then [n] else []);
    var kept, kept' := Kept(links, ok), Kept(links[..n], ok[..n]);
    forall k | 0 <= k < |idx'| ensures kept[k] == kept'[k] {
      assert idx[k] == idx'[k] && idx[k] < n;
    }
  }

  lemma CompactSingleton(o: Option<string>)
    ensures Compact([o]) == if o.Some? && o.value != "" then [o.value] else []
  {
    assert [o][..0] == [];
  }

  /** Compacting the outcomes keeps exactly the links at successful positions, in order. */
  lemma {:induction false} CompactKept(links: seq<string>, ok: seq<bool>)
    requires |ok| == |links|
    requires forall i :: 0 <= i < |links| ==> links[i] != ""
    ensures Compact(Outcomes(links, ok)) == Kept(links, ok)
    decreases |links|
  {
    if links != [] {
      var n := |links| - 1;
      CompactKept(links[..n], ok[..n]);
      var outs, outs' := Outcomes(links, ok), Outcomes(links[..n], ok[..n]);
      OutcomesPrefix(links, ok, n);
      assert outs == outs' + [outs[n]];
      CompactAppend(outs', [outs[n]]);
      CompactSingleton(outs[n]);
      KeptStep(links, ok);
    }
  }

  /**
   * With distinct links, the kept links are no more than the links, hold the
   * link at a position exactly when that position succeeded, and never repeat.
   */
  lemma KeptSpec(links: seq<string>, ok: seq<bool>)
    requires |ok| == |links|
    requires forall i, j :: 0 <= i < j < |links| ==> links[i] != links[j]
    ensures |Kept(links, ok)| <= |links|
    ensures forall i :: 0 <= i < |links| ==> (links[i] in Kept(links, ok) <==> ok[i])
    ensures forall k, l :: 0 <= k < l < |Kept(links, ok)| ==> Kept(links, ok)[k] != Kept(links, ok)[l]
  {
    var idx := SuccessIndices(ok);
    var kept := Kept(links, ok);
    forall i | 0 <= i < |links| ensures links[i] in kept <==> ok[i] {
      if ok[i] {
        var k :| 0 <= k < |idx| && idx[k] == i;
        assert kept[k] == links[i];
      }
      if links[i] in kept {
        var k :| 0 <= k < |kept| && kept[k] == links[i];
        assert !(idx[k] < i) && !(i < idx[k]);
      }
    }
  }

  /** Compaction keeps exactly the successful downloads, in order, never renumbered. */
  lemma CompactOutcomes(folder: string, images: seq<string>, ok: seq<bool>)
    requires |ok| == |images|
    ensures Compact(DownloadOutcomes(folder, images, ok)) == SuccessLinks(folder, images, ok)
  {
    ImageLinksWellFormed(folder, images);
    CompactKept(ImageLinks(folder, images), ok);
  }

  /**
   * `downloadedImages` is set exactly when `images` is non-empty; it then
   * lists the link of every successful download and nothing else, in
   * original order, each under its original index, without repeats, and is
   * no longer than `images`.
   */
  lemma DownloadedImagesSpec(folder: string, images: seq<string>, ok: seq<bool>)
    requires |ok| == |images|
    ensures DownloadedImages(folder, images, ok).Some? <==> |images| > 0
    ensures |images| > 0 ==> DownloadedImages(folder, images, ok) == Some(SuccessLinks(folder, images, ok))
    ensures |SuccessLinks(folder, images, ok)| <= |images|
    ensures forall i :: 0 <= i < |images| ==>
      (ImagePath(folder, i, images[i]) in SuccessLinks(folder, images, ok) <==> ok[i])
    ensures forall k, l :: 0 <= k < l < |SuccessLinks(folder, images, ok)| ==>
      SuccessLinks(folder, images, ok)[k] != SuccessLinks(folder, images, ok)[l]
  {
    var links := ImageLinks(folder, images);
    ImageLinksWellFormed(folder, images);
    CompactKept(links, ok);
    KeptSpec(links, ok);
    assert forall i :: 0 <= i < |images| ==> links[i] == ImagePath(folder, i, images[i]);
  }

  lemma CompactSkipsFailure(x: string, y: string)
    requires x != "" && y != ""
    ensures Compact([Some(x), None, Some(y)]) == [x, y]
  {
    assert [Some(x), None, Some(y)] == [Some(x)] + [None] + [Some(y)];
    CompactAppend([Some(x)] + [None], [Some(y)]);
    CompactAppend([Some(x)], [None]);
    CompactSingleton(Some(x));
    CompactSingleton(None);
    CompactSingleton(Some(y));
  }

  /** Three images with the second failing give the first and third links, numbered 0 and 2. */
  lemma SecondOfThreeFails(folder: string, u0: string, u1: string, u2: string)
    ensures DownloadedImages(folder, [u0, u1, u2], [true, false, true])
            == Some([ImagePath(folder, 0, u0), ImagePath(folder, 2, u2)])
  {
    var p0, p2 := ImagePath(folder, 0, u0), ImagePath(folder, 2, u2);
    assert DownloadOutcomes(folder, [u0, u1, u2], [true, false, true]) == [Some(p0), None, Some(p2)];
    ImagePathNonEmpty(folder, 0, u0);
    ImagePathNonEmpty(folder, 2, u2);
    CompactSkipsFailure(p0, p2);
  }

  // ------------------------------------------------------------------- links

  datatype Downloads = Downloads(screenshot: string, html: string, json: string)

  const ScreenshotFile := "screenshot.png"
  const HtmlFile := "page.html"
  const JsonFile := "product-data.json"

  /** The `downloads` object of the response. */
  function DownloadLinks(folder: string): Downloads {
    Downloads(RunPrefix(folder) + ScreenshotFile, RunPrefix(folder) + HtmlFile, RunPrefix(folder) + JsonFile)
  }

  /** The names of the downloaded images, in index order. */
  function ImageNames(images: seq<string>, ok: seq<bool>): seq<string>
    requires |ok| == |images|
  {
    var idx := SuccessIndices(ok);
    seq(|idx|, k requires 0 <= k < |idx| => ImageFileName(idx[k], images[idx[k]]))
  }

  /**
   * The file names written into one run folder: screenshot, html, each image
   * that was downloaded, then the json.
   */
  function RunFiles(images: seq<string>, ok: seq<bool>): seq<string>
    requires |ok| == |images|
  {
    [ScreenshotFile, HtmlFile] + ImageNames(images, ok) + [JsonFile]
  }

  lemma ImageNamesDistinct(images: seq<string>, ok: seq<bool>)
    requires |ok| == |images|
    ensures var names := ImageNames(images, ok);
      && (forall k, l :: 0 <= k < l < |names| ==> names[k] != names[l])
      && (forall k :: 0 <= k < |names| ==> names[k] != ScreenshotFile && names[k] != HtmlFile && names[k] != JsonFile)
  {
    var idx := SuccessIndices(ok);
    var names := ImageNames(images, ok);
    forall k, l | 0 <= k < l < |names| ensures names[k] != names[l] {
      ImageFileNamesDistinct(idx[k], idx[l], images[idx[k]], images[idx[l]]);
    }
    forall k | 0 <= k < |names|
      ensures names[k] != ScreenshotFile && names[k] != HtmlFile && names[k] != JsonFile
    {
      ImageFileNameNotFixed(idx[k], images[idx[k]]);
    }
  }

  /** Names distinct among themselves and from the three fixed names stay distinct once framed by them. */
  lemma FramedNamesDistinct(names: seq<string>)
    requires forall k, l :: 0 <= k < l < |names| ==> names[k] != names[l]
    requires forall k :: 0 <= k < |names| ==> names[k] != ScreenshotFile && names[k] != HtmlFile && names[k] != JsonFile
    ensures var files := [ScreenshotFile, HtmlFile] + names + [JsonFile];
            forall a, b :: 0 <= a < b < |files| ==> files[a] != files[b]
  {
    var files := [ScreenshotFile, HtmlFile] + names + [JsonFile];
    var m := |names|;
    forall a, b | 0 <= a < b < |files| ensures files[a] != files[b] {
      if 2 <= a && b < 2 + m {
        assert files[a] == names[a - 2] && files[b] == names[b - 2];
      } else if 2 <= a < 2 + m {
        assert files[a] == names[a - 2];
        assert files[b] == JsonFile;
      } else if 2 <= b < 2 + m {
        assert files[b] == names[b - 2];
      } else if b == m + 2 {
        assert files[b] == JsonFile;
      }
    }
  }

  /** No file of a run overwrites another file of the same run. */
  lemma RunFilesDistinct(images: seq<string>, ok: seq<bool>)
    requires |ok| == |images|
    ensures var files := RunFiles(images, ok);
            forall a, b :: 0 <= a < b < |files| ==> files[a] != files[b]
  {
    ImageNamesDistinct(images, ok);
    FramedNamesDistinct(ImageNames(images, ok));
  }

  /** The same file name in two different run folders gives two different links. */
  lemma RunPathsSeparate(folder: string, folder': string, name: string)
    requires folder != folder'
    ensures RunPrefix(folder) + name != RunPrefix(folder') + name
  {
    FolderOfPath(folder, name);
    FolderOfPath(folder', name);
  }

  /** The folder can be read back from any link of the run. */
  lemma FolderOfPath(folder: string, name: string)
    ensures var x := RunPrefix(folder) + name;
      |x| == 12 + |folder| + |name| && x[11..11 + |folder|] == folder
  {
  }

  /** The three links share the run folder and differ from each other and from every image link. */
  lemma DownloadLinksSpec(folder: string, index: nat, url: string)
    ensures var d := DownloadLinks(folder); var p := RunPrefix(folder);
      && d.screenshot[..|p|] == p && d.html[..|p|] == p && d.json[..|p|] == p
      && d.screenshot != d.html && d.html != d.json && d.screenshot != d.json
      && ImagePath(folder, index, url) != d.screenshot
      && ImagePath(folder, index, url) != d.html
      && ImagePath(folder, index, url) != d.json
  {
    var d := DownloadLinks(folder);
    var p := RunPrefix(folder);
    var img := ImagePath(folder, index, url);
    assert img[|p|..] == ImageFileName(index, url);
    assert d.screenshot[|p|..] == ScreenshotFile;
    assert d.html[|p|..] == HtmlFile;
    assert d.json[|p|..] == JsonFile;
    ImageFileNameNotFixed(index, url);
  }

}
