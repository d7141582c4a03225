/** The decisions the Ubuntu image fetcher takes between its network calls:
    how an `<img src>` value becomes an absolute URL, which content types are
    downloaded, extracted from or skipped, how the saved file is named and
    renamed so that no existing file is overwritten, and how the user's input
    becomes a list of URLs.  HTTP requests, HTML parsing and `urlparse` are
    outside the model: their results are parameters. */
module ImageFetcher {
  import opened PyText

  datatype Option<T> = None | Some(value: T)

  /** The fields of a `urlparse` result that the fetcher reads. */
  datatype ParsedUrl = ParsedUrl(scheme: string, netloc: string, path: string)

  // ---------------------------------------------------------------------
  // Resolving the src of the first <img> of a page
  // ---------------------------------------------------------------------

  /** An `<img src>` value made absolute against the page it was found on:
      a network-path reference `//host/...` always gets `https:`, an
      absolute-path reference `/...` gets the page's scheme and host, and
      anything else is kept as it is.  `src` always ends the result. */
  function ResolveSrc(src: string, page: ParsedUrl): (url: string)
    ensures |src| <= |url| && url[|url| - |src|..] == src
    ensures StartsWith(src, "/") ==>
              StartsWith(url, "https://") || StartsWith(url, page.scheme + "://")
    ensures !StartsWith(src, "/") ==> url == src
  {
    if StartsWith(src, "//") then
      assert ("https:" + src)[..8] == "https:" + src[..2];
      "https:" + src
    else if StartsWith(src, "/") then
      var prefix := page.scheme + "://";
      assert (prefix + page.netloc + src)[..|prefix|] == prefix;
      prefix + page.netloc + src
    else
      src
  }

  lemma ResolveNetworkPath(src: string, page: ParsedUrl)
    requires StartsWith(src, "//")
    ensures ResolveSrc(src, page) == "https:" + src
  {
  }

  lemma ResolveAbsolutePath(src: string, page: ParsedUrl)
    requires StartsWith(src, "/") && !StartsWith(src, "//")
    ensures ResolveSrc(src, page) == page.scheme + "://" + page.netloc + src
  {
  }

  /** A resolved URL resolves to itself: it never starts with `/` as long as
      the page's scheme does not (a `urlparse` scheme never does). */
  lemma ResolveIdempotent(src: string, page: ParsedUrl)
    requires !StartsWith(page.scheme, "/")
    ensures ResolveSrc(ResolveSrc(src, page), page) == ResolveSrc(src, page)
  {
    var url := ResolveSrc(src, page);
    if StartsWith(src, "//") {
      assert url[0] == 'h';
      assert !StartsWith(url, "/");
    } else if StartsWith(src, "/") {
      if page.scheme == [] {
        assert url[0] == ':';
      } else {
        assert url[0] == page.scheme[0] && page.scheme[..1] == [page.scheme[0]];
      }
      assert !StartsWith(url, "/");
    }
  }

  /** `get_image_url_from_page` once the page has been fetched and parsed:
      `imgSrc` is the `src` attribute of the page's first `<img>` (None when
      there is no such tag or attribute).  An empty `src` counts as none. */
  function ImageUrlFromPage(imgSrc: Option<string>, page: ParsedUrl): (found: Option<string>)
    ensures found.None? <==> imgSrc.None? || imgSrc.value == ""
    ensures found.Some? ==> found.value == ResolveSrc(imgSrc.value, page) && found.value != ""
  {
    match imgSrc
    case Some(src) => if src != "" then Some(ResolveSrc(src, page)) else None
    case None => None
  }

  // ---------------------------------------------------------------------
  // What to do with a response, by its Content-Type
  // ---------------------------------------------------------------------

  datatype Route = DirectImage | ExtractFromPage | Skip

  /** An `image/...` type is downloaded as it is, even if it also mentions
      `text/html`; otherwise a type mentioning `text/html` is a page to take
      the first image from; anything else is skipped. */
  function RouteFor(contentType: string): (route: Route)
    ensures route == DirectImage <==> StartsWith(contentType, "image/")
    ensures route == ExtractFromPage <==>
              !StartsWith(contentType, "image/") && Contains(contentType, "text/html")
  {
    if StartsWith(contentType, "image/") then DirectImage
    else if Contains(contentType, "text/html") then ExtractFromPage
    else Skip
  }

  /** A response without a Content-Type header reads as `""`, which is skipped. */
  lemma MissingContentTypeSkipped()
    ensures RouteFor("") == Skip
  {
    assert !Contains("", "text/html");
  }

  // ---------------------------------------------------------------------
  // Naming the saved file
  // ---------------------------------------------------------------------

  const FallbackName: string := "downloaded_image.jpg"

  lemma FallbackNameIsPlain()
    ensures '/' !in FallbackName
  {
  }

  /** The file name taken from an image URL's path: its last segment, or
      `downloaded_image.jpg` when that is empty (a path ending in `/`). */
  function FilenameFor(path: string): (name: string)
    ensures name != [] && '/' !in name
    ensures Basename(path) != [] ==> name == Basename(path)
    ensures Basename(path) == [] ==> name == FallbackName
  {
    var base := Basename(path);
    if base != [] then base else FallbackNameIsPlain(); FallbackName
  }

  /** One pass of the rename loop: split the current name into stem and
      extension and put `_<counter>` between them. */
  function RenameStep(name: string, counter: nat): (next: string)
    ensures |next| == |name| + 1 + |NatToString(counter)|
  {
    var parts := SplitExt(name);
    parts.0 + "_" + NatToString(counter) + parts.1
  }

  /** The name after `k` passes of the rename loop, the counter running
      1, 2, ..., k; each pass re-splits the name the previous one made. */
  function Renamed(initial: string, k: nat): string
  {
    if k == 0 then initial else RenameStep(Renamed(initial, k - 1), k)
  }

  /** `_1_2..._k`: what `k` passes add to the stem. */
  function Suffixes(k: nat): string
  {
    if k == 0 then "" else Suffixes(k - 1) + "_" + NatToString(k)
  }

  /** The rename loop: starting from `initial`, rename while the name is
      taken.  The chosen name is free, it is the first free name of the chain
      `Renamed(initial, 0), Renamed(initial, 1), ...`, and an `initial` that
      is free is kept. */
  method ChooseFilename(initial: string, existing: set<string>) returns (filename: string, ghost renames: nat)
    ensures filename !in existing
    ensures filename == Renamed(initial, renames)
    ensures forall k :: 0 <= k < renames ==> Renamed(initial, k) in existing
    ensures initial !in existing ==> filename == initial
  {
    filename := initial;
    var counter: nat := 1;
    while filename in existing
      invariant counter >= 1
      invariant filename == Renamed(initial, counter - 1)
      invariant AllTaken(initial, existing, counter - 1)
      decreases set taken | taken in existing && |taken| >= |filename|
    {
      var parts := SplitExt(filename);
      var next := parts.0 + "_" + NatToString(counter) + parts.1;
      assert next == RenameStep(filename, counter);
      LongerNameLeavesFewer(existing, filename, next);
      AllTakenExtend(initial, existing, counter - 1);
      filename := next;
      counter := counter + 1;
    }
    renames := counter - 1;
  }

  /** The first `n` names of the chain are all taken. */
  ghost predicate AllTaken(initial: string, existing: set<string>, n: nat)
  {
    forall k :: 0 <= k < n ==> Renamed(initial, k) in existing
  }

  lemma AllTakenExtend(initial: string, existing: set<string>, n: nat)
    requires AllTaken(initial, existing, n) && Renamed(initial, n) in existing
    ensures AllTaken(initial, existing, n + 1)
  {
  }

  /** Fewer taken names are at least as long as a longer name. */
  lemma LongerNameLeavesFewer(existing: set<string>, name: string, longer: string)
    requires name in existing && |name| < |longer|
    ensures (set taken | taken in existing && |taken| >= |longer|)
            < (set taken | taken in existing && |taken| >= |name|)
  {
    var after := set taken | taken in existing && |taken| >= |longer|;
    assert name !in after;
  }

  /** Each pass adds at least two characters to the stem (`_` and a digit). */
  lemma {:induction false} SuffixesGrow(j: nat, k: nat)
    requires j < k
    ensures |Suffixes(j)| + 2 * (k - j) <= |Suffixes(k)|
  {
    if j < k - 1 {
      SuffixesGrow(j, k - 1);
    }
  }

  /** Renaming only adds the suffixes: `|Renamed(initial, k)|` is the original
      length plus `|_1_2..._k|`. */
  lemma RenamedLength(initial: string, k: nat)
    ensures |Renamed(initial, k)| == |initial| + |Suffixes(k)|
  {
    RenamedShape(initial, k);
    var r := Renamed(initial, k);
    assert |r| == |SplitExt(r).0| + |SplitExt(r).1|;
  }

  /** So the names of the chain are all different. */
  lemma RenamedDistinct(initial: string, j: nat, k: nat)
    requires j != k
    ensures Renamed(initial, j) != Renamed(initial, k)
  {
    RenamedLength(initial, j);
    RenamedLength(initial, k);
    if j < k { SuffixesGrow(j, k); } else { SuffixesGrow(k, j); }
  }

  /** Renaming keeps the extension and appends `_<counter>` to the stem, as
      `os.path.splitext` sees the new name. */
  lemma SplitExtOfRenameStep(name: string, counter: nat)
    ensures SplitExt(RenameStep(name, counter))
            == (SplitExt(name).0 + "_" + NatToString(counter), SplitExt(name).1)
  {
    var stem := SplitExt(name).0;
    var ext := SplitExt(name).1;
    var tag := "_" + NatToString(counter);
    TagHasNoDot(counter);
    ConcatAssoc(stem, "_", NatToString(counter));
    assert RenameStep(name, counter) == stem + tag + ext;
    if ext != [] {
      SplitExtMeaning(name);
      SplitExtAfterTag(stem, tag, ext);
    } else {
      SplitExtWithoutExt(name, tag);
    }
  }

  /** The tag a pass inserts, `_` and digits, holds no dot. */
  lemma TagHasNoDot(counter: nat)
    ensures forall i :: 0 <= i < |"_" + NatToString(counter)| ==> ("_" + NatToString(counter))[i] != '.'
  {
    var digits := NatToString(counter);
    forall i | 0 <= i < |"_" + digits| ensures ("_" + digits)[i] != '.' {
      if i > 0 { assert ("_" + digits)[i] == digits[i - 1] && IsDigit(digits[i - 1]); }
    }
  }

  /** A name with an extension, renamed: the last dot is still the
      extension's, and the tag (starting with `_`) makes the stem not all dots. */
  lemma SplitExtAfterTag(stem: string, tag: string, ext: string)
    requires ext != [] && ext[0] == '.' && '.' !in ext[1..]
    requires tag != [] && tag[0] == '_'
    requires forall i :: 0 <= i < |tag| ==> tag[i] != '.'
    ensures SplitExt(stem + tag + ext) == (stem + tag, ext)
  {
    var next := stem + tag + ext;
    var dot := |stem| + |tag|;
    forall j | dot < j < |next| ensures next[j] != '.' {
      assert next[j] == ext[1..][j - dot - 1];
    }
    assert next[dot] == '.';
    LastIndexOfAt(next, '.', dot);
    assert next[..dot] == stem + tag;
    assert next[..dot][|stem|] == '_';
    assert next[dot..] == ext;
  }

  /** A name without an extension, with a dot-free tag appended, still has none. */
  lemma SplitExtWithoutExt(name: string, tag: string)
    requires SplitExt(name).1 == []
    requires forall i :: 0 <= i < |tag| ==> tag[i] != '.'
    ensures SplitExt(name + tag) == (name + tag, [])
  {
    SplitExtMeaning(name);
    LastIndexOfIsLast(name, '.');
    var next := name + tag;
    var dot := LastIndexOf(name, '.');
    forall j | dot < j < |next| ensures next[j] != '.' {
      if j >= |name| { assert next[j] == tag[j - |name|]; } else { assert next[j] == name[j]; }
    }
    if dot >= 0 {
      assert next[dot] == name[dot];
    }
    LastIndexOfAt(next, '.', dot);
    if dot >= 0 {
      assert AllDots(name[..dot]);
      assert next[..dot] == name[..dot];
    }
  }

  /** After `k` passes the name is the original stem, then `_1_2..._k`, then
      the original extension: `a.jpg`, `a_1.jpg`, `a_1_2.jpg`, ... */
  lemma RenamedShape(initial: string, k: nat)
    ensures SplitExt(Renamed(initial, k)) == (SplitExt(initial).0 + Suffixes(k), SplitExt(initial).1)
  {
    ShapeHolds(initial, k);
  }

  /** How `splitext` sees the name after `k` passes. */
  ghost predicate ShapeAfter(initial: string, k: nat)
  {
    SplitExt(Renamed(initial, k)) == (SplitExt(initial).0 + Suffixes(k), SplitExt(initial).1)
  }

  lemma {:induction false} ShapeHolds(initial: string, k: nat)
    ensures ShapeAfter(initial, k)
  {
    if k > 0 {
      ShapeHolds(initial, k - 1);
      ShapeStep(initial, k);
    } else {
      var stem := SplitExt(initial).0;
      assert stem + Suffixes(0) == stem;
    }
  }

  /** One pass of the chain. */
  lemma ShapeStep(initial: string, k: nat)
    requires k > 0 && ShapeAfter(initial, k - 1)
    ensures ShapeAfter(initial, k)
  {
    RenamedUnfold(initial, k);
    ShapeStepOn(Renamed(initial, k - 1), Renamed(initial, k), SplitExt(initial).0, SplitExt(initial).1, k);
  }

  lemma RenamedUnfold(initial: string, k: nat)
    requires k > 0
    ensures Renamed(initial, k) == RenameStep(Renamed(initial, k - 1), k)
  {
  }

  /** One pass of the chain, on names held in variables. */
  lemma ShapeStepOn(previous: string, current: string, stem: string, ext: string, k: nat)
    requires k > 0
    requires SplitExt(previous) == (stem + Suffixes(k - 1), ext)
    requires current == RenameStep(previous, k)
    ensures SplitExt(current) == (stem + Suffixes(k), ext)
  {
    SplitExtOfRenameStep(previous, k);
    var earlier := Suffixes(k - 1);
    ConcatAssoc(stem, earlier, "_");
    ConcatAssoc(stem, earlier + "_", NatToString(k));
  }

  /** A name without `/` stays without `/`: every candidate is a plain file
      name inside the save directory. */
  lemma {:induction false} RenamedHasNoSlash(initial: string, k: nat)
    requires '/' !in initial
    ensures '/' !in Renamed(initial, k)
  {
    if k > 0 {
      RenamedHasNoSlash(initial, k - 1);
      RenameStepHasNoSlash(Renamed(initial, k - 1), k);
    }
  }

  lemma RenameStepHasNoSlash(name: string, counter: nat)
    requires '/' !in name
    ensures '/' !in RenameStep(name, counter)
  {
    var (stem, ext) := SplitExt(name);
    var digits := NatToString(counter);
    assert '/' !in digits by {
      forall i | 0 <= i < |digits| ensures digits[i] != '/' { assert IsDigit(digits[i]); }
    }
    assert '/' !in stem && '/' !in ext by {
      assert name == stem + ext;
      forall c | c in stem ensures c in name { }
      forall c | c in ext ensures c in name { }
    }
  }

  /** The example chain: a third collision on `a.jpg` saves `a_1_2_3.jpg`. */
  lemma ThirdRenameOfJpg()
    ensures Renamed("a.jpg", 3) == "a_1_2_3.jpg"
  {
    SplitExtOfJpg();
    SuffixesOfThree();
    RenamedShape("a.jpg", 3);
    var r := Renamed("a.jpg", 3);
    assert r == SplitExt(r).0 + SplitExt(r).1;
    assert SplitExt(r) == ("a" + "_1_2_3", ".jpg");
    LiteralJoin();
  }

  lemma SplitExtOfJpg()
    ensures SplitExt("a.jpg") == ("a", ".jpg")
  {
    LastIndexOfAt("a.jpg", '.', 1);
    assert "a.jpg"[..1] == "a" && "a"[0] != '.';
  }

  lemma SuffixesOfThree()
    ensures Suffixes(3) == "_1_2_3"
  {
    assert NatToString(1) == "1" && NatToString(2) == "2" && NatToString(3) == "3";
  }

  lemma LiteralJoin()
    ensures "a" + "_1_2_3" + ".jpg" == "a_1_2_3.jpg"
  {
  }

  // ---------------------------------------------------------------------
  // One URL, end to end
  // ---------------------------------------------------------------------

  /** The names for which `(save_dir / name).exists()` holds: the directory's
      entries, and `.` and `..`, which pathlib resolves to the directory
      itself and to its parent. */
  function Occupied(existing: set<string>): set<string>
  {
    existing + {".", ".."}
  }

  /** A URL path ending in `/..` names the file `..`, which already exists,
      so the first pass renames it to `.._1`. */
  lemma ParentNameRenamed()
    ensures FilenameFor("/a/..") == ".."
    ensures ".." in Occupied({}) && Renamed("..", 1) == ".._1"
  {
  }

  datatype FetchOutcome =
    | Saved(imageUrl: string, filename: string)
    | NoImageFound
    | RequestFailed(imageUrl: string)
    | Unsupported(contentType: string)

  /** `fetch_image` between its network calls.  `contentType` is the first
      response's Content-Type (`""` when absent); `imgSrc` is the `src` of the
      first `<img>` of the page at `url`, as the page fetch found it;
      `existing` is the set of names already in the save directory;
      `urlparse` splits a URL into its fields; `imageRequestOk` says whether
      the request for an image found on a page got through.  That request
      always fails for a URL without a scheme, such as a relative `src`
      (`photo.jpg`), which `requests` refuses before sending anything; the
      error is caught and nothing is saved.  `filepath.exists()` is also
      true for `.` and `..`, the directory itself and its parent, so the loop
      renames those as well (see `Occupied`).  The chosen name is new to the
      directory and is neither `.` nor `..`, so nothing is overwritten. */
  method FetchImage(url: string, contentType: string, imgSrc: Option<string>,
                    imageRequestOk: bool, existing: set<string>, urlparse: string -> ParsedUrl)
    returns (outcome: FetchOutcome)
    ensures outcome.Unsupported? <==> RouteFor(contentType) == Skip
    ensures outcome.Unsupported? ==> outcome.contentType == contentType
    ensures RouteFor(contentType) == DirectImage ==> outcome.Saved? && outcome.imageUrl == url
    ensures RouteFor(contentType) == ExtractFromPage ==>
              match ImageUrlFromPage(imgSrc, urlparse(url))
              case None => outcome == NoImageFound
              case Some(imageUrl) =>
                if urlparse(imageUrl).scheme == [] || !imageRequestOk then outcome == RequestFailed(imageUrl)
                else outcome.Saved? && outcome.imageUrl == imageUrl
    ensures outcome.Saved? ==> outcome.filename !in existing && '/' !in outcome.filename
    ensures outcome.Saved? ==> outcome.filename != "." && outcome.filename != ".."
    ensures outcome.Saved? ==>
              var initial := FilenameFor(urlparse(outcome.imageUrl).path);
              exists k: nat :: outcome.filename == Renamed(initial, k)
                && forall j :: 0 <= j < k ==> Renamed(initial, j) in Occupied(existing)
  {
    var imageUrl: string;
    match RouteFor(contentType) {
      case DirectImage =>
        imageUrl := url;
      case ExtractFromPage =>
        var found := ImageUrlFromPage(imgSrc, urlparse(url));
        if found.None? {
          return NoImageFound;
        }
        imageUrl := found.value;
        if urlparse(imageUrl).scheme == [] || !imageRequestOk {
          return RequestFailed(imageUrl);
        }
      case Skip =>
        return Unsupported(contentType);
    }
    var initial := FilenameFor(urlparse(imageUrl).path);
    var filename, renames := ChooseFilename(initial, Occupied(existing));
    RenamedHasNoSlash(initial, renames);
    outcome := Saved(imageUrl, filename);
  }

  // ---------------------------------------------------------------------
  // The list of URLs
  // ---------------------------------------------------------------------

  /** One piece, stripped, as a list of one URL, or no URL when it strips to
      nothing. */
  function Keep(piece: string): (kept: seq<string>)
    ensures |kept| <= 1 && AllClean(kept)
  {
    var u := Strip(piece);
    if u != [] then AllCleanSingle(u); [u] else []
  }

  /** Every URL is non-blank and has no whitespace at either end. */
  predicate AllClean(urls: seq<string>)
  {
    forall i :: 0 <= i < |urls| ==> urls[i] != [] && IsStripped(urls[i])
  }

  lemma AllCleanSingle(u: string)
    requires u != [] && IsStripped(u)
    ensures AllClean([u])
  {
  }

  lemma AllCleanConcat(a: seq<string>, b: seq<string>)
    requires AllClean(a) && AllClean(b)
    ensures AllClean(a + b)
  {
    forall i | 0 <= i < |a + b| ensures (a + b)[i] != [] && IsStripped((a + b)[i]) {
      if i < |a| { assert (a + b)[i] == a[i]; } else { assert (a + b)[i] == b[i - |a|]; }
    }
  }

  /** Strip every piece and drop the ones that end up blank, keeping the
      order. */
  function CleanUrls(pieces: seq<string>): (urls: seq<string>)
    ensures AllClean(urls)
    ensures |urls| <= |pieces|
  {
    if pieces == [] then []
    else
      var rest := CleanUrls(pieces[1..]);
      AllCleanConcat(Keep(pieces[0]), rest);
      Keep(pieces[0]) + rest
  }

  /** Cleaning works piece by piece, so the input order is kept. */
  lemma {:induction false} CleanUrlsAppend(a: seq<string>, b: seq<string>)
    ensures CleanUrls(a + b) == CleanUrls(a) + CleanUrls(b)
  {
    if a == [] {
      assert a + b == b;
    } else {
      var rest := CleanUrls(a[1..]);
      calc {
        CleanUrls(a + b);
        { CleanUrlsCons(a, b); }
        Keep(a[0]) + CleanUrls(a[1..] + b);
        { CleanUrlsAppend(a[1..], b); }
        Keep(a[0]) + (rest + CleanUrls(b));
        { ConcatAssoc(Keep(a[0]), rest, CleanUrls(b)); }
        (Keep(a[0]) + rest) + CleanUrls(b);
        CleanUrls(a) + CleanUrls(b);
      }
    }
  }

  lemma CleanUrlsCons(a: seq<string>, b: seq<string>)
    requires a != []
    ensures CleanUrls(a + b) == Keep(a[0]) + CleanUrls(a[1..] + b)
  {
    assert (a + b)[0] == a[0] && (a + b)[1..] == a[1..] + b;
  }

  lemma ConcatAssoc<T>(x: seq<T>, y: seq<T>, z: seq<T>)
    ensures x + (y + z) == (x + y) + z
  {
  }

  /** Some piece of `pieces` strips to `u`. */
  ghost predicate StripsTo(pieces: seq<string>, u: string)
  {
    exists i :: 0 <= i < |pieces| && Strip(pieces[i]) == u
  }

  /** A URL is kept exactly when some piece strips to it and it is not blank. */
  lemma {:induction false} CleanUrlsMembers(pieces: seq<string>, u: string)
    ensures u in CleanUrls(pieces) <==> u != [] && StripsTo(pieces, u)
  {
    if pieces != [] {
      CleanUrlsMembers(pieces[1..], u);
      StripsToCons(pieces, u);
      assert u in CleanUrls(pieces) <==> u in Keep(pieces[0]) || u in CleanUrls(pieces[1..]);
    }
  }

  lemma StripsToCons(pieces: seq<string>, u: string)
    requires pieces != []
    ensures StripsTo(pieces, u) <==> Strip(pieces[0]) == u || StripsTo(pieces[1..], u)
  {
    SomeImageCons(pieces, Strip, u);
  }

  /** Some element of `xs` is mapped to `y` exactly when the first one is or
      some later one is. */
  lemma SomeImageCons<X, Y>(xs: seq<X>, f: X -> Y, y: Y)
    requires xs != []
    ensures (exists i :: 0 <= i < |xs| && f(xs[i]) == y)
            <==> f(xs[0]) == y || exists i :: 0 <= i < |xs| - 1 && f(xs[1..][i]) == y
  {
    if exists i :: 0 <= i < |xs| && f(xs[i]) == y {
      var i :| 0 <= i < |xs| && f(xs[i]) == y;
      if i > 0 { assert f(xs[1..][i - 1]) == y; }
    }
    if exists i :: 0 <= i < |xs| - 1 && f(xs[1..][i]) == y {
      var i :| 0 <= i < |xs| - 1 && f(xs[1..][i]) == y;
      assert f(xs[i + 1]) == y;
    }
  }

  /** Python's universal newlines: `\r\n` and a lone `\r` read as `\n`.  No
      carriage return is left, and text without one is read as it is. */
  function UniversalNewlines(text: string): (read: string)
    ensures '\r' !in read
    ensures '\r' !in text ==> read == text
  {
    if text == [] then []
    else if text[0] == '\r' && |text| > 1 && text[1] == '\n' then "\n" + UniversalNewlines(text[2..])
    else if text[0] == '\r' then "\n" + UniversalNewlines(text[1..])
    else [text[0]] + UniversalNewlines(text[1..])
  }

  /** A carriage return ends a line: text mode reads it, together with a
      `\n` right after it, as one `\n`, and reads the text before it as it
      is. */
  lemma {:induction false} UniversalNewlinesAtCR(a: string, b: string)
    requires '\r' !in a
    ensures UniversalNewlines(a + "\r" + b)
      == a + "\n" + UniversalNewlines(if b != [] && b[0] == '\n' then b[1..] else b)
  {
    if a != [] {
      assert (a + "\r" + b)[1..] == a[1..] + "\r" + b;
      UniversalNewlinesAtCR(a[1..], b);
      assert [a[0]] + a[1..] == a;
    } else {
      var text := a + "\r" + b;
      assert text[0] == '\r' && text[1..] == b;
      if b != [] && b[0] == '\n' {
        assert text[2..] == b[1..];
      }
    }
  }

  /** The typed line: cut it at every comma, strip each piece and drop the
      blank ones. */
  function UrlsFromCommaList(userInput: string): (urls: seq<string>)
    ensures forall i :: 0 <= i < |urls| ==> urls[i] != [] && IsStripped(urls[i]) && ',' !in urls[i]
  {
    var pieces := Split(userInput, ',');
    SplitOmitsSeparator(userInput, ',');
    CleanUrlsOmit(pieces, ',');
    CleanUrls(pieces)
  }

  /** The file's lines, each stripped, with the blank ones dropped.
      Python yields each line with its `\n`; `strip` removes it, so splitting
      at `\n` gives the same list. */
  function UrlsFromLines(text: string): (urls: seq<string>)
    ensures forall i :: 0 <= i < |urls| ==> urls[i] != [] && IsStripped(urls[i]) && '\n' !in urls[i]
  {
    var pieces := Split(UniversalNewlines(text), '\n');
    SplitOmitsSeparator(UniversalNewlines(text), '\n');
    CleanUrlsOmit(pieces, '\n');
    CleanUrls(pieces)
  }

  /** No string of `strings` holds `c`. */
  predicate NoneHolds(strings: seq<string>, c: char)
  {
    forall i :: 0 <= i < |strings| ==> c !in strings[i]
  }

  lemma NoneHoldsConcat(a: seq<string>, b: seq<string>, c: char)
    requires NoneHolds(a, c) && NoneHolds(b, c)
    ensures NoneHolds(a + b, c)
  {
    forall i | 0 <= i < |a + b| ensures c !in (a + b)[i] {
      if i < |a| { assert (a + b)[i] == a[i]; } else { assert (a + b)[i] == b[i - |a|]; }
    }
  }

  lemma NoneHoldsTail(strings: seq<string>, c: char)
    requires strings != [] && NoneHolds(strings, c)
    ensures c !in strings[0] && NoneHolds(strings[1..], c)
  {
    forall i | 0 <= i < |strings| - 1 ensures c !in strings[1..][i] {
      assert strings[1..][i] == strings[i + 1];
    }
  }

  /** A character that no piece holds is in no URL. */
  lemma {:induction false} CleanUrlsOmit(pieces: seq<string>, c: char)
    requires NoneHolds(pieces, c)
    ensures NoneHolds(CleanUrls(pieces), c)
  {
    if pieces != [] {
      NoneHoldsTail(pieces, c);
      CleanUrlsOmit(pieces[1..], c);
      StripIsInside(pieces[0], c);
      NoneHoldsConcat(Keep(pieces[0]), CleanUrls(pieces[1..]), c);
    }
  }

  /** What `strip` returns is a piece of its input. */
  lemma StripIsInside(s: string, c: char)
    requires c !in s
    ensures c !in Strip(s)
  {
    var i := StripSlice(s);
    SliceOmits(s, c, i, i + |Strip(s)|);
  }

  lemma SliceOmits(s: string, c: char, i: nat, j: nat)
    requires i <= j <= |s| && c !in s
    ensures c !in s[i..j]
  {
    forall k | 0 <= k < j - i ensures s[i..j][k] != c { assert s[i..j][k] == s[i + k]; }
  }

  /** `main`'s URL list: `fileText` is the text of the file named by the
      (stripped) input when such a file exists, None otherwise. */
  function UrlsFromInput(userInput: string, fileText: Option<string>): (urls: seq<string>)
    ensures fileText.Some? ==> urls == UrlsFromLines(fileText.value)
    ensures fileText.None? ==> urls == UrlsFromCommaList(Strip(userInput))
    ensures forall i :: 0 <= i < |urls| ==> urls[i] != [] && IsStripped(urls[i])
  {
    match fileText
    case Some(text) => UrlsFromLines(text)
    case None => UrlsFromCommaList(Strip(userInput))
  }
}
