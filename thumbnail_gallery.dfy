/** The incremental gallery of `generate_gallery.py`: for each sub-folder of `CardImages/` with at
    least one image, thumbnails are remade only when missing or older than their image, and one
    page per folder plus an index are generated. */
module ThumbnailGallery {
  import opened Wrappers
  import opened PyStr
  import opened Seqs
  import opened FileSystem

  // ---------------------------------------------------------------------------
  // String order and sorting, as Python's `sorted` on names
  // ---------------------------------------------------------------------------

  /** Python's `a <= b` on strings: lexicographic by code point */
  predicate StrLe(a: string, b: string)
    decreases |a|
  {
    a == [] || (b != [] && (a[0] < b[0] || (a[0] == b[0] && StrLe(a[1..], b[1..]))))
  }

  lemma {:induction false} StrLeTotal(a: string, b: string)
    ensures StrLe(a, b) || StrLe(b, a)
    decreases |a|
  {
    if a != [] && b != [] && a[0] == b[0] {
      StrLeTotal(a[1..], b[1..]);
    }
  }

  lemma {:induction false} StrLeTrans(a: string, b: string, c: string)
    requires StrLe(a, b) && StrLe(b, c)
    ensures StrLe(a, c)
    decreases |a|
  {
    if a != [] && a[0] == b[0] && b[0] == c[0] {
      StrLeTrans(a[1..], b[1..], c[1..]);
    }
  }

  lemma {:induction false} StrLeAntisymmetric(a: string, b: string)
    requires StrLe(a, b) && StrLe(b, a)
    ensures a == b
    decreases |a|
  {
    if a != [] {
      StrLeAntisymmetric(a[1..], b[1..]);
      assert a == [a[0]] + a[1..] && b == [b[0]] + b[1..];
    }
  }

  /** Every element is at most every later one, compared by `key` */
  ghost predicate SortedBy<T>(s: seq<T>, key: T -> string) {
    forall i, j :: 0 <= i < j < |s| ==> StrLe(key(s[i]), key(s[j]))
  }

  /** Insert `x` before the first element it is at most */
  function InsertBy<T>(x: T, s: seq<T>, key: T -> string): seq<T>
    decreases |s|
  {
    if s == [] then [x]
    else if StrLe(key(x), key(s[0])) then [x] + s
    else [s[0]] + InsertBy(x, s[1..], key)
  }

  /** `sorted(xs, key=key)`, as an insertion sort */
  function SortBy<T>(xs: seq<T>, key: T -> string): seq<T>
    decreases |xs|
  {
    if xs == [] then [] else InsertBy(xs[0], SortBy(xs[1..], key), key)
  }

  lemma {:induction false} InsertByElements<T>(x: T, s: seq<T>, key: T -> string)
    ensures multiset(InsertBy(x, s, key)) == multiset(s) + multiset{x}
    decreases |s|
  {
    if s != [] && !StrLe(key(x), key(s[0])) {
      InsertByElements(x, s[1..], key);
      assert s == [s[0]] + s[1..];
    }
  }

  lemma {:induction false} InsertBySorted<T>(x: T, s: seq<T>, key: T -> string)
    requires SortedBy(s, key)
    ensures SortedBy(InsertBy(x, s, key), key)
    decreases |s|
  {
    if s == [] {
    } else if StrLe(key(x), key(s[0])) {
      var r := [x] + s;
      forall i, j | 0 <= i < j < |r| ensures StrLe(key(r[i]), key(r[j])) {
        if i == 0 && j > 1 {
          StrLeTrans(key(x), key(s[0]), key(s[j - 1]));
        }
      }
    } else {
      StrLeTotal(key(x), key(s[0]));
      var t := InsertBy(x, s[1..], key);
      InsertBySorted(x, s[1..], key);
      InsertByElements(x, s[1..], key);
      var r := [s[0]] + t;
      forall i, j | 0 <= i < j < |r| ensures StrLe(key(r[i]), key(r[j])) {
        if i == 0 {
          var y := t[j - 1];
          assert y in multiset(t);
          assert y == x || y in multiset(s[1..]);
          if y != x {
            var k :| 0 <= k < |s[1..]| && s[1..][k] == y;
            assert s[k + 1] == y;
          }
        } else {
          assert r[i] == t[i - 1] && r[j] == t[j - 1];
        }
      }
    }
  }

  /** `sorted` returns its input in order. */
  lemma {:induction false} SortBySortsAndPermutes<T>(xs: seq<T>, key: T -> string)
    ensures SortedBy(SortBy(xs, key), key)
    ensures multiset(SortBy(xs, key)) == multiset(xs)
    decreases |xs|
  {
    if xs != [] {
      SortBySortsAndPermutes(xs[1..], key);
      InsertBySorted(xs[0], SortBy(xs[1..], key), key);
      InsertByElements(xs[0], SortBy(xs[1..], key), key);
      assert xs == [xs[0]] + xs[1..];
    }
  }

  // ---------------------------------------------------------------------------
  // Image selection
  // ---------------------------------------------------------------------------

  /** `IMAGE_EXTENSIONS` */
  const ImageExtensions: set<string> := {".jpg", ".jpeg", ".png", ".gif", ".webp"}

  /** `f.suffix.lower() in IMAGE_EXTENSIONS and not f.name.startswith("thumbnails")` */
  predicate IsGalleryImage(name: string) {
    Lower(Suffix(name)) in ImageExtensions && !StartsWith(name, "thumbnails")
  }

  /** A name is its own sort key. */
  function NameOf(name: string): string {
    name
  }

  /** The sorted list of image names of a folder */
  function SelectImages(names: seq<string>): seq<string> {
    SortBy(Filter(names, IsGalleryImage), NameOf)
  }

  /** The image list holds exactly the gallery images of the folder, each as often as listed, in
      ascending order. */
  lemma SelectImagesSpec(names: seq<string>)
    ensures SortedBy(SelectImages(names), NameOf)
    ensures forall n :: multiset(SelectImages(names))[n] == if IsGalleryImage(n) then multiset(names)[n] else 0
  {
    FilterFacts(names, IsGalleryImage);
    SortBySortsAndPermutes(Filter(names, IsGalleryImage), NameOf);
  }

  /** A folder has images exactly when one of its names is a gallery image. */
  lemma SelectImagesNonEmpty(names: seq<string>)
    ensures SelectImages(names) != [] <==> exists n :: n in names && IsGalleryImage(n)
  {
    SelectImagesSpec(names);
    var r := SelectImages(names);
    if r != [] {
      assert multiset(r)[r[0]] > 0;
    }
    if exists n :: n in names && IsGalleryImage(n) {
      var n :| n in names && IsGalleryImage(n);
      assert multiset(r)[n] > 0;
    }
  }

  // ---------------------------------------------------------------------------
  // Paths and page links
  // ---------------------------------------------------------------------------

  /** `entry / img_name` with `entry = BASE_DIR / folder` */
  function SourceOf(folder: string, name: string): Path {
    "CardImages/" + folder + "/" + name
  }

  /** `entry / "thumbnails" / img_name` */
  function ThumbOf(folder: string, name: string): Path {
    "CardImages/" + folder + "/thumbnails/" + name
  }

  /** The two links of one image on a folder page */
  datatype Link = Link(full: string, thumb: string)

  /** A generated folder page: the folder and its image list */
  datatype Page = Page(folder: string, images: seq<string>)

  /** `full_img_path` and `thumb_path` of `generate_folder_page`, one per image, in order */
  function PageLinks(page: Page): (links: seq<Link>)
    ensures |links| == |page.images|
    ensures forall k :: 0 <= k < |links| ==>
              links[k].full == SourceOf(page.folder, page.images[k])
              && links[k].thumb == ThumbOf(page.folder, page.images[k])
  {
    seq(|page.images|, k requires 0 <= k < |page.images| =>
      Link("CardImages/" + page.folder + "/" + page.images[k],
           "CardImages/" + page.folder + "/thumbnails/" + page.images[k]))
  }

  /** The file `generate_folder_page` writes for a page, `f"{folder}.html"` under the output directory */
  function PageFile(page: Page): string {
    page.folder + ".html"
  }

  /** The index links `f"{folder}.html"` */
  function IndexLinks(subfolders: seq<string>): (links: seq<string>)
    ensures |links| == |subfolders|
    ensures forall k :: 0 <= k < |links| ==> links[k] == subfolders[k] + ".html"
  {
    seq(|subfolders|, k requires 0 <= k < |subfolders| => subfolders[k] + ".html")
  }

  /** An image name that passes the selection never names a thumbnail of the same folder: the
      `thumbnails` prefix test keeps sources and thumbnails apart. */
  lemma SourceIsNotThumb(folder: string, name: string, other: string)
    requires !StartsWith(name, "thumbnails")
    ensures SourceOf(folder, name) != ThumbOf(folder, other)
  {
    var p := "CardImages/" + folder + "/";
    assert SourceOf(folder, name) == p + name;
    assert ThumbOf(folder, other) == p + ("thumbnails/" + other);
    assert (p + name)[|p|..] == name;
    assert (p + ("thumbnails/" + other))[|p|..] == "thumbnails/" + other;
    assert ("thumbnails/" + other)[..|"thumbnails"|] == "thumbnails";
  }

  /** Distinct names of one folder have distinct thumbnails. */
  lemma ThumbOfInjective(folder: string, a: string, b: string)
    requires ThumbOf(folder, a) == ThumbOf(folder, b)
    ensures a == b
  {
    var p := "CardImages/" + folder + "/thumbnails/";
    assert ThumbOf(folder, a) == p + a && ThumbOf(folder, b) == p + b;
    assert a == (p + a)[|p|..] && b == (p + b)[|p|..];
  }

  // ---------------------------------------------------------------------------
  // make_thumbnail
  // ---------------------------------------------------------------------------

  /** What `make_thumbnail` did: skipped an up-to-date thumbnail, made one, failed inside the `try`
      (caught and reported), or raised from `src_path.stat()` outside it */
  datatype Status = UpToDate | Made | Failed | Crashed

  /** The store after one call, and what happened */
  datatype ThumbResult = ThumbResult(store: map<Path, int>, status: Status)

  /** The thumbnail is missing, or older than its image */
  predicate IsStale(m: map<Path, int>, src: Path, thumb: Path) {
    thumb !in m || (src in m && m[thumb] < m[src])
  }

  /** `make_thumbnail(src, thumb)` at time `now`; `decodable` are the files the image library can
      open and re-encode */
  function MakeThumbnailStep(m: map<Path, int>, src: Path, thumb: Path, decodable: set<Path>, now: int)
    : (r: ThumbResult)
    ensures r.status == Crashed <==> thumb in m && src !in m
    ensures r.status == UpToDate <==> thumb in m && src in m && m[thumb] >= m[src]
    ensures r.status == Made <==> IsStale(m, src, thumb) && src in m && src in decodable
    ensures r.store == if r.status == Made then m[thumb := now] else m
  {
    if thumb in m && src !in m then ThumbResult(m, Crashed)
    else if thumb in m && m[thumb] >= m[src] then ThumbResult(m, UpToDate)
    else if src in m && src in decodable then ThumbResult(m[thumb := now], Made)
    else ThumbResult(m, Failed)
  }

  /** `make_thumbnail` on the file store */
  method MakeThumbnail(store: FileStore, src: Path, thumb: Path, decodable: set<Path>, now: int)
    returns (status: Status)
    modifies store
    ensures ThumbResult(store.mtimes, status) == MakeThumbnailStep(old(store.mtimes), src, thumb, decodable, now)
  {
    if thumb in store.mtimes {
      if src !in store.mtimes {
        return Crashed;
      }
      if store.mtimes[thumb] >= store.mtimes[src] {
        return UpToDate;
      }
    }
    if src in store.mtimes && src in decodable {
      store.Save(thumb, now);
      return Made;
    }
    return Failed;
  }

  /** A thumbnail just made from an image no newer than `now` is up to date. */
  lemma MadeIsFresh(m: map<Path, int>, src: Path, thumb: Path, decodable: set<Path>, now: int)
    requires src != thumb && src in m && m[src] <= now
    requires MakeThumbnailStep(m, src, thumb, decodable, now).status == Made
    ensures MakeThumbnailStep(MakeThumbnailStep(m, src, thumb, decodable, now).store, src, thumb, decodable, now)
            == ThumbResult(MakeThumbnailStep(m, src, thumb, decodable, now).store, UpToDate)
  {
  }

  // ---------------------------------------------------------------------------
  // The thumbnail loop of one folder
  // ---------------------------------------------------------------------------

  /** The store after a run of `make_thumbnail` calls, and the source whose `stat` raised, if any */
  datatype Pass = Pass(store: map<Path, int>, crash: Option<Path>)

  /** `for img_name in images: make_thumbnail(entry / img_name, entry / "thumbnails" / img_name)` */
  function ThumbnailsPass(m: map<Path, int>, folder: string, images: seq<string>, decodable: set<Path>, now: int)
    : Pass
    decreases |images|
  {
    if images == [] then Pass(m, None)
    else
      var prev := ThumbnailsPass(m, folder, images[..|images| - 1], decodable, now);
      var name := images[|images| - 1];
      if prev.crash.Some? then prev
      else
        var step := MakeThumbnailStep(prev.store, SourceOf(folder, name), ThumbOf(folder, name), decodable, now);
        if step.status == Crashed then Pass(step.store, Some(SourceOf(folder, name)))
        else Pass(step.store, None)
  }

  lemma {:induction false} PassStops(m: map<Path, int>, folder: string, images: seq<string>, j: nat,
                                     decodable: set<Path>, now: int)
    requires j <= |images|
    requires ThumbnailsPass(m, folder, images[..j], decodable, now).crash.Some?
    ensures ThumbnailsPass(m, folder, images, decodable, now) == ThumbnailsPass(m, folder, images[..j], decodable, now)
    decreases |images| - j
  {
    if j < |images| {
      assert images[..j + 1][..j] == images[..j];
      PassStops(m, folder, images, j + 1, decodable, now);
    } else {
      assert images[..j] == images;
    }
  }

  /** The pass stops only at an image whose thumbnail exists while the image itself does not; a
      thumbnail that fails to be made does not stop the others. */
  lemma {:induction false} PassCrashesOnlyOnMissingSource(m: map<Path, int>, folder: string, images: seq<string>,
                                                          decodable: set<Path>, now: int)
    requires forall k :: 0 <= k < |images| ==> SourceOf(folder, images[k]) in m
    ensures ThumbnailsPass(m, folder, images, decodable, now).crash.None?
    ensures forall k :: 0 <= k < |images| ==>
              SourceOf(folder, images[k]) in ThumbnailsPass(m, folder, images, decodable, now).store
    decreases |images|
  {
    if images != [] {
      var init := images[..|images| - 1];
      assert forall k :: 0 <= k < |init| ==> init[k] == images[k];
      PassCrashesOnlyOnMissingSource(m, folder, init, decodable, now);
      PassWritesOnlyThumbnails(m, folder, init, decodable, now);
    }
  }

  /** The pass writes only the thumbnails of its images, each at most once, at time `now`, and never
      removes a file. */
  lemma {:induction false} PassWritesOnlyThumbnails(m: map<Path, int>, folder: string, images: seq<string>,
                                                    decodable: set<Path>, now: int)
    ensures m.Keys <= ThumbnailsPass(m, folder, images, decodable, now).store.Keys
    ensures forall p :: p in ThumbnailsPass(m, folder, images, decodable, now).store ==>
              (p in m && ThumbnailsPass(m, folder, images, decodable, now).store[p] == m[p])
              || (ThumbnailsPass(m, folder, images, decodable, now).store[p] == now
                  && exists k :: 0 <= k < |images| && p == ThumbOf(folder, images[k]))
    decreases |images|
  {
    if images != [] {
      var init := images[..|images| - 1];
      assert forall k :: 0 <= k < |init| ==> init[k] == images[k];
      PassWritesOnlyThumbnails(m, folder, init, decodable, now);
    }
  }

  /** Images with no '/' and no `thumbnails` prefix, each listed once: a directory listing after
      selection */
  ghost predicate WellFormedImages(images: seq<string>) {
    && (forall i, j :: 0 <= i < j < |images| ==> images[i] != images[j])
    && (forall k :: 0 <= k < |images| ==> !StartsWith(images[k], "thumbnails"))
  }

  /** After a pass without a crash, an image's thumbnail is remade at `now` exactly when it was
      stale and its image can be read; otherwise it is as before. Sources are never touched. */
  lemma {:induction false} PassEffect(m: map<Path, int>, folder: string, images: seq<string>,
                                      decodable: set<Path>, now: int)
    requires WellFormedImages(images)
    requires ThumbnailsPass(m, folder, images, decodable, now).crash.None?
    ensures forall k :: 0 <= k < |images| ==>
              var src, thumb := SourceOf(folder, images[k]), ThumbOf(folder, images[k]);
              var r := ThumbnailsPass(m, folder, images, decodable, now).store;
              && (src in r <==> src in m) && (src in m ==> r[src] == m[src])
              && (thumb in r <==> thumb in m || (IsStale(m, src, thumb) && src in m && src in decodable))
              && (thumb in r ==>
                    r[thumb] == if IsStale(m, src, thumb) && src in m && src in decodable then now else m[thumb])
    decreases |images|
  {
    if images != [] {
      var init := images[..|images| - 1];
      var name := images[|images| - 1];
      var prev := ThumbnailsPass(m, folder, init, decodable, now);
      assert forall k :: 0 <= k < |init| ==> init[k] == images[k];
      assert prev.crash.None?;
      PassEffect(m, folder, init, decodable, now);
      var src, thumb := SourceOf(folder, name), ThumbOf(folder, name);
      forall k | 0 <= k < |init| ensures ThumbOf(folder, init[k]) != thumb && SourceOf(folder, init[k]) != thumb
                                      && SourceOf(folder, name) != ThumbOf(folder, init[k]) {
        if ThumbOf(folder, init[k]) == thumb {
          ThumbOfInjective(folder, init[k], name);
        }
        SourceIsNotThumb(folder, init[k], name);
        SourceIsNotThumb(folder, name, init[k]);
      }
      PassUntouched(m, folder, init, decodable, now, src);
      PassUntouched(m, folder, init, decodable, now, thumb);
    }
  }

  /** A path that is none of the pass's thumbnails is left as it was. */
  lemma PassUntouched(m: map<Path, int>, folder: string, images: seq<string>, decodable: set<Path>, now: int,
                      p: Path)
    requires forall k :: 0 <= k < |images| ==> p != ThumbOf(folder, images[k])
    ensures p in ThumbnailsPass(m, folder, images, decodable, now).store <==> p in m
    ensures p in m ==> ThumbnailsPass(m, folder, images, decodable, now).store[p] == m[p]
  {
    PassWritesOnlyThumbnails(m, folder, images, decodable, now);
  }

  /** A pass over up-to-date thumbnails writes nothing. */
  lemma {:induction false} PassIdleWhenFresh(m: map<Path, int>, folder: string, images: seq<string>,
                                             decodable: set<Path>, now: int)
    requires forall k :: 0 <= k < |images| ==>
               !IsStale(m, SourceOf(folder, images[k]), ThumbOf(folder, images[k])) && SourceOf(folder, images[k]) in m
    ensures ThumbnailsPass(m, folder, images, decodable, now) == Pass(m, None)
    decreases |images|
  {
    if images != [] {
      var init := images[..|images| - 1];
      assert forall k :: 0 <= k < |init| ==> init[k] == images[k];
      PassIdleWhenFresh(m, folder, init, decodable, now);
    }
  }

  /** When every image exists, can be read and is no newer than `now`, one pass leaves every
      thumbnail up to date, so a second pass at the same time writes nothing. */
  lemma PassMakesFresh(m: map<Path, int>, folder: string, images: seq<string>, decodable: set<Path>, now: int)
    requires WellFormedImages(images)
    requires forall k :: 0 <= k < |images| ==>
               var src := SourceOf(folder, images[k]); src in m && src in decodable && m[src] <= now
    ensures ThumbnailsPass(m, folder, images, decodable, now).crash.None?
    ensures var r := ThumbnailsPass(m, folder, images, decodable, now).store;
            ThumbnailsPass(r, folder, images, decodable, now) == Pass(r, None)
  {
    PassCrashesOnlyOnMissingSource(m, folder, images, decodable, now);
    PassEffect(m, folder, images, decodable, now);
    var r := ThumbnailsPass(m, folder, images, decodable, now).store;
    PassIdleWhenFresh(r, folder, images, decodable, now);
  }

  // ---------------------------------------------------------------------------
  // main
  // ---------------------------------------------------------------------------

  /** An entry of `CardImages/`: its name, whether it is a directory, and the names inside it */
  datatype Entry = Entry(name: string, isDir: bool, children: seq<string>)

  /** Entries are sorted by name. */
  function EntryName(e: Entry): string {
    e.name
  }

  /** The page of a folder that is listed: a directory with at least one image */
  function PageOf(e: Entry): Option<Page> {
    if e.isDir && SelectImages(e.children) != [] then Some(Page(e.name, SelectImages(e.children))) else None
  }

  /** The pages `main` generates, one per listed folder, in entry order */
  function ListedPages(entries: seq<Entry>): seq<Page>
    decreases |entries|
  {
    if entries == [] then []
    else
      var page := PageOf(entries[|entries| - 1]);
      ListedPages(entries[..|entries| - 1]) + if page.Some? then [page.value] else []
  }

  /** The folder of each page, in order */
  function Folders(pages: seq<Page>): (names: seq<string>)
    ensures |names| == |pages|
    ensures forall k :: 0 <= k < |pages| ==> names[k] == pages[k].folder
  {
    seq(|pages|, k requires 0 <= k < |pages| => pages[k].folder)
  }

  /** `main`'s state: the store, the folders listed so far, the pages generated so far, and the
      source whose `stat` raised, if any */
  datatype Gallery = Gallery(store: map<Path, int>, subfolders: seq<string>, pages: seq<Page>, crash: Option<Path>)

  /** The loop over the sorted entries */
  function GalleryPass(m: map<Path, int>, entries: seq<Entry>, decodable: set<Path>, now: int): Gallery
    decreases |entries|
  {
    if entries == [] then Gallery(m, [], [], None)
    else
      var prev := GalleryPass(m, entries[..|entries| - 1], decodable, now);
      var e := entries[|entries| - 1];
      if prev.crash.Some? || !e.isDir then prev
      else
        var images := SelectImages(e.children);
        if images == [] then prev
        else
          var t := ThumbnailsPass(prev.store, e.name, images, decodable, now);
          if t.crash.Some? then Gallery(t.store, prev.subfolders + [e.name], prev.pages, t.crash)
          else Gallery(t.store, prev.subfolders + [e.name], prev.pages + [Page(e.name, images)], None)
  }

  /** How `main` ends: the base directory is missing; a `stat` of `path` raised after the folder
      `pages` were written; or the index is generated for `subfolders` after the folder `pages` */
  datatype Run =
    | BaseDirMissing
    | Aborted(path: Path, pages: seq<Page>)
    | Generated(subfolders: seq<string>, pages: seq<Page>)

  datatype MainResult = MainResult(run: Run, store: map<Path, int>)

  /** `main` as a function of the initial store, the listing and the clock */
  function GalleryMain(m: map<Path, int>, baseExists: bool, entries: seq<Entry>, decodable: set<Path>, now: int)
    : (r: MainResult)
    ensures !baseExists ==> r == MainResult(BaseDirMissing, m)
  {
    if !baseExists then MainResult(BaseDirMissing, m)
    else
      var g := GalleryPass(m, SortBy(entries, EntryName), decodable, now);
      if g.crash.Some? then MainResult(Aborted(g.crash.value, g.pages), g.store)
      else MainResult(Generated(g.subfolders, g.pages), g.store)
  }

  /** `main()`: the store is updated in place and the outcome returned. */
  method GenerateGallery(store: FileStore, baseExists: bool, entries: seq<Entry>, decodable: set<Path>, now: int)
    returns (run: Run)
    modifies store
    ensures MainResult(run, store.mtimes) == GalleryMain(old(store.mtimes), baseExists, entries, decodable, now)
  {
    if !baseExists {
      return BaseDirMissing;
    }
    ghost var m := store.mtimes;
    var sorted := SortBy(entries, EntryName);
    var subfolders: seq<string> := [];
    var pages: seq<Page> := [];
    for i := 0 to |sorted|
      invariant Gallery(store.mtimes, subfolders, pages, None) == GalleryPass(m, sorted[..i], decodable, now)
    {
      var entry := sorted[i];
      assert sorted[..i + 1][..i] == sorted[..i];
      if entry.isDir {
        var images := SelectImages(entry.children);
        if images != [] {
          subfolders := subfolders + [entry.name];
          var crash := MakeThumbnails(store, entry.name, images, decodable, now);
          if crash.Some? {
            GalleryStops(m, sorted, i + 1, decodable, now);
            return Aborted(crash.value, pages);
          }
          pages := pages + [Page(entry.name, images)];
        }
      }
    }
    assert sorted[..|sorted|] == sorted;
    return Generated(subfolders, pages);
  }

  /** The inner loop of `main`: one `make_thumbnail` per image, stopping at the first that raises */
  method MakeThumbnails(store: FileStore, folder: string, images: seq<string>, decodable: set<Path>, now: int)
    returns (crash: Option<Path>)
    modifies store
    ensures Pass(store.mtimes, crash) == ThumbnailsPass(old(store.mtimes), folder, images, decodable, now)
  {
    ghost var m := store.mtimes;
    for j := 0 to |images|
      invariant Pass(store.mtimes, None) == ThumbnailsPass(m, folder, images[..j], decodable, now)
    {
      assert images[..j + 1][..j] == images[..j];
      var status := MakeThumbnail(store, SourceOf(folder, images[j]), ThumbOf(folder, images[j]), decodable, now);
      if status == Crashed {
        PassStops(m, folder, images, j + 1, decodable, now);
        return Some(SourceOf(folder, images[j]));
      }
    }
    assert images[..|images|] == images;
    return None;
  }

  lemma {:induction false} GalleryStops(m: map<Path, int>, entries: seq<Entry>, i: nat, decodable: set<Path>, now: int)
    requires i <= |entries|
    requires GalleryPass(m, entries[..i], decodable, now).crash.Some?
    ensures GalleryPass(m, entries, decodable, now) == GalleryPass(m, entries[..i], decodable, now)
    decreases |entries| - i
  {
    if i < |entries| {
      assert entries[..i + 1][..i] == entries[..i];
      GalleryStops(m, entries, i + 1, decodable, now);
    } else {
      assert entries[..i] == entries;
    }
  }

  /** Without a crash, the pages are those of the listed folders and `subfolders` names them. */
  lemma {:induction false} GalleryLists(m: map<Path, int>, entries: seq<Entry>, decodable: set<Path>, now: int)
    requires GalleryPass(m, entries, decodable, now).crash.None?
    ensures GalleryPass(m, entries, decodable, now).pages == ListedPages(entries)
    ensures GalleryPass(m, entries, decodable, now).subfolders == Folders(ListedPages(entries))
    decreases |entries|
  {
    if entries != [] {
      var init := entries[..|entries| - 1];
      var e := entries[|entries| - 1];
      var prev := GalleryPass(m, init, decodable, now);
      assert prev.crash.None?;
      GalleryLists(m, init, decodable, now);
      if PageOf(e).Some? {
        assert Folders(ListedPages(init) + [PageOf(e).value]) == Folders(ListedPages(init)) + [e.name];
      } else {
        assert ListedPages(init) + [] == ListedPages(init);
      }
    }
  }

  /** When a `stat` raises, the pages already written are those of the listed folders before the
      folder whose thumbnail pass raised. */
  lemma {:induction false} GalleryAbortKeepsPages(m: map<Path, int>, entries: seq<Entry>, decodable: set<Path>,
                                                  now: int)
    returns (i: nat)
    requires GalleryPass(m, entries, decodable, now).crash.Some?
    ensures i < |entries| && PageOf(entries[i]).Some?
    ensures GalleryPass(m, entries, decodable, now).pages == ListedPages(entries[..i])
    decreases |entries|
  {
    var init := entries[..|entries| - 1];
    var e := entries[|entries| - 1];
    var prev := GalleryPass(m, init, decodable, now);
    if prev.crash.Some? {
      assert GalleryPass(m, entries, decodable, now) == prev;
      i := GalleryAbortKeepsPages(m, init, decodable, now);
      assert init[i] == entries[i];
      var before := init[..i];
      assert before == entries[..i] by {
        TakePrefix(entries, i, |entries| - 1);
      }
    } else {
      assert GalleryPass(m, entries, decodable, now).pages == prev.pages && PageOf(e).Some?;
      GalleryLists(m, init, decodable, now);
      i := |entries| - 1;
    }
  }

  /** A folder gets a page, and a place in `subfolders`, exactly when it is a directory with at
      least one image. */
  lemma {:induction false} ListedPagesExactly(entries: seq<Entry>, p: Page)
    ensures p in ListedPages(entries) <==> exists e :: e in entries && PageOf(e) == Some(p)
    decreases |entries|
  {
    if entries != [] {
      var init := entries[..|entries| - 1];
      assert entries == init + [entries[|entries| - 1]];
      ListedPagesExactly(init, p);
    }
  }

  /** Every listed page has a non-empty, sorted image list. */
  lemma ListedPagesHaveImages(entries: seq<Entry>, p: Page)
    requires p in ListedPages(entries)
    ensures p.images != [] && SortedBy(p.images, NameOf)
  {
    ListedPagesExactly(entries, p);
    var e :| e in entries && PageOf(e) == Some(p);
    SelectImagesSpec(e.children);
  }

  /** Some entry is called `name`. */
  ghost predicate NamesEntry(entries: seq<Entry>, name: string) {
    exists i :: 0 <= i < |entries| && entries[i].name == name
  }

  /** Every listed folder is the name of an entry. */
  lemma {:induction false} FoldersComeFromEntries(entries: seq<Entry>)
    ensures forall p :: p in ListedPages(entries) ==> NamesEntry(entries, p.folder)
    decreases |entries|
  {
    if entries != [] {
      var init := entries[..|entries| - 1];
      var e := entries[|entries| - 1];
      FoldersComeFromEntries(init);
      forall p | p in ListedPages(entries) ensures NamesEntry(entries, p.folder) {
        if p in ListedPages(init) {
          var i :| 0 <= i < |init| && init[i].name == p.folder;
          assert entries[i] == init[i];
        } else {
          assert entries[|entries| - 1].name == p.folder;
        }
      }
    }
  }

  /** Listing keeps the entry order, so sorted entries give sorted `subfolders`. */
  lemma {:induction false} ListedFoldersSorted(entries: seq<Entry>)
    requires SortedBy(entries, EntryName)
    ensures SortedBy(Folders(ListedPages(entries)), NameOf)
    decreases |entries|
  {
    if entries != [] {
      var init := entries[..|entries| - 1];
      var e := entries[|entries| - 1];
      assert SortedBy(init, EntryName) by {
        forall i, j | 0 <= i < j < |init| ensures StrLe(EntryName(init[i]), EntryName(init[j])) {
          assert init[i] == entries[i] && init[j] == entries[j];
        }
      }
      ListedFoldersSorted(init);
      FoldersComeFromEntries(init);
      var before := Folders(ListedPages(init));
      var all := Folders(ListedPages(entries));
      if PageOf(e).Some? {
        assert all == before + [e.name];
        forall i, j | 0 <= i < j < |all| ensures StrLe(NameOf(all[i]), NameOf(all[j])) {
          if j == |before| {
            assert ListedPages(init)[i] in ListedPages(init);
            var k :| 0 <= k < |init| && init[k].name == ListedPages(init)[i].folder;
            assert entries[k] == init[k];
            assert StrLe(EntryName(entries[k]), EntryName(entries[|entries| - 1]));
          } else {
            assert all[i] == before[i] && all[j] == before[j];
          }
        }
      } else {
        assert ListedPages(entries) == ListedPages(init) + [];
        assert ListedPages(init) + [] == ListedPages(init);
      }
    }
  }

  /** An aborted run has written the pages of the listed folders, in name order, up to the one
      whose thumbnails raised. */
  lemma MainAbortedPages(m: map<Path, int>, entries: seq<Entry>, decodable: set<Path>, now: int)
    returns (i: nat)
    requires GalleryMain(m, true, entries, decodable, now).run.Aborted?
    ensures var sorted := SortBy(entries, EntryName);
            && i < |sorted| && PageOf(sorted[i]).Some?
            && GalleryMain(m, true, entries, decodable, now).run.pages == ListedPages(sorted[..i])
  {
    var sorted := SortBy(entries, EntryName);
    var g := GalleryPass(m, sorted, decodable, now);
    assert g.crash.Some? && GalleryMain(m, true, entries, decodable, now).run.pages == g.pages;
    i := GalleryAbortKeepsPages(m, sorted, decodable, now);
  }

  /** The index links each generated page's file, one link per page, in order. */
  lemma IndexLinksPages(m: map<Path, int>, entries: seq<Entry>, decodable: set<Path>, now: int)
    requires GalleryMain(m, true, entries, decodable, now).run.Generated?
    ensures var run := GalleryMain(m, true, entries, decodable, now).run;
            && |IndexLinks(run.subfolders)| == |run.pages|
            && forall k :: 0 <= k < |run.pages| ==> IndexLinks(run.subfolders)[k] == PageFile(run.pages[k])
  {
    MainListing(m, entries, decodable, now);
  }

  /** `subfolders` is in sorted order, and `main` lists exactly the folders with images. */
  lemma MainListing(m: map<Path, int>, entries: seq<Entry>, decodable: set<Path>, now: int)
    requires GalleryMain(m, true, entries, decodable, now).run.Generated?
    ensures var run := GalleryMain(m, true, entries, decodable, now).run;
            && SortedBy(run.subfolders, NameOf)
            && run.subfolders == Folders(run.pages)
            && forall p :: p in run.pages <==> exists e :: e in entries && PageOf(e) == Some(p)
  {
    var sorted := SortBy(entries, EntryName);
    SortBySortsAndPermutes(entries, EntryName);
    GalleryLists(m, sorted, decodable, now);
    ListedFoldersSorted(sorted);
    forall p ensures p in ListedPages(sorted) <==> exists e :: e in entries && PageOf(e) == Some(p) {
      ListedPagesExactly(sorted, p);
      assert forall e :: e in sorted <==> e in entries by {
        forall e ensures e in sorted <==> e in entries {
          assert e in sorted <==> multiset(sorted)[e] > 0;
          assert e in entries <==> multiset(entries)[e] > 0;
        }
      }
    }
  }
}
