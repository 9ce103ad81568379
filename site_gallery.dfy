/** The static card site built by `scripts/generate_gallery.py`: the manifest records made from the
    card images (OCR text, corner colour, URLs), the thumbnails and copies written under `docs/`,
    the regrouping of records by folder, and the escaped, truncated text shown on each page. */
module SiteGallery {
  import opened Wrappers
  import opened PyStr
  import opened Seqs
  import opened FileSystem

  // ---------------------------------------------------------------------------
  // OCR text: ' '.join(raw_text.split())
  // ---------------------------------------------------------------------------

  /** The OCR output with every run of whitespace collapsed to one space, none at the ends */
  function NormalizeOcrText(raw: string): (t: string)
    ensures IsSingleSpaced(t)
    ensures Split(t) == Split(raw)
  {
    SplitYieldsWords(raw);
    JoinIsSingleSpaced(Split(raw));
    SplitJoinRoundTrip(Split(raw));
    JoinWithSpaces(Split(raw))
  }

  /** Normalising twice is normalising once. */
  lemma NormalizeIdempotent(raw: string)
    ensures NormalizeOcrText(NormalizeOcrText(raw)) == NormalizeOcrText(raw)
  {
  }

  /** Normalised text has no tab, no newline, no other whitespace but single inner spaces. */
  lemma NormalizedHasNoLineBreaks(raw: string)
    ensures '\n' !in NormalizeOcrText(raw) && '\t' !in NormalizeOcrText(raw) && '\r' !in NormalizeOcrText(raw)
  {
    var t := NormalizeOcrText(raw);
    assert forall i :: 0 <= i < |t| ==> t[i] != '\n' && t[i] != '\t' && t[i] != '\r' by {
      forall i | 0 <= i < |t| ensures t[i] != '\n' && t[i] != '\t' && t[i] != '\r' {
        if IsSpace(t[i]) {
          assert t[i] == ' ';
        }
      }
    }
  }

  // ---------------------------------------------------------------------------
  // Top-right colour: the crop box and the '#' plus three two-digit hex fields
  // ---------------------------------------------------------------------------

  /** A colour channel: `int()` of the mean of 8-bit samples */
  type Channel = x: int | 0 <= x < 256

  /** Side of the square `get_top_right_color` samples by default */
  const CropSize := 30

  /** A PIL crop box (left, upper, right, lower) */
  datatype Box = Box(left: int, upper: int, right: int, lower: int)

  /** `(width - crop_w, 0, width, crop_h)`: the crop_w by crop_h corner at the top right */
  function CropBox(width: int, cropW: int, cropH: int): (b: Box)
    ensures b.right == width && b.upper == 0
    ensures b.right - b.left == cropW && b.lower - b.upper == cropH
  {
    Box(width - cropW, 0, width, cropH)
  }

  /** The default sample is the 30 by 30 corner ending at the right edge. */
  lemma DefaultCropBox(width: int)
    ensures CropBox(width, CropSize, CropSize) == Box(width - 30, 0, width, 30)
  {
    var b := CropBox(width, CropSize, CropSize);
    assert b.left == width - 30;
  }

  /** The lower-case hexadecimal digit of `d` */
  function HexDigit(d: int): char
    requires 0 <= d < 16
  {
    if d < 10 then ('0' as int + d) as char else ('a' as int + d - 10) as char
  }

  /** The value of a lower-case hexadecimal digit, -1 for any other character */
  function DigitValue(c: char): int {
    if '0' <= c <= '9' then c as int - '0' as int
    else if 'a' <= c <= 'f' then c as int - 'a' as int + 10
    else -1
  }

  predicate IsLowerHexDigit(c: char) {
    '0' <= c <= '9' || 'a' <= c <= 'f'
  }

  /** The `02x` format of `v`: two lower-case hex digits that read back as `v` */
  function Hex2(v: Channel): (s: string)
    ensures |s| == 2 && IsLowerHexDigit(s[0]) && IsLowerHexDigit(s[1])
    ensures 16 * DigitValue(s[0]) + DigitValue(s[1]) == v
  {
    [HexDigit(v / 16), HexDigit(v % 16)]
  }

  /** The two hex digits at `s[i..i+2]` read as a number */
  function ParseHex2(s: string, i: nat): int
    requires i + 2 <= |s|
  {
    16 * DigitValue(s[i]) + DigitValue(s[i + 1])
  }

  /** The colour string: `#` and the `02x` format of each of `r`, `g` and `b` */
  function HexColor(r: Channel, g: Channel, b: Channel): (s: string)
    ensures |s| == 7 && s[0] == '#'
    ensures forall i :: 1 <= i < 7 ==> IsLowerHexDigit(s[i])
    ensures ParseHex2(s, 1) == r && ParseHex2(s, 3) == g && ParseHex2(s, 5) == b
  {
    "#" + Hex2(r) + Hex2(g) + Hex2(b)
  }

  /** Different colours give different strings. */
  lemma HexColorInjective(r: Channel, g: Channel, b: Channel, r': Channel, g': Channel, b': Channel)
    requires HexColor(r, g, b) == HexColor(r', g', b')
    ensures r == r' && g == g' && b == b'
  {
    assert ParseHex2(HexColor(r, g, b), 1) == ParseHex2(HexColor(r', g', b'), 1);
    assert ParseHex2(HexColor(r, g, b), 3) == ParseHex2(HexColor(r', g', b'), 3);
    assert ParseHex2(HexColor(r, g, b), 5) == ParseHex2(HexColor(r', g', b'), 5);
  }

  // ---------------------------------------------------------------------------
  // copy_file_if_newer
  // ---------------------------------------------------------------------------

  /** `not dest_path.exists() or src.st_mtime > dest.st_mtime` */
  predicate ShouldCopy(m: map<Path, int>, src: Path, dst: Path)
    requires src in m
  {
    dst !in m || m[src] > m[dst]
  }

  /** The store after `copy_file_if_newer(src, dst)` */
  function CopiedIfNewer(m: map<Path, int>, src: Path, dst: Path): map<Path, int>
    requires src in m
  {
    if ShouldCopy(m, src, dst) then m[dst := m[src]] else m
  }

  /** The copy is made exactly when `ShouldCopy` holds, carries the source's time, touches no other
      file, and leaves nothing more to copy. */
  lemma CopiedIfNewerFacts(m: map<Path, int>, src: Path, dst: Path)
    requires src in m
    ensures CopiedIfNewer(m, src, dst).Keys == m.Keys + {dst}
    ensures ShouldCopy(m, src, dst) ==> CopiedIfNewer(m, src, dst)[dst] == m[src]
    ensures !ShouldCopy(m, src, dst) ==> CopiedIfNewer(m, src, dst) == m
    ensures forall p :: p in m && p != dst ==> CopiedIfNewer(m, src, dst)[p] == m[p]
    ensures src != dst ==> src in CopiedIfNewer(m, src, dst) && !ShouldCopy(CopiedIfNewer(m, src, dst), src, dst)
  {
  }

  /** Copying again right away changes nothing. */
  lemma CopyIfNewerIdempotent(m: map<Path, int>, src: Path, dst: Path)
    requires src in m && src != dst
    ensures src in CopiedIfNewer(m, src, dst)
    ensures CopiedIfNewer(CopiedIfNewer(m, src, dst), src, dst) == CopiedIfNewer(m, src, dst)
  {
    CopiedIfNewerFacts(m, src, dst);
  }

  /** `copy_file_if_newer(src_path, dest_path)` on the file store */
  method CopyFileIfNewer(store: FileStore, src: Path, dst: Path)
    requires src in store.mtimes
    modifies store
    ensures store.mtimes == CopiedIfNewer(old(store.mtimes), src, dst)
  {
    if dst !in store.mtimes || store.mtimes[src] > store.mtimes[dst] {
      store.Copy2(src, dst);
    }
  }

  // ---------------------------------------------------------------------------
  // The record-building loop of generate_cards_json_and_copy_images
  // ---------------------------------------------------------------------------

  /** An entry of a folder under `CardImages/` */
  datatype SourceFile = SourceFile(name: string, isFile: bool)

  /** An entry of `CardImages/`, with the entries inside it when it is a directory */
  datatype SourceFolder = SourceFolder(name: string, isDir: bool, entries: seq<SourceFile>)

  /** An image file `CardImages/<folder>/<name>` that gets a record */
  datatype ImageRef = ImageRef(folder: string, name: string)

  /** What the libraries report on an image: the raw OCR string and the truncated mean channels of
      its top-right corner */
  datatype Analysis = Analysis(rawText: string, red: Channel, green: Channel, blue: Channel)

  /** One entry of `cards.json` */
  datatype Record = Record(filename: string, url: string, thumbUrl: string, text: string, color: string)

  /** An image that cannot be opened: the exception is not caught, so the run stops */
  datatype Error = UnreadableImage(path: Path)

  /** The file store, the records appended so far, and the error that stopped the run, if any */
  datatype Outcome = Outcome(store: map<Path, int>, cards: seq<Record>, error: Option<Error>)

  /** The extensions that produce a record, compared after lower-casing */
  const RecordExtensions: set<string> := {".jpg", ".jpeg", ".png"}

  /** `img_file.is_file() and img_file.suffix.lower() in ['.jpg', '.jpeg', '.png']` */
  predicate IsRecordImage(f: SourceFile) {
    f.isFile && Lower(Suffix(f.name)) in RecordExtensions
  }

  /** The images of one folder that produce records, in iteration order */
  function FolderImages(folder: string, entries: seq<SourceFile>): seq<ImageRef>
    decreases |entries|
  {
    if entries == [] then []
    else
      var last := entries[|entries| - 1];
      FolderImages(folder, entries[..|entries| - 1])
      + if IsRecordImage(last) then [ImageRef(folder, last.name)] else []
  }

  /** The images of one entry of `CardImages/`: none unless it is a directory */
  function EntryImages(f: SourceFolder): seq<ImageRef> {
    if f.isDir then FolderImages(f.name, f.entries) else []
  }

  /** All images that produce records, folder by folder, in iteration order */
  function ImageRefs(folders: seq<SourceFolder>): seq<ImageRef>
    decreases |folders|
  {
    if folders == [] then []
    else ImageRefs(folders[..|folders| - 1]) + EntryImages(folders[|folders| - 1])
  }

  /** `f"CardImages/{folder}/{name}"`, which is also the source file `SOURCE_DIR / folder / name` */
  function ImageUrl(img: ImageRef): string {
    "CardImages/" + img.folder + "/" + img.name
  }

  /** `f"CardImages/{folder}/thumbnails/{name}"` */
  function ThumbUrl(img: ImageRef): string {
    "CardImages/" + img.folder + "/thumbnails/" + img.name
  }

  /** `SOURCE_DIR / folder / name` */
  function SourcePath(img: ImageRef): Path {
    ImageUrl(img)
  }

  /** `OUTPUT_DIR / "CardImages" / folder / "thumbnails" / name` */
  function ThumbnailPath(img: ImageRef): Path {
    "docs/" + ThumbUrl(img)
  }

  /** `OUTPUT_DIR / "CardImages" / folder / name` */
  function PublishedPath(img: ImageRef): Path {
    "docs/" + ImageUrl(img)
  }

  /** The record of one image: its links point at the copies written under `docs/` */
  function RecordOf(img: ImageRef, a: Analysis): (r: Record)
    ensures r.filename == img.name
    ensures "docs/" + r.url == PublishedPath(img) && "docs/" + r.thumbUrl == ThumbnailPath(img)
    ensures IsSingleSpaced(r.text) && Split(r.text) == Split(a.rawText)
    ensures |r.color| == 7 && ParseHex2(r.color, 1) == a.red && ParseHex2(r.color, 3) == a.green
            && ParseHex2(r.color, 5) == a.blue
  {
    Record(img.name, ImageUrl(img), ThumbUrl(img), NormalizeOcrText(a.rawText), HexColor(a.red, a.green, a.blue))
  }

  /** The image can be opened: it exists and the image libraries can read it */
  predicate Readable(store: map<Path, int>, analyses: map<Path, Analysis>, img: ImageRef) {
    SourcePath(img) in store && SourcePath(img) in analyses
  }

  /** One pass of the inner loop: write the thumbnail (at time `now`), copy the full image if newer,
      append the record; an image that cannot be opened stops the run before anything is written
      for it. */
  function PublishStep(o: Outcome, img: ImageRef, analyses: map<Path, Analysis>, now: int): Outcome {
    if o.error.Some? then o
    else if !Readable(o.store, analyses, img) then o.(error := Some(UnreadableImage(SourcePath(img))))
    else
      var saved := o.store[ThumbnailPath(img) := now];
      Outcome(CopiedIfNewer(saved, SourcePath(img), PublishedPath(img)),
              o.cards + [RecordOf(img, analyses[SourcePath(img)])], None)
  }

  /** The loop over `imgs`, in order, from outcome `start` */
  function Publish(start: Outcome, imgs: seq<ImageRef>, analyses: map<Path, Analysis>, now: int): Outcome
    decreases |imgs|
  {
    if imgs == [] then start
    else PublishStep(Publish(start, imgs[..|imgs| - 1], analyses, now), imgs[|imgs| - 1], analyses, now)
  }

  /** `generate_cards_json_and_copy_images` without the final JSON write: the store is updated in
      place and the records are returned, or the error that stopped the run. */
  method GeneratePublishedCards(store: FileStore, folders: seq<SourceFolder>, analyses: map<Path, Analysis>,
                                now: int)
    returns (cards: seq<Record>, error: Option<Error>)
    modifies store
    ensures Outcome(store.mtimes, cards, error)
            == Publish(Outcome(old(store.mtimes), [], None), ImageRefs(folders), analyses, now)
  {
    ghost var start := Outcome(store.mtimes, [], None);
    cards := [];
    error := None;
    var i := 0;
    while i < |folders|
      invariant 0 <= i <= |folders|
      invariant error == None
      invariant Outcome(store.mtimes, cards, None) == Publish(start, ImageRefs(folders[..i]), analyses, now)
    {
      NextFolder(start, folders, i, analyses, now);
      if folders[i].isDir {
        ghost var stop;
        cards, error, stop := PublishFolder(store, start, ImageRefs(folders[..i]), folders[i], cards, analyses, now);
        if error.Some? {
          StopsAtImage(start, folders, i, stop, analyses, now);
          return;
        }
      }
      i := i + 1;
    }
    TakeAll(folders);
  }

  /** The inner loop over the entries of a directory, continuing from the outcome of the images
      `before` it: the outcome after its images, or, when image `stop` stops the run, the outcome
      at that image. */
  method PublishFolder(store: FileStore, ghost start: Outcome, ghost before: seq<ImageRef>, folder: SourceFolder,
                       cardsBefore: seq<Record>, analyses: map<Path, Analysis>, now: int)
    returns (cards: seq<Record>, error: Option<Error>, ghost stop: nat)
    requires Outcome(store.mtimes, cardsBefore, None) == Publish(start, before, analyses, now)
    modifies store
    ensures error.None? ==>
            Outcome(store.mtimes, cards, None)
            == Publish(start, before + FolderImages(folder.name, folder.entries), analyses, now)
    ensures error.Some? ==>
            stop < |folder.entries|
            && Outcome(store.mtimes, cards, error)
               == Publish(start, before + FolderImages(folder.name, folder.entries[..stop + 1]), analyses, now)
  {
    cards := cardsBefore;
    error := None;
    stop := 0;
    var j := 0;
    assert folder.entries[..0] == [];
    AppendNothing(before);
    while j < |folder.entries|
      invariant 0 <= j <= |folder.entries|
      invariant error == None
      invariant Outcome(store.mtimes, cards, None)
                == Publish(start, before + FolderImages(folder.name, folder.entries[..j]), analyses, now)
    {
      var file := folder.entries[j];
      NextEntry(start, before, folder.name, folder.entries, j, analyses, now);
      if IsRecordImage(file) {
        cards, error := PublishImage(store, ImageRef(folder.name, file.name), cards, analyses, now);
        if error.Some? {
          stop := j;
          return;
        }
      }
      j := j + 1;
    }
    TakeAll(folder.entries);
  }

  /** The body of the inner loop for one record image: the step of `PublishStep`. */
  method PublishImage(store: FileStore, img: ImageRef, cardsBefore: seq<Record>, analyses: map<Path, Analysis>,
                      now: int)
    returns (cards: seq<Record>, error: Option<Error>)
    modifies store
    ensures Outcome(store.mtimes, cards, error)
            == PublishStep(Outcome(old(store.mtimes), cardsBefore, None), img, analyses, now)
  {
    cards := cardsBefore;
    if SourcePath(img) !in store.mtimes || SourcePath(img) !in analyses {
      error := Some(UnreadableImage(SourcePath(img)));
      return;
    }
    error := None;
    store.Save(ThumbnailPath(img), now);
    CopyFileIfNewer(store, SourcePath(img), PublishedPath(img));
    cards := cards + [RecordOf(img, analyses[SourcePath(img)])];
  }

  /** The outer loop: after entry `i` come the images of entry `i`, if it is a directory. */
  lemma NextFolder(start: Outcome, folders: seq<SourceFolder>, i: nat, analyses: map<Path, Analysis>, now: int)
    requires i < |folders|
    ensures folders[i].isDir ==>
            Publish(start, ImageRefs(folders[..i + 1]), analyses, now)
            == Publish(start, ImageRefs(folders[..i]) + FolderImages(folders[i].name, folders[i].entries),
                       analyses, now)
    ensures !folders[i].isDir ==>
            Publish(start, ImageRefs(folders[..i + 1]), analyses, now)
            == Publish(start, ImageRefs(folders[..i]), analyses, now)
  {
    TakePrefix(folders, i, i + 1);
    var f := folders[i];
    if !f.isDir {
      AppendNothing(ImageRefs(folders[..i]));
    }
  }

  /** The inner loop: entry `j` adds one step exactly when it is a record image. */
  lemma NextEntry(start: Outcome, before: seq<ImageRef>, folder: string, entries: seq<SourceFile>, j: nat,
                  analyses: map<Path, Analysis>, now: int)
    requires j < |entries|
    ensures Publish(start, before + FolderImages(folder, entries[..j + 1]), analyses, now)
            == if IsRecordImage(entries[j])
               then PublishStep(Publish(start, before + FolderImages(folder, entries[..j]), analyses, now),
                                ImageRef(folder, entries[j].name), analyses, now)
               else Publish(start, before + FolderImages(folder, entries[..j]), analyses, now)
  {
    var done := before + FolderImages(folder, entries[..j]);
    TakeOneMore(entries, j);
    FolderImagesAppend(folder, entries[..j], entries[j]);
    if IsRecordImage(entries[j]) {
      var img := ImageRef(folder, entries[j].name);
      assert before + FolderImages(folder, entries[..j + 1]) == done + [img] by {
        Regroup(before, FolderImages(folder, entries[..j]), [img], []);
        AppendNothing(done + [img]);
        AppendNothing(FolderImages(folder, entries[..j]) + [img]);
      }
      DropAppended(done, img);
    } else {
      AppendNothing(FolderImages(folder, entries[..j]));
    }
  }

  /** A run that stops at image `j` of entry `i` ends there. */
  lemma StopsAtImage(start: Outcome, folders: seq<SourceFolder>, i: nat, j: nat,
                     analyses: map<Path, Analysis>, now: int)
    requires i < |folders| && folders[i].isDir && j < |folders[i].entries|
    requires Publish(start, ImageRefs(folders[..i]) + FolderImages(folders[i].name, folders[i].entries[..j + 1]),
                     analyses, now).error.Some?
    ensures Publish(start, ImageRefs(folders), analyses, now)
            == Publish(start, ImageRefs(folders[..i]) + FolderImages(folders[i].name, folders[i].entries[..j + 1]),
                       analyses, now)
  {
    var f := folders[i];
    var done := ImageRefs(folders[..i]) + FolderImages(f.name, f.entries[..j + 1]);
    var rest := FolderImages(f.name, f.entries[j + 1..]) + ImageRefs(folders[i + 1..]);
    RestAfterImage(folders, i, j);
    PublishConcat(start, done, rest, analyses, now);
    PublishFailed(Publish(start, done, analyses, now), rest, analyses, now);
  }

  /** The images of all folders are those before folder `i`, then folder `i`'s, then the rest. */
  lemma ImageRefsAround(folders: seq<SourceFolder>, i: nat)
    requires i < |folders|
    ensures ImageRefs(folders) == ImageRefs(folders[..i]) + EntryImages(folders[i]) + ImageRefs(folders[i + 1..])
  {
    var f := folders[i];
    SplitAround(folders, i);
    ImageRefsConcat(folders[..i] + [f], folders[i + 1..]);
    ImageRefsConcat(folders[..i], [f]);
    assert [f][..0] == [];
  }

  /** The images after the one at `folders[i].entries[j]`, put back after it, are all the images. */
  lemma RestAfterImage(folders: seq<SourceFolder>, i: nat, j: nat)
    requires i < |folders| && folders[i].isDir && j < |folders[i].entries|
    ensures ImageRefs(folders)
            == ImageRefs(folders[..i]) + FolderImages(folders[i].name, folders[i].entries[..j + 1])
               + (FolderImages(folders[i].name, folders[i].entries[j + 1..]) + ImageRefs(folders[i + 1..]))
  {
    var f := folders[i];
    var a, p, q, r := ImageRefs(folders[..i]), FolderImages(f.name, f.entries[..j + 1]),
                      FolderImages(f.name, f.entries[j + 1..]), ImageRefs(folders[i + 1..]);
    ImageRefsAround(folders, i);
    assert EntryImages(f) == p + q by {
      SplitAt(f.entries, j + 1);
      FolderImagesConcat(f.name, f.entries[..j + 1], f.entries[j + 1..]);
    }
    Regroup(a, p, q, r);
  }

  /** One more entry adds its reference exactly when it is a record image. */
  lemma FolderImagesAppend(folder: string, entries: seq<SourceFile>, e: SourceFile)
    ensures FolderImages(folder, entries + [e])
            == FolderImages(folder, entries) + if IsRecordImage(e) then [ImageRef(folder, e.name)] else []
  {
    assert (entries + [e])[..|entries|] == entries;
  }

  lemma {:induction false} FolderImagesConcat(folder: string, a: seq<SourceFile>, b: seq<SourceFile>)
    ensures FolderImages(folder, a + b) == FolderImages(folder, a) + FolderImages(folder, b)
    decreases |b|
  {
    if b == [] {
      assert a + b == a;
    } else {
      var b' := b[..|b| - 1];
      var ab := a + b;
      assert ab[..|ab| - 1] == a + b';
      assert ab[|ab| - 1] == b[|b| - 1];
      FolderImagesConcat(folder, a, b');
    }
  }

  lemma {:induction false} ImageRefsConcat(a: seq<SourceFolder>, b: seq<SourceFolder>)
    ensures ImageRefs(a + b) == ImageRefs(a) + ImageRefs(b)
    decreases |b|
  {
    if b == [] {
      assert a + b == a;
    } else {
      var b' := b[..|b| - 1];
      var last := b[|b| - 1];
      var ab := a + b;
      assert ab[..|ab| - 1] == a + b';
      assert ab[|ab| - 1] == last;
      ImageRefsConcat(a, b');
      calc {
        ImageRefs(ab);
        ImageRefs(a + b') + EntryImages(last);
        (ImageRefs(a) + ImageRefs(b')) + EntryImages(last);
        ImageRefs(a) + (ImageRefs(b') + EntryImages(last));
      }
    }
  }

  /** An image of a folder is referenced exactly when some entry of that folder is a record image
      of that name. */
  lemma {:induction false} FolderImagesExactly(folder: string, entries: seq<SourceFile>, x: ImageRef)
    ensures x in FolderImages(folder, entries)
            <==> exists e :: e in entries && IsRecordImage(e) && x == ImageRef(folder, e.name)
    decreases |entries|
  {
    if entries != [] {
      var init := entries[..|entries| - 1];
      assert entries == init + [entries[|entries| - 1]];
      FolderImagesExactly(folder, init, x);
    }
  }

  /** A folder yields at most one reference per entry. */
  lemma {:induction false} FolderImagesBound(folder: string, entries: seq<SourceFile>)
    ensures |FolderImages(folder, entries)| <= |entries|
    ensures forall k :: 0 <= k < |FolderImages(folder, entries)| ==> FolderImages(folder, entries)[k].folder == folder
    decreases |entries|
  {
    if entries != [] {
      FolderImagesBound(folder, entries[..|entries| - 1]);
    }
  }

  /** A path inside the output directory `docs/` */
  predicate InDocs(p: Path) {
    |p| >= 5 && p[..5] == "docs/"
  }

  /** Source images lie outside `docs/`. */
  lemma SourceNotInDocs(img: ImageRef)
    ensures !InDocs(SourcePath(img))
    ensures InDocs(ThumbnailPath(img)) && InDocs(PublishedPath(img))
  {
    assert SourcePath(img)[0] == 'C';
    assert ThumbnailPath(img)[..5] == "docs/";
    assert PublishedPath(img)[..5] == "docs/";
  }

  /** The run writes only inside `docs/`, and never removes a file. */
  lemma {:induction false} PublishWritesOnlyDocs(start: Outcome, imgs: seq<ImageRef>,
                                                 analyses: map<Path, Analysis>, now: int)
    ensures start.store.Keys <= Publish(start, imgs, analyses, now).store.Keys
    ensures forall p :: !InDocs(p) ==>
              (p in Publish(start, imgs, analyses, now).store <==> p in start.store)
              && (p in start.store ==> Publish(start, imgs, analyses, now).store[p] == start.store[p])
    decreases |imgs|
  {
    if imgs != [] {
      var img := imgs[|imgs| - 1];
      var o := Publish(start, imgs[..|imgs| - 1], analyses, now);
      PublishWritesOnlyDocs(start, imgs[..|imgs| - 1], analyses, now);
      if o.error.None? && Readable(o.store, analyses, img) {
        var saved := o.store[ThumbnailPath(img) := now];
        CopiedIfNewerFacts(saved, SourcePath(img), PublishedPath(img));
        SourceNotInDocs(img);
      }
    }
  }

  /** The record for image `k` of a run, that is the record of its image and analysis */
  predicate RecordAt(cards: seq<Record>, offset: nat, imgs: seq<ImageRef>, analyses: map<Path, Analysis>, k: nat)
    requires k < |imgs| && offset + |imgs| <= |cards|
  {
    SourcePath(imgs[k]) in analyses && cards[offset + k] == RecordOf(imgs[k], analyses[SourcePath(imgs[k])])
  }

  /** On success there is one record per image, in the order of the images. */
  lemma {:induction false} PublishRecords(start: Outcome, imgs: seq<ImageRef>, analyses: map<Path, Analysis>,
                                          now: int)
    requires Publish(start, imgs, analyses, now).error.None?
    ensures |Publish(start, imgs, analyses, now).cards| == |start.cards| + |imgs|
    ensures Publish(start, imgs, analyses, now).cards[..|start.cards|] == start.cards
    ensures forall k :: 0 <= k < |imgs| ==>
              RecordAt(Publish(start, imgs, analyses, now).cards, |start.cards|, imgs, analyses, k)
    decreases |imgs|
  {
    if imgs != [] {
      var init := imgs[..|imgs| - 1];
      var img := imgs[|imgs| - 1];
      var o := Publish(start, init, analyses, now);
      var r := Publish(start, imgs, analyses, now);
      assert o.error.None?;
      PublishRecords(start, init, analyses, now);
      var rec := RecordOf(img, analyses[SourcePath(img)]);
      assert r.cards == o.cards + [rec];
      forall k | 0 <= k < |imgs|
        ensures RecordAt(r.cards, |start.cards|, imgs, analyses, k)
      {
        if k < |init| {
          assert RecordAt(o.cards, |start.cards|, init, analyses, k);
          assert imgs[k] == init[k];
          assert r.cards[|start.cards| + k] == o.cards[|start.cards| + k];
        }
      }
    }
  }

  /** On success the thumbnail and the copy of every image exist. */
  lemma {:induction false} PublishWritesEveryImage(start: Outcome, imgs: seq<ImageRef>,
                                                   analyses: map<Path, Analysis>, now: int)
    requires Publish(start, imgs, analyses, now).error.None?
    ensures forall k :: 0 <= k < |imgs| ==>
              ThumbnailPath(imgs[k]) in Publish(start, imgs, analyses, now).store
              && PublishedPath(imgs[k]) in Publish(start, imgs, analyses, now).store
    decreases |imgs|
  {
    if imgs != [] {
      var init := imgs[..|imgs| - 1];
      var img := imgs[|imgs| - 1];
      var o := Publish(start, init, analyses, now);
      var r := Publish(start, imgs, analyses, now);
      assert o.error.None?;
      PublishWritesEveryImage(start, init, analyses, now);
      var saved := o.store[ThumbnailPath(img) := now];
      CopiedIfNewerFacts(saved, SourcePath(img), PublishedPath(img));
      assert r.store.Keys == o.store.Keys + {ThumbnailPath(img), PublishedPath(img)} by {
        assert r == PublishStep(o, img, analyses, now);
      }
      WrittenAfterStep(o.store.Keys, r.store.Keys, init, imgs);
    }
  }

  /** The paths written for every image of `imgs[..|imgs| - 1]`, plus those of the last one, are
      those of every image of `imgs`. */
  lemma WrittenAfterStep(before: set<Path>, after: set<Path>, init: seq<ImageRef>, imgs: seq<ImageRef>)
    requires imgs != [] && init == imgs[..|imgs| - 1]
    requires after == before + {ThumbnailPath(imgs[|imgs| - 1]), PublishedPath(imgs[|imgs| - 1])}
    requires forall k :: 0 <= k < |init| ==> ThumbnailPath(init[k]) in before && PublishedPath(init[k]) in before
    ensures forall k :: 0 <= k < |imgs| ==> ThumbnailPath(imgs[k]) in after && PublishedPath(imgs[k]) in after
  {
    forall k | 0 <= k < |imgs| - 1
      ensures ThumbnailPath(imgs[k]) in after && PublishedPath(imgs[k]) in after
    {
      assert init[k] == imgs[k];
    }
  }

  /** The index of the first image that cannot be opened, -1 when every image can */
  function FirstUnreadable(store: map<Path, int>, analyses: map<Path, Analysis>, imgs: seq<ImageRef>): (k: int)
    ensures -1 <= k < |imgs|
    ensures k == -1 <==> forall j :: 0 <= j < |imgs| ==> Readable(store, analyses, imgs[j])
    ensures k >= 0 ==> !Readable(store, analyses, imgs[k])
                       && forall j :: 0 <= j < k ==> Readable(store, analyses, imgs[j])
    decreases |imgs|
  {
    if imgs == [] then -1
    else
      var init := imgs[..|imgs| - 1];
      var prev := FirstUnreadable(store, analyses, init);
      assert forall j :: 0 <= j < |init| ==> init[j] == imgs[j];
      if prev >= 0 then prev
      else if !Readable(store, analyses, imgs[|imgs| - 1]) then |imgs| - 1
      else -1
  }

  /** Whether an image can be opened does not change during the run. */
  lemma ReadableThroughout(start: Outcome, imgs: seq<ImageRef>, analyses: map<Path, Analysis>, now: int,
                           img: ImageRef)
    ensures Readable(Publish(start, imgs, analyses, now).store, analyses, img)
            <==> Readable(start.store, analyses, img)
  {
    PublishWritesOnlyDocs(start, imgs, analyses, now);
    SourceNotInDocs(img);
  }

  /** The run fails exactly when some image cannot be opened, and it reports the first such image. */
  lemma {:induction false} PublishFailsAtFirstUnreadable(start: Outcome, imgs: seq<ImageRef>,
                                                         analyses: map<Path, Analysis>, now: int)
    requires start.error.None?
    ensures var k := FirstUnreadable(start.store, analyses, imgs);
            Publish(start, imgs, analyses, now).error
            == if k < 0 then None else Some(UnreadableImage(SourcePath(imgs[k])))
    decreases |imgs|
  {
    if imgs != [] {
      var init := imgs[..|imgs| - 1];
      PublishFailsAtFirstUnreadable(start, init, analyses, now);
      ReadableThroughout(start, init, analyses, now, imgs[|imgs| - 1]);
    }
  }

  /** Running over `a + b` is running over `a`, then over `b`. */
  lemma {:induction false} PublishConcat(start: Outcome, a: seq<ImageRef>, b: seq<ImageRef>,
                                         analyses: map<Path, Analysis>, now: int)
    ensures Publish(start, a + b, analyses, now) == Publish(Publish(start, a, analyses, now), b, analyses, now)
    decreases |b|
  {
    if b == [] {
      assert a + b == a;
    } else {
      assert (a + b)[..|a + b| - 1] == a + b[..|b| - 1];
      PublishConcat(start, a, b[..|b| - 1], analyses, now);
    }
  }

  /** Once the run has stopped, nothing more happens. */
  lemma {:induction false} PublishFailed(o: Outcome, imgs: seq<ImageRef>, analyses: map<Path, Analysis>, now: int)
    requires o.error.Some?
    ensures Publish(o, imgs, analyses, now) == o
    decreases |imgs|
  {
    if imgs != [] {
      PublishFailed(o, imgs[..|imgs| - 1], analyses, now);
    }
  }

  // ---------------------------------------------------------------------------
  // generate_gallery_pages: grouping by the folder segment of the URL
  // ---------------------------------------------------------------------------

  /** `parts = url.split('/')`; `parts[1]` when there are at least three parts */
  function FolderKey(url: string): (key: Option<string>)
    ensures key.Some? ==> '/' !in key.value
  {
    var parts := SplitOn(url, '/');
    if |parts| >= 3 then Some(parts[1]) else None
  }

  /** The URL of a record splits into its segments when neither the folder nor the name has a '/'. */
  lemma ImageUrlSegments(img: ImageRef)
    requires '/' !in img.folder && '/' !in img.name
    ensures SplitOn(ImageUrl(img), '/') == ["CardImages", img.folder, img.name]
  {
    var f, n := img.folder, img.name;
    assert ImageUrl(img) == "CardImages" + ['/'] + (f + ['/'] + n);
    SplitOnThree("CardImages", f, n, '/');
  }

  /** The thumbnail URL, regrouped around its separators */
  lemma ThumbUrlShape(img: ImageRef)
    ensures ThumbUrl(img) == "CardImages" + ['/'] + (img.folder + ['/'] + ("thumbnails" + ['/'] + img.name))
  {
    var f, n := img.folder, img.name;
    assert "/thumbnails/" + n == ['/'] + ("thumbnails" + ['/'] + n);
    assert ThumbUrl(img) == "CardImages/" + (f + "/thumbnails/" + n);
  }

  /** The thumbnail URL of a record splits into its segments likewise. */
  lemma ThumbUrlSegments(img: ImageRef)
    requires '/' !in img.folder && '/' !in img.name
    ensures SplitOn(ThumbUrl(img), '/') == ["CardImages", img.folder, "thumbnails", img.name]
  {
    ThumbUrlShape(img);
    SplitOnFour("CardImages", img.folder, "thumbnails", img.name, '/');
  }

  /** The grouping key depends only on the folder: a name containing '/' still groups under it. */
  lemma FolderKeyOfRecord(img: ImageRef)
    requires '/' !in img.folder
    ensures FolderKey(ImageUrl(img)) == Some(img.folder)
  {
    var f, n := img.folder, img.name;
    assert ImageUrl(img) == "CardImages" + ['/'] + (f + ['/'] + n);
    SplitOnCons("CardImages", '/', f + ['/'] + n);
    SplitOnCons(f, '/', n);
  }

  /** The cards `cards_by_folder[key]` collects, in input order */
  function CardsWithKey(cards: seq<Record>, key: string): seq<Record> {
    Filter(cards, (c: Record) => FolderKey(c.url) == Some(key))
  }

  /** A group holds the cards with its key, each as often as in the input, in input order. */
  lemma CardsWithKeyFacts(cards: seq<Record>, key: string)
    ensures forall i :: 0 <= i < |CardsWithKey(cards, key)| ==> FolderKey(CardsWithKey(cards, key)[i].url) == Some(key)
    ensures forall c :: multiset(CardsWithKey(cards, key))[c]
                        == if FolderKey(c.url) == Some(key) then multiset(cards)[c] else 0
    ensures IsSubsequence(CardsWithKey(cards, key), cards)
  {
    FilterFacts(cards, (c: Record) => FolderKey(c.url) == Some(key));
  }

  /** The keys of `cards_by_folder` in insertion order: each folder key once, at its first card */
  function FolderKeys(cards: seq<Record>): seq<string>
    decreases |cards|
  {
    if cards == [] then []
    else
      var prev := FolderKeys(cards[..|cards| - 1]);
      var key := FolderKey(cards[|cards| - 1].url);
      if key.Some? && key.value !in prev then prev + [key.value] else prev
  }

  /** Some card has folder key `key`. */
  ghost predicate HasCardWithKey(cards: seq<Record>, key: string) {
    exists i :: 0 <= i < |cards| && FolderKey(cards[i].url) == Some(key)
  }

  /** The page keys have no duplicates and are exactly the keys of the cards. */
  lemma {:induction false} FolderKeysFacts(cards: seq<Record>)
    ensures forall i, j :: 0 <= i < j < |FolderKeys(cards)| ==> FolderKeys(cards)[i] != FolderKeys(cards)[j]
    ensures forall k :: k in FolderKeys(cards) <==> HasCardWithKey(cards, k)
    decreases |cards|
  {
    if cards != [] {
      var init := cards[..|cards| - 1];
      FolderKeysFacts(init);
      assert forall i :: 0 <= i < |init| ==> init[i] == cards[i];
      forall k ensures k in FolderKeys(cards) <==> HasCardWithKey(cards, k) {
        if HasCardWithKey(cards, k) && !HasCardWithKey(init, k) {
          var i :| 0 <= i < |cards| && FolderKey(cards[i].url) == Some(k);
          assert i == |cards| - 1;
        }
        if HasCardWithKey(init, k) {
          var i :| 0 <= i < |init| && FolderKey(init[i].url) == Some(k);
          assert FolderKey(cards[i].url) == Some(k);
        }
      }
    }
  }

  /** A folder has a page exactly when some card lands in it. */
  lemma PagesAreNonEmpty(cards: seq<Record>, key: string)
    ensures key in FolderKeys(cards) <==> CardsWithKey(cards, key) != []
  {
    var group := CardsWithKey(cards, key);
    CardsWithKeyFacts(cards, key);
    FolderKeysFacts(cards);
    if key in FolderKeys(cards) {
      var i :| 0 <= i < |cards| && FolderKey(cards[i].url) == Some(key);
      assert multiset(group)[cards[i]] == multiset(cards)[cards[i]] > 0;
    }
    if group != [] {
      assert multiset(group)[group[0]] > 0;
      var c := group[0];
      assert multiset(cards)[c] > 0;
      var i :| 0 <= i < |cards| && cards[i] == c;
    }
  }

  /** Every card whose URL has a folder segment lands in that folder's group and in no other; a card
      without one lands in none. */
  lemma EachCardInOneGroup(cards: seq<Record>, c: Record, key: string)
    requires c in cards
    ensures c in CardsWithKey(cards, key) <==> FolderKey(c.url) == Some(key)
  {
    var group := CardsWithKey(cards, key);
    CardsWithKeyFacts(cards, key);
    assert multiset(cards)[c] > 0;
    if c in group {
      var i :| 0 <= i < |group| && group[i] == c;
    }
    if FolderKey(c.url) == Some(key) {
      assert multiset(group)[c] > 0;
    }
  }

  lemma CardsWithKeyAppend(cards: seq<Record>, c: Record, key: string)
    ensures CardsWithKey(cards + [c], key)
            == CardsWithKey(cards, key) + if FolderKey(c.url) == Some(key) then [c] else []
  {
    var keep := (c: Record) => FolderKey(c.url) == Some(key);
    FilterConcat(cards, [c], keep);
    assert [c][1..] == [];
  }

  lemma FolderKeysAppend(cards: seq<Record>, c: Record)
    ensures FolderKeys(cards + [c])
            == var key := FolderKey(c.url);
               if key.Some? && key.value !in FolderKeys(cards) then FolderKeys(cards) + [key.value]
               else FolderKeys(cards)
  {
    assert (cards + [c])[..|cards|] == cards;
  }

  /** After the first `i` cards: the keys seen so far and, for each, its cards so far */
  ghost predicate GroupedUpTo(cards: seq<Record>, i: nat, keys: seq<string>, groups: map<string, seq<Record>>)
    requires i <= |cards|
  {
    && keys == FolderKeys(cards[..i])
    && (forall k :: k in groups <==> k in keys)
    && (forall k :: k in groups ==> groups[k] == CardsWithKey(cards[..i], k))
  }

  /** A card without a folder segment changes no group. */
  lemma GroupStepUnkeyed(cards: seq<Record>, i: nat, keys: seq<string>, groups: map<string, seq<Record>>)
    requires i < |cards| && GroupedUpTo(cards, i, keys, groups) && FolderKey(cards[i].url).None?
    ensures GroupedUpTo(cards, i + 1, keys, groups)
  {
    var card := cards[i];
    assert cards[..i + 1] == cards[..i] + [card];
    FolderKeysAppend(cards[..i], card);
    forall k | k in groups ensures groups[k] == CardsWithKey(cards[..i + 1], k) {
      CardsWithKeyAppend(cards[..i], card, k);
    }
  }

  /** A card with folder segment `key` is appended to that group, which is created on first use. */
  lemma GroupStepKeyed(cards: seq<Record>, i: nat, keys: seq<string>, groups: map<string, seq<Record>>,
                       key: string)
    requires i < |cards| && GroupedUpTo(cards, i, keys, groups) && FolderKey(cards[i].url) == Some(key)
    ensures GroupedUpTo(cards, i + 1, if key in groups then keys else keys + [key],
                        groups[key := (if key in groups then groups[key] else []) + [cards[i]]])
  {
    var card := cards[i];
    assert cards[..i + 1] == cards[..i] + [card];
    FolderKeysAppend(cards[..i], card);
    var groups' := groups[key := (if key in groups then groups[key] else []) + [card]];
    if key !in groups {
      PagesAreNonEmpty(cards[..i], key);
    }
    CardsWithKeyAppend(cards[..i], card, key);
    forall k | k in groups' ensures groups'[k] == CardsWithKey(cards[..i + 1], k) {
      CardsWithKeyAppend(cards[..i], card, k);
    }
  }

  /** The grouping loop of `generate_gallery_pages`: the folder keys in insertion order and the
      `defaultdict` of card lists */
  method GroupByFolder(cards: seq<Record>) returns (keys: seq<string>, groups: map<string, seq<Record>>)
    ensures keys == FolderKeys(cards)
    ensures forall k :: k in groups <==> k in keys
    ensures forall k :: k in groups ==> groups[k] == CardsWithKey(cards, k)
  {
    keys := [];
    groups := map[];
    for i := 0 to |cards|
      invariant GroupedUpTo(cards, i, keys, groups)
    {
      var card := cards[i];
      var parts := SplitOn(card.url, '/');
      if |parts| >= 3 {
        var name := parts[1];
        GroupStepKeyed(cards, i, keys, groups, name);
        var group := if name in groups then groups[name] else [];
        if name !in groups {
          keys := keys + [name];
        }
        groups := groups[name := group + [card]];
      } else {
        GroupStepUnkeyed(cards, i, keys, groups);
      }
    }
    TakeAll(cards);
  }

  // ---------------------------------------------------------------------------
  // generate_gallery_pages: escaping and truncation
  // ---------------------------------------------------------------------------

  /** The HTML entity for the three characters that are escaped, the character itself otherwise */
  function EscapeChar(c: char): string {
    if c == '&' then "&amp;" else if c == '<' then "&lt;" else if c == '>' then "&gt;" else [c]
  }

  /** Entity by entity escaping, as a reference for the chained replacements */
  function EscapeChars(s: string): string
    decreases |s|
  {
    if s == [] then [] else EscapeChar(s[0]) + EscapeChars(s[1..])
  }

  /** `.replace('&', '&amp;').replace('<', '&lt;').replace('>', '&gt;')` */
  function EscapeHtml(s: string): (t: string)
    ensures '<' !in t && '>' !in t
  {
    var amp := ReplaceAll(s, "&", "&amp;");
    var lt := ReplaceAll(amp, "<", "&lt;");
    var gt := ReplaceAll(lt, ">", "&gt;");
    ReplaceCharMembers(amp, '<', "&lt;", '<');
    ReplaceCharMembers(lt, '>', "&gt;", '<');
    ReplaceCharMembers(lt, '>', "&gt;", '>');
    gt
  }

  /** Replacing a character that is absent changes nothing. */
  lemma {:induction false} ReplaceCharAbsent(s: string, c: char, rep: string)
    requires c !in s
    ensures ReplaceAll(s, [c], rep) == s
    decreases |s|
  {
    if s != [] {
      assert s[..1] == [s[0]];
      ReplaceCharAbsent(s[1..], c, rep);
      assert [s[0]] + s[1..] == s;
    }
  }

  /** Replacing a one-character pattern in a one-character string */
  lemma ReplaceOne(c: char, p: char, rep: string)
    ensures ReplaceAll([c], [p], rep) == if c == p then rep else [c]
  {
    assert [c][..1] == [c] && [c][1..] == [];
    assert ReplaceAll([], [p], rep) == [];
  }

  /** Escaping one character by the chained replacements gives its entity. */
  lemma EscapeOneChar(c: char)
    ensures EscapeHtml([c]) == EscapeChar(c)
  {
    ReplaceOne(c, '&', "&amp;");
    ReplaceOne(c, '<', "&lt;");
    ReplaceOne(c, '>', "&gt;");
    ReplaceCharAbsent("&amp;", '<', "&lt;");
    ReplaceCharAbsent("&amp;", '>', "&gt;");
    ReplaceCharAbsent("&lt;", '>', "&gt;");
  }

  /** Escaping distributes over concatenation, because each replacement is of a single character. */
  lemma EscapeHtmlConcat(a: string, b: string)
    ensures EscapeHtml(a + b) == EscapeHtml(a) + EscapeHtml(b)
  {
    ReplaceCharConcat(a, b, '&', "&amp;");
    var a1, b1 := ReplaceAll(a, "&", "&amp;"), ReplaceAll(b, "&", "&amp;");
    ReplaceCharConcat(a1, b1, '<', "&lt;");
    var a2, b2 := ReplaceAll(a1, "<", "&lt;"), ReplaceAll(b1, "<", "&lt;");
    ReplaceCharConcat(a2, b2, '>', "&gt;");
  }

  /** Replacing '&' first means the chained replacements escape each character exactly once. */
  lemma {:induction false} EscapeHtmlIsEntityWise(s: string)
    ensures EscapeHtml(s) == EscapeChars(s)
    decreases |s|
  {
    if s == [] {
      assert ReplaceAll([], "&", "&amp;") == [];
    } else {
      assert s == [s[0]] + s[1..];
      EscapeHtmlConcat([s[0]], s[1..]);
      EscapeOneChar(s[0]);
      EscapeHtmlIsEntityWise(s[1..]);
    }
  }

  /** Reading the three entities back */
  function UnescapeHtml(t: string): string
    decreases |t|
  {
    if t == [] then []
    else if |t| >= 5 && t[..5] == "&amp;" then ['&'] + UnescapeHtml(t[5..])
    else if |t| >= 4 && t[..4] == "&lt;" then ['<'] + UnescapeHtml(t[4..])
    else if |t| >= 4 && t[..4] == "&gt;" then ['>'] + UnescapeHtml(t[4..])
    else [t[0]] + UnescapeHtml(t[1..])
  }

  /** Escaping loses nothing: the entities read back as the original text. */
  lemma {:induction false} EscapeRoundTrip(s: string)
    ensures UnescapeHtml(EscapeHtml(s)) == s
  {
    EscapeHtmlIsEntityWise(s);
    EscapeCharsRoundTrip(s);
  }

  lemma {:induction false} EscapeCharsRoundTrip(s: string)
    ensures UnescapeHtml(EscapeChars(s)) == s
    decreases |s|
  {
    if s != [] {
      var t := EscapeChars(s);
      var e := EscapeChar(s[0]);
      var rest := EscapeChars(s[1..]);
      assert t == e + rest;
      EscapeCharsRoundTrip(s[1..]);
      assert t[|e|..] == rest;
      assert t[..|e|] == e;
      if s[0] == '&' {
        assert t[..5] == "&amp;";
        assert UnescapeHtml(t) == ['&'] + UnescapeHtml(rest);
      } else if s[0] == '<' {
        assert t[1] == 'l';
        assert |t| >= 5 ==> t[..5][1] != "&amp;"[1];
        assert t[..4] == "&lt;";
        assert UnescapeHtml(t) == ['<'] + UnescapeHtml(rest);
      } else if s[0] == '>' {
        assert t[1] == 'g';
        assert |t| >= 5 ==> t[..5][1] != "&amp;"[1];
        assert t[..4][1] != "&lt;"[1];
        assert t[..4] == "&gt;";
        assert UnescapeHtml(t) == ['>'] + UnescapeHtml(rest);
      } else {
        assert t[0] == s[0] && e == [s[0]];
        assert |t| >= 5 ==> t[..5][0] != "&amp;"[0];
        assert |t| >= 4 ==> t[..4][0] != "&lt;"[0] && t[..4][0] != "&gt;"[0];
        assert UnescapeHtml(t) == [s[0]] + UnescapeHtml(rest);
      }
      assert s == [s[0]] + s[1..];
    }
  }

  /** `safe_text`: the escaped text with each newline replaced by a space */
  function SafeText(text: string): (t: string)
    ensures '\n' !in t && '<' !in t && '>' !in t
  {
    var escaped := EscapeHtml(text);
    ReplaceCharMembers(escaped, '\n', " ", '\n');
    ReplaceCharMembers(escaped, '\n', " ", '<');
    ReplaceCharMembers(escaped, '\n', " ", '>');
    ReplaceAll(escaped, "\n", " ")
  }

  /** How many characters of the text a page shows */
  const DisplayLength := 150

  /** `safe_text[:150]` followed by `'...'` when the text is longer */
  function Truncated(t: string): (shown: string)
    ensures |t| <= DisplayLength ==> shown == t
    ensures |t| > DisplayLength ==> |shown| == DisplayLength + 3 && shown[..DisplayLength] == t[..DisplayLength]
                                    && shown[DisplayLength..] == "..."
    ensures forall c :: c in shown ==> c in t || c == '.'
  {
    if |t| > DisplayLength then t[..DisplayLength] + "..." else t
  }

  /** The heading as written: `str.replace` takes the regular expression literally, so only the
      text `.png` is removed. */
  function HeadingAsWritten(safeFilename: string): string {
    ReplaceAll(ReplaceAll(safeFilename, "\\.[^/.]+$", ""), ".png", "")
  }

  /** The regular expression `\.[^/.]+$` matches at `k`: a '.' followed by at least one character,
      none of them '.' or '/', up to the end */
  predicate ExtensionAt(name: string, k: int) {
    && 0 <= k < |name| - 1 && name[k] == '.'
    && forall j :: k < j < |name| ==> name[j] != '.' && name[j] != '/'
  }

  /** The name without its extension, as the regular expression replacement removes it */
  function StripExtension(name: string): (r: string)
    ensures |r| <= |name| && r == name[..|r|]
    ensures r != name ==> ExtensionAt(name, |r|)
  {
    var k := LastIndexOfChar(name, '.');
    LastDotIsExtension(name, k);
    if 0 <= k < |name| - 1 && '/' !in name[k + 1..] then name[..k] else name
  }

  /** The name is kept whole exactly when the regular expression matches nowhere in it. */
  lemma StripExtensionKeepsUnmatched(name: string)
    ensures StripExtension(name) == name <==> forall k :: !ExtensionAt(name, k)
  {
    if StripExtension(name) == name {
      forall k ensures !ExtensionAt(name, k) {
        ExtensionIsLastDot(name, k);
      }
    }
  }

  /** The last '.', when it is not the final character and no '/' follows it, starts a match. */
  lemma LastDotIsExtension(name: string, k: int)
    requires k == LastIndexOfChar(name, '.')
    ensures 0 <= k < |name| - 1 && '/' !in name[k + 1..] ==> ExtensionAt(name, k)
  {
    if 0 <= k < |name| - 1 && '/' !in name[k + 1..] {
      forall j | k < j < |name| ensures name[j] != '/' {
        assert name[j] == name[k + 1..][j - k - 1];
      }
    }
  }

  /** A match of the regular expression can only start at the last '.', with no '/' after it. */
  lemma ExtensionIsLastDot(name: string, k: int)
    ensures ExtensionAt(name, k) ==> LastIndexOfChar(name, '.') == k && '/' !in name[k + 1..]
  {
    if ExtensionAt(name, k) {
      var last := LastIndexOfChar(name, '.');
      assert k <= last;
      var tail := name[k + 1..];
      forall j | 0 <= j < |tail| ensures tail[j] != '/' {
        assert tail[j] == name[k + 1 + j];
      }
    }
  }

  /** The heading of a card: its escaped file name without the extension */
  function Heading(safeFilename: string): string {
    StripExtension(safeFilename)
  }

  /** Stripping removes exactly one extension. */
  lemma StripExtensionOf(base: string, ext: string)
    requires |ext| > 0 && '.' !in ext && '/' !in ext
    ensures StripExtension(base + "." + ext) == base
  {
    var name := base + "." + ext;
    assert name[|base|] == '.';
    assert forall j :: |base| < j < |name| ==> name[j] == ext[j - |base| - 1];
    assert LastIndexOfChar(name, '.') == |base|;
    assert name[|base| + 1..] == ext;
    assert name[..|base|] == base;
  }

  /** A JPEG card keeps its extension in the heading as written. */
  lemma HeadingAsWrittenKeepsJpg()
    ensures HeadingAsWritten("a.jpg") == "a.jpg"
    ensures Heading("a.jpg") == "a"
  {
    assert ReplaceAll("a.jpg", "\\.[^/.]+$", "") == "a.jpg";
    assert ReplaceAll("g", ".png", "") == "g";
    assert ReplaceAll("pg", ".png", "") == "pg";
    assert ReplaceAll("jpg", ".png", "") == "jpg";
    assert ".jpg"[..4][1] != ".png"[1];
    assert ReplaceAll(".jpg", ".png", "") == ".jpg";
    assert "a.jpg"[..4][0] != ".png"[0];
    StripExtensionOf("a", "jpg");
  }

  /** What a gallery page shows for one card */
  datatype CardView = CardView(href: string, thumbSrc: string, alt: string, heading: string, color: string,
                               text: string)

  /** The card block of a gallery page */
  function ViewOf(card: Record): (v: CardView)
    ensures v.href == card.url && v.thumbSrc == card.thumbUrl && v.color == card.color
    ensures '<' !in v.alt && '>' !in v.alt && '<' !in v.heading && '>' !in v.heading
    ensures '<' !in v.text && '>' !in v.text && '\n' !in v.text
    ensures UnescapeHtml(v.alt) == card.filename
    ensures v.heading == HeadingAsWritten(v.alt)
  {
    var safeFilename := EscapeHtml(card.filename);
    var safeText := SafeText(card.text);
    var heading := HeadingAsWritten(safeFilename);
    HeadingKeepsAbsent(safeFilename, '<');
    HeadingKeepsAbsent(safeFilename, '>');
    EscapeRoundTrip(card.filename);
    CardView(card.url, card.thumbUrl, safeFilename, heading, card.color, Truncated(safeText))
  }

  /** The two replacements of the heading bring in no character the escaped name does not have. */
  lemma HeadingKeepsAbsent(safeFilename: string, ch: char)
    requires ch !in safeFilename && ch !in "\\.[^/.]+$" && ch !in ".png"
    ensures ch !in HeadingAsWritten(safeFilename)
  {
    ReplaceAllKeepsAbsent(safeFilename, "\\.[^/.]+$", "", ch);
    ReplaceAllKeepsAbsent(ReplaceAll(safeFilename, "\\.[^/.]+$", ""), ".png", "", ch);
  }
}
