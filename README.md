# Card database and gallery generators, modelled in Dafny

The repository is a static card-game site. Three small Python scripts turn its raw data into
pages, and this project models their sequential logic and proves properties of it:

- `scripts/Database_Creator/Database_Creator.py` reads the card spreadsheets, given here as rows
  of cells. It walks them with a small state machine: the current card type, the current column
  labels, and a flag that makes the next row the label row. It turns every data row into a card
  dictionary (`cardMaker`). Module `DatabaseCreator` (`database_creator.dfy`) models this.
- `scripts/generate_gallery.py` builds `docs/`. It does five things:
  - For every image under `CardImages/<folder>/` it regenerates a thumbnail and copies the image
    when the source is newer.
  - It records the OCR text, normalised to single spaces, and the corner colour as `#rrggbb`.
  - It groups the records by the folder segment of their URL.
  - It writes one page per group.
  - On those pages it escapes the file name and text and cuts the text at 150 characters.

  Module `SiteGallery` (`site_gallery.dfy`) models this.
- `generate_gallery.py` (at the root) builds an incremental thumbnail gallery:
  - A thumbnail is remade only when it is missing or older than its image.
  - A folder is listed only when it holds at least one image.
  - Image names are filtered by extension and sorted.
  - The index links to one page per listed folder.

  Module `ThumbnailGallery` (`thumbnail_gallery.dfy`) models this.

Supporting modules:

- `Wrappers`: `Option` and `Result`.
- `PyStr`: the Python string built-ins the scripts rely on, with what they promise:
  - `str.split()` and `' '.join`;
  - `str.split('/')`;
  - literal `str.replace`;
  - `str.find`, with its `-1`;
  - clamped slicing;
  - ASCII `lower()`;
  - `PurePath.suffix`.
- `Seqs`: order-preserving filtering, as `filter` and list comprehensions do.
- `FileSystem`: the file system as a class `FileStore` whose field `mtimes` maps each existing
  path to its modification time.
  - Saving a file sets the file's time to the current clock.
  - `shutil.copy2` copies the source's time.

Where a script loops and updates state, the model has a `method` with a loop. Each such method
is proved equal to a specification function, a fold over the input that is defined from its
end. The properties are then lemmas about those folds. The file system, the clock, the OCR
engine and the image decoder are parameters:

- `now` is the clock.
- `analyses` is the OCR text and mean corner colour of each image.
- `decodable` is the set of images PIL can open.

## Model

| member | source | states |
|---|---|---|
| `DatabaseCreator.AssignFacts` | scripts/Database_Creator/Database_Creator.py:34-35 | the `enumerate(labels[1:])` loop adds exactly the labels as keys; a label maps to the cell at its position unless a later label repeats it (the later one overwrites); other keys keep their value |
| `DatabaseCreator.CardOfFacts` | scripts/Database_Creator/Database_Creator.py:16-38 | for `1 <= |labels| <= |line|`: the keys are `labels[0]`, `"Type"`, `"Faction"` and the other labels; `labels[i]` maps to `line[i]` unless repeated later; `"Type"`/`"Faction"` hold the card type/faction and `labels[0]` holds `line[0]` unless a later label overwrites them |
| `DatabaseCreator.CardMaker` | scripts/Database_Creator/Database_Creator.py:26-38 | the dictionary-filling loop builds exactly `CardOf` |
| `DatabaseCreator.DropBlankRows` | scripts/Database_Creator/Database_Creator.py:55 | no kept row consists only of empty cells, every other row is kept as often as it occurs, and the kept rows are a subsequence (order unchanged) |
| `DatabaseCreator.NonEmptyCells` | scripts/Database_Creator/Database_Creator.py:69 | the new labels contain no empty string and are exactly the non-empty cells in order, with multiplicity |
| `DatabaseCreator.HeaderCardType` | scripts/Database_Creator/Database_Creator.py:74-91 | a first cell is a section header iff it is `Leaders`, `Combatants`, `Operations` or `Assets`, and the card type it selects is that word without its final `s` |
| `DatabaseCreator.HandleRow` | scripts/Database_Creator/Database_Creator.py:65-94 | the body of the row loop, with its conditions in the source's order, takes the branch and gives the state and cards of one step of the specification fold |
| `DatabaseCreator.ProcessSheet` | scripts/Database_Creator/Database_Creator.py:55-94 | the row loop of one sheet (blank-row filter, faction, state machine) returns exactly the cards of the specification fold, or the `IndexError` it stops at |
| `DatabaseCreator.BuildDatabase` | scripts/Database_Creator/Database_Creator.py:45-94 | the loop over sheets concatenates their cards in order and stops at the first sheet that raises |
| `DatabaseCreator.RunStopsAtError` | scripts/Database_Creator/Database_Creator.py:65-94 | once a row raises, no later row changes the outcome |
| `DatabaseCreator.DatabaseStopsAtError` | scripts/Database_Creator/Database_Creator.py:48-94 | once a sheet raises, no later sheet changes the outcome |
| `DatabaseCreator.SkippedRowChangesNothing` | scripts/Database_Creator/Database_Creator.py:66-67 | a row whose second cell is empty changes neither the state nor the output |
| `DatabaseCreator.HeaderRowSetsCardType` | scripts/Database_Creator/Database_Creator.py:76-91 | a header row, outside a label update, sets the card type, arms `label_update`, keeps the labels and emits no card |
| `DatabaseCreator.LabelRowReplacesLabels` | scripts/Database_Creator/Database_Creator.py:68-71 | the first non-skipped row after a header replaces the labels by its non-empty cells, clears the flag, keeps the card type and emits no card |
| `DatabaseCreator.DataRowAppendsOneCard` | scripts/Database_Creator/Database_Creator.py:92-94 | any other row appends exactly one card built from the current labels, card type and faction, and leaves the state alone; with no labels, or fewer cells than labels, it raises `IndexError` |
| `DatabaseCreator.OutputGrowsInRowOrder` | scripts/Database_Creator/Database_Creator.py:65-94 | the cards after any prefix of the rows are a prefix of the final cards |
| `DatabaseCreator.OneCardPerDataRow` | scripts/Database_Creator/Database_Creator.py:65-94 | the number of cards equals the number of data rows |
| `DatabaseCreator.RunKeepsStateReachable` | scripts/Database_Creator/Database_Creator.py:61-94 | the labels never contain an empty string, the card type is empty or one of the four a header sets, and every card has `Type` and `Faction` keys |
| `DatabaseCreator.FactionFromDefaultName` | scripts/Database_Creator/Database_Creator.py:58 | when `Mark 4 Cards -` first occurs at index `k`, the faction is `path[k+15 .. |path|-4]` |
| `DatabaseCreator.FactionWithoutMarker` | scripts/Database_Creator/Database_Creator.py:58 | without the marker, `find` returns -1 and the faction is the clamped slice `path[14:-4]` |
| `SiteGallery.NormalizeOcrText` | scripts/generate_gallery.py:18 | the text is single-spaced (no leading, trailing or doubled space, no other whitespace) and has the same words as the raw OCR output |
| `SiteGallery.NormalizeIdempotent` | scripts/generate_gallery.py:18 | normalising twice equals normalising once |
| `SiteGallery.NormalizedHasNoLineBreaks` | scripts/generate_gallery.py:18 | the normalised text has no newline, tab or carriage return |
| `SiteGallery.CropBox` | scripts/generate_gallery.py:24 | the crop box ends at the right edge and the top, and is `crop_size[0]` wide and `crop_size[1]` high |
| `SiteGallery.DefaultCropBox` | scripts/generate_gallery.py:21-24 | with the default crop size the box is `(width-30, 0, width, 30)` |
| `SiteGallery.Hex2` | scripts/generate_gallery.py:27 | the `02x` format of a channel in 0..255 is two lower-case hex digits that decode back to it |
| `SiteGallery.HexColor` | scripts/generate_gallery.py:27 | the colour has length 7, starts with `#`, and its three lower-case hex fields decode to the three channels |
| `SiteGallery.HexColorInjective` | scripts/generate_gallery.py:27 | different channel triples give different colour strings |
| `SiteGallery.CopiedIfNewerFacts` | scripts/generate_gallery.py:36-39 | the copy happens iff the destination is missing or strictly older; a copy gives the destination the source's time and touches no other path, and once copied no second copy is due |
| `SiteGallery.CopyIfNewerIdempotent` | scripts/generate_gallery.py:38 | copying if newer twice equals copying once |
| `SiteGallery.CopyFileIfNewer` | scripts/generate_gallery.py:36-39 | the store after the call is the copy-if-newer update of the store before |
| `SiteGallery.RecordOf` | scripts/generate_gallery.py:69-75 | a record keeps the file name; `url` and `thumb_url` are the published image and thumbnail paths without `docs/`; its text is normalised OCR text with the same words; its colour decodes to the mean channels |
| `SiteGallery.GeneratePublishedCards` | scripts/generate_gallery.py:41-75 | the nested folder and file loops produce exactly the store, records and error of the specification fold over the folders' images |
| `SiteGallery.PublishFolder` | scripts/generate_gallery.py:50-75 | the loop over one folder's files continues the specification fold over that folder's images, or stops at the image that raised |
| `SiteGallery.PublishImage` | scripts/generate_gallery.py:55-75 | one image writes its thumbnail at the current time, copies the full image if newer and appends its record, or raises before writing anything when it cannot be opened |
| `SiteGallery.FolderImagesExactly` | scripts/generate_gallery.py:50-52 | an image is processed iff it is a file whose lower-cased suffix is `.jpg`, `.jpeg` or `.png` |
| `SiteGallery.SourceNotInDocs` | scripts/generate_gallery.py:47-59 | sources lie outside `docs/`, and thumbnails and published copies lie inside it |
| `SiteGallery.PublishWritesOnlyDocs` | scripts/generate_gallery.py:47-60 | no path is removed, and paths outside `docs/` neither appear nor change |
| `SiteGallery.PublishRecords` | scripts/generate_gallery.py:43-75 | without an error there is one record per image, appended in iteration order after the earlier records, each built from its own image |
| `SiteGallery.PublishWritesEveryImage` | scripts/generate_gallery.py:55-60 | without an error every image has a thumbnail and a published copy |
| `SiteGallery.PublishFailsAtFirstUnreadable` | scripts/generate_gallery.py:56-66 | the run fails iff some image cannot be opened, and it reports the first such image |
| `SiteGallery.FolderKey` | scripts/generate_gallery.py:225-227 | a group key, when there is one, contains no `/` |
| `SiteGallery.ImageUrlSegments` | scripts/generate_gallery.py:71 | for `/`-free folder and file names, the record URL splits into `CardImages`, the folder and the name |
| `SiteGallery.ThumbUrlSegments` | scripts/generate_gallery.py:72 | for `/`-free names, the thumbnail URL splits into `CardImages`, the folder, `thumbnails` and the name |
| `SiteGallery.FolderKeyOfRecord` | scripts/generate_gallery.py:225-227 | a record of a `/`-free folder is grouped under that folder's name |
| `SiteGallery.CardsWithKeyFacts` | scripts/generate_gallery.py:223-228 | a group holds exactly the cards with its key, each as often as in the input, in input order |
| `SiteGallery.FolderKeysFacts` | scripts/generate_gallery.py:223-230 | the page keys have no duplicates and are exactly the keys of the cards |
| `SiteGallery.PagesAreNonEmpty` | scripts/generate_gallery.py:223-230 | a key has a page iff its group is non-empty |
| `SiteGallery.EachCardInOneGroup` | scripts/generate_gallery.py:224-228 | a card lands in the group of a key iff its URL has at least three parts with that key second |
| `SiteGallery.GroupByFolder` | scripts/generate_gallery.py:223-228 | the `defaultdict` loop yields keys in first-seen order, and for each key exactly that key's group |
| `SiteGallery.EscapeHtml` | scripts/generate_gallery.py:293 | the escaped file name contains no `<` or `>` |
| `SiteGallery.EscapeHtmlIsEntityWise` | scripts/generate_gallery.py:293 | replacing `&` first, then `<`, then `>` escapes each character on its own |
| `SiteGallery.EscapeRoundTrip` | scripts/generate_gallery.py:293 | unescaping the escaped text gives the original back |
| `SiteGallery.SafeText` | scripts/generate_gallery.py:294 | the safe text contains no newline, `<` or `>` |
| `SiteGallery.Truncated` | scripts/generate_gallery.py:302 | the text is shown whole when it has at most 150 characters; otherwise its first 150 characters are shown followed by `...` |
| `SiteGallery.HeadingAsWrittenKeepsJpg` | scripts/generate_gallery.py:301 | as written, the heading of `a.jpg` is `a.jpg`; with the extension stripped it is `a` |
| `SiteGallery.StripExtension` | scripts/generate_gallery.py:301 | the heading is a prefix of the name, and differs from it only by removing a final `.ext` without `/` or `.` |
| `SiteGallery.StripExtensionKeepsUnmatched` | scripts/generate_gallery.py:301 | a name is left unchanged iff it has no such extension |
| `SiteGallery.LastDotIsExtension` | scripts/generate_gallery.py:301 | a last dot that is neither final nor followed by `/` starts the extension |
| `SiteGallery.ExtensionIsLastDot` | scripts/generate_gallery.py:301 | an extension always starts at the last dot |
| `SiteGallery.StripExtensionOf` | scripts/generate_gallery.py:301 | `base.ext` gives the heading `base` |
| `SiteGallery.ViewOf` | scripts/generate_gallery.py:293-302 | a card block links to the record's URLs and colour; its alt text, heading and text contain no `<` or `>`; the text has no newline; the alt text unescapes to the file name; and the heading is the alt text after the two literal `replace` calls of line 301 |
| `ThumbnailGallery.SortBySortsAndPermutes` | generate_gallery.py:102-107 | `sorted` returns a permutation in ascending code-point order |
| `ThumbnailGallery.SelectImagesSpec` | generate_gallery.py:104-107 | the image list is sorted and holds exactly the names whose lower-cased suffix is allowed and that do not start with `thumbnails`, each as often as listed |
| `ThumbnailGallery.SelectImagesNonEmpty` | generate_gallery.py:104-108 | the image list is non-empty iff some name qualifies |
| `ThumbnailGallery.PageLinks` | generate_gallery.py:78-80 | the k-th block links `CardImages/<folder>/<img>` and shows `CardImages/<folder>/thumbnails/<img>` |
| `ThumbnailGallery.IndexLinksPages` | generate_gallery.py:48-49 | in a completed run, the index has one link per generated page, in order, and the k-th is the file `<folder>.html` that page's folder is written to (line 93) |
| `ThumbnailGallery.SourceIsNotThumb` | generate_gallery.py:106-113 | no selected image path is the thumbnail of any image |
| `ThumbnailGallery.ThumbOfInjective` | generate_gallery.py:113 | different images of a folder have different thumbnail paths |
| `ThumbnailGallery.MakeThumbnailStep` | generate_gallery.py:12-27 | it skips iff the thumbnail exists and is at least as new as the source; it regenerates iff the thumbnail is stale and the image opens; a thumbnail without a source raises; only a regeneration writes, and it writes the thumbnail at the current time |
| `ThumbnailGallery.MakeThumbnail` | generate_gallery.py:12-27 | the store and outcome after the call are those of the staleness step |
| `ThumbnailGallery.MadeIsFresh` | generate_gallery.py:16-19 | a thumbnail just made is skipped on the next call |
| `ThumbnailGallery.MakeThumbnails` | generate_gallery.py:111-114 | the per-image loop yields exactly the store of the specification pass, stopping at the first `stat` that raises |
| `ThumbnailGallery.PassCrashesOnlyOnMissingSource` | generate_gallery.py:111-114 | when every source exists, the pass never raises and the sources stay |
| `ThumbnailGallery.PassWritesOnlyThumbnails` | generate_gallery.py:111-114 | no path is removed, and a changed or new path is a thumbnail of the folder written at the current time |
| `ThumbnailGallery.PassEffect` | generate_gallery.py:111-114 | sources are untouched; each thumbnail is rewritten iff it was stale and its image opened, and otherwise keeps its time; a failed image does not stop the later ones |
| `ThumbnailGallery.PassUntouched` | generate_gallery.py:111-114 | a path that is no thumbnail of the folder is unchanged |
| `ThumbnailGallery.PassIdleWhenFresh` | generate_gallery.py:16-19 | over up-to-date thumbnails the pass writes nothing |
| `ThumbnailGallery.PassMakesFresh` | generate_gallery.py:16-24 | when all images exist, open and are not newer than the clock, one pass leaves nothing stale, so a second pass writes nothing |
| `ThumbnailGallery.GalleryMain` | generate_gallery.py:97-99 | a missing base directory ends the run with nothing written |
| `ThumbnailGallery.GenerateGallery` | generate_gallery.py:96-117 | the loop over sorted entries yields exactly the outcome and the store of the specification function; a raising `stat` ends the run with the pages already written |
| `ThumbnailGallery.GalleryLists` | generate_gallery.py:101-115 | without a raise, the pages are those of the listed folders in entry order, and `subfolders` names them |
| `ThumbnailGallery.GalleryAbortKeepsPages` | generate_gallery.py:102-115 | when a `stat` raises, the pages already written are exactly those of the listed folders before the folder whose thumbnail loop raised |
| `ThumbnailGallery.MainAbortedPages` | generate_gallery.py:101-115 | an aborted run has written the pages of the listed folders, in name order, before the one that raised |
| `ThumbnailGallery.ListedPagesExactly` | generate_gallery.py:102-109 | a folder gets a page iff it is a directory whose image list is non-empty |
| `ThumbnailGallery.ListedPagesHaveImages` | generate_gallery.py:104-108 | every page has a non-empty, sorted image list |
| `ThumbnailGallery.ListedFoldersSorted` | generate_gallery.py:102-109 | sorted entries give sorted `subfolders` |
| `ThumbnailGallery.MainListing` | generate_gallery.py:101-117 | in a completed run, `subfolders` is sorted, matches the pages one for one, and the pages are exactly those of the directories with images |

## Left out

- Reading files, parsing CSV and writing JSON (`csv.reader`, `open`, `json.dumps`) are left out. A
  sheet is its path plus the rows of cells. The loops return the cards instead of dumping them.
- `glob`, `iterdir` and `is_dir` become input sequences of entries. The root script's listing has
  no file/directory distinction inside a folder. The code has none there either: a directory
  whose name ends in `.png` is selected and then fails to open.
- The image library is left out: `Image.open`, `convert`, `thumbnail` resizing and `save`.
  In `generate_gallery.py` whether an image opens is the input set `decodable`. In
  `scripts/generate_gallery.py` an image counts as readable when its source file exists and it
  has an entry in `analyses`. A saved file only gets the current time.
- `pytesseract` and the numpy mean are inputs (`analyses`). The raw OCR text is arbitrary, and
  the mean channels are integers already truncated by `int()`.
- `mkdir` is left out. An existing directory is implied by the paths in the store.
- All HTML, CSS and JavaScript templates are left out, including `generate_index_page` and the
  search script. So are the `write_text` calls. The model keeps what the pages are built from:
  - the card views of `SiteGallery.ViewOf`;
  - the links of `PageLinks` and `IndexLinks`;
  - the list of pages and `subfolders`.
- `print` messages are left out.
- The clock is one value `now` for a whole run. Modification times are integers; the code only
  compares them.
- `lower()` is ASCII-only in the model. That is exact for membership in the extension sets,
  which are ASCII.
- Python orders paths by their string parts. For the entries of one directory that is the
  code-point order of the names, which is what `StrLe` states.
- `Database/Database_Creator/Database_Creator.py` is only a docstring.
- The following are not modelled, because the code does none of them:
  - orientation correction;
  - configuration fingerprints;
  - atomic writes;
  - any ordering of `cards.json` beyond iteration order.
- In `scripts/generate_gallery.py` the model follows the code, which:
  - regenerates thumbnails on every run (`create_thumbnail` has no staleness test);
  - lets an image that cannot be opened raise out of the whole run (no `try`); the model reports
    the first such image and stops, and no record is written for it;
  - gives a record no folder field;
  - keeps the records in folder and file iteration order.
- `SiteGallery.PublishStep`: an image without an entry in `analyses` fails before anything is
  written for it. In the code the thumbnail (line 56) and the copy (line 60) come before the OCR
  and colour reads (lines 63-66), so an image that opens but whose OCR or colour read raises
  leaves its thumbnail and copy behind. The model does not separate that case from an image that
  does not open.
- `DatabaseCreator.CardOf`: a card is a `map`, which has no key order. `json.dumps` writes the
  keys in insertion order: `labels[0]`, `Type`, `Faction`, then the other labels. A repeated
  label keeps its first position. That order is not modelled.
- In `Database_Creator.py`, `line[1]` on a one-cell row is an `IndexError`. So is `cardMaker`
  with no labels or with a short row. The model treats each as an error that ends the whole run
  before anything is written.
- `ThumbnailGallery.PassMakesFresh`: requires the image names of a folder to be distinct and not
  to start with `thumbnails`. Both hold for a real directory listing after the filter.
- `ThumbnailGallery.PassEffect`: requires the same distinct, non-`thumbnails` image names as
  `PassMakesFresh`, for the same reason.

## Findings

| source | as written | input that shows it | evidently intended | confidence | as-written member | corrected member |
|---|---|---|---|---|---|---|
| scripts/generate_gallery.py:301 | the heading uses `str.replace(r'\.[^/.]+$', '')`, a literal replacement of that nine-character text rather than a regular expression, so the only text ever removed from the heading is `.png`, by the second `replace`, anywhere in the name (`SiteGallery.ViewOf` shows this heading) | file name `a.jpg` gives the heading `a.jpg` | the heading drops the final extension, as the index page's script does with the same pattern as a regex (line 202) | not executed | `SiteGallery.HeadingAsWrittenKeepsJpg` | `SiteGallery.StripExtension` |
