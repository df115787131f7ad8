# delete-raw-files, modelled in Dafny

`delete-raw-files.mjs` looks through a directory of camera files. It groups
each raw file (`DSC001.ARW`) with its Darktable sidecar (`DSC001.ARW.xmp`),
its exported JPEG (`DSC001.edit.jpg`) and its in-camera preview
(`DSC001.JPG`). Then it decides, photo by photo, whether the raw file is
worth keeping. A raw file that no rule keeps goes to the trash with its
sidecar. The preview goes too when the photo was rejected (a negative rating).

This project models the decision engine around the script's I/O:

- `text.dfy` (module `Text`) holds the JavaScript values and string
  operations the script relies on:
  - numbers as an integer or NaN, and `>=` / `< 0` on them;
  - ASCII `toLowerCase`;
  - `split('.')[0]`;
  - Node's `path.extname` for names without '/';
  - the export pattern `/^.+\..+\.jpg$/`;
  - `Number()` of a `[-0-9]+` capture and `${n}`.
- `sidecar.dfy` (module `Sidecar`) holds the two scrapers of the sidecar
  text, the rating and the number of history entries.
- `grouping.dfy` (module `Grouping`) holds the two grouping loops.
  - They are methods whose loops are proved against two fold functions,
    `Collected` and `Attached`.
  - Lemmas over those functions state what the grouping promises.
- `retention.dfy` (module `Retention`) holds the rest:
  - the per-photo chain of rules as the function `Decide`;
  - `getRating`;
  - the loop over all records (`Sweep`);
  - the whole script (`Run`), with what gets trashed and what never does;
  - the deletion loop in order, as written and as intended.

The directory listing and the sidecar reader are inputs: `files: seq<string>`
and `read: string -> string`. The command-line options are the resolved
`Config`:
- `minRating` is NaN when `--rating` is absent;
- `maxEdits` is `None` for Infinity, i.e. `--max-edits` absent, 0 or not a number (`Number(x) || Infinity`);
- `ignoreJpg` is the `--ignore-jpg` flag.

The model follows the code where a looser reading is possible:
- A capture such as "1-2" or "-" reads as NaN, as `Number()` gives. No rule then keeps the photo by rating, and the photo is not rejected.
- A later raw file with the same prefix replaces the whole record.
- `path.extname` has Node's exact rules, including "" for ".arw".

## Model

| member | source | states |
|---|---|---|
| Grouping.Group | delete-raw-files.mjs:46-83 | The two passes produce exactly one record per prefix that has a raw file in the listing. Every record is well formed: its files come from the listing, each in the slot the classification chain gives it. Its rating and edit count are 0 unless a sidecar was attached. |
| Grouping.CollectRaw | delete-raw-files.mjs:47-62 | The first loop's map equals the first-pass fold over the listing. |
| Grouping.AttachOthers | delete-raw-files.mjs:64-83 | The second loop's map equals the second-pass fold. It skips raw files and files whose prefix has no record. |
| Grouping.CollectedHasRaw | delete-raw-files.mjs:47-62 | Every raw file of the listing leaves a record under its prefix. |
| Grouping.CollectedFromRaw | delete-raw-files.mjs:47-62 | Every record of the first pass comes from some raw file with that prefix. |
| Grouping.CollectedKeys | delete-raw-files.mjs:47-62 | The first pass keys records exactly by the prefixes of raw files (if and only if). |
| Grouping.CollectedLastRaw | delete-raw-files.mjs:47-62 | When raw files share a prefix, the record is a fresh one for the last of them: rating 0, edits 0, no other files. |
| Grouping.AttachedKeeps | delete-raw-files.mjs:64-70 | The second pass creates no record and removes none. It never changes a record's prefix or raw filename. |
| Grouping.ClassifyPreview | delete-raw-files.mjs:72-82 | A file lands in the preview slot if and only if its lower-cased name is the lower-cased prefix followed by ".jpg". |
| Grouping.PreviewNameShape | delete-raw-files.mjs:72-80 | "<prefix>.jpg" matches neither the export pattern nor the ".xmp" extension. |
| Grouping.AttachFills | delete-raw-files.mjs:72-82 | Attaching a classified file puts it in its own slot. A sidecar also sets the rating and edit count scraped from its text. |
| Grouping.AttachLeaves | delete-raw-files.mjs:72-82 | Attaching a file leaves every other slot alone. Rating and edits change only for a sidecar. |
| Grouping.AttachedStep | delete-raw-files.mjs:64-82 | One step of the second pass changes a record only by attaching a file with that record's prefix. |
| Grouping.AttachedSlotLast | delete-raw-files.mjs:72-82 | Each slot holds the last listed file classified into it for that prefix; later files overwrite earlier ones. For the sidecar slot, rating and edits are scraped from that last sidecar. |
| Grouping.AttachedSlotUntouched | delete-raw-files.mjs:72-82 | A slot that no file goes to keeps the value it had before the second pass, and so do rating and edits when no sidecar exists. |
| Grouping.GroupedKeys | delete-raw-files.mjs:47-83 | After both passes, a record exists for p if and only if a raw file with prefix p is listed. |
| Grouping.GroupedRawIsLast | delete-raw-files.mjs:47-62 | After both passes, the record's raw file is the last raw file with that prefix. |
| Grouping.GroupedSlotEmpty | delete-raw-files.mjs:52-60 | A slot no file goes to stays empty (null). Without a sidecar the rating and edit count stay 0. |
| Grouping.CollectedWellFormed | delete-raw-files.mjs:47-62 | After the first pass every record is well formed and has all three slots empty. |
| Grouping.AttachWellFormed | delete-raw-files.mjs:72-82 | Attaching a listed non-raw file with the record's prefix keeps the record well formed. |
| Grouping.AttachedWellFormed | delete-raw-files.mjs:64-83 | The second pass keeps every record well formed. |
| Grouping.GroupedWellFormed | delete-raw-files.mjs:46-83 | Every record after both passes is well formed. |
| Grouping.ExportIsNotPreview | delete-raw-files.mjs:72-82 | A record's export and its preview are never the same file. |
| Text.LowerKeepsDots | delete-raw-files.mjs:48 | Lower-casing keeps the length and neither creates nor removes a dot. |
| Text.ExtNameShape | delete-raw-files.mjs:50 | An extension is empty, or it is a dot followed by dot-free text that ends the name. |
| Text.ExtNameOfDotJpg | delete-raw-files.mjs:74 | The extension of "<p>.jpg" is ".jpg" for a non-empty dot-free p. |
| Text.ExportNameOfParts | delete-raw-files.mjs:72 | Every name `a.b.jpg` with non-empty a and b free of line terminators matches the export pattern. |
| Text.ExportNameParts | delete-raw-files.mjs:72 | Every name matching the export pattern splits as `a.b.jpg` with such a and b. |
| Text.PreviewIsNotExport | delete-raw-files.mjs:72 | A dot-free name followed by ".jpg" never matches the export pattern. |
| Text.DecimalOfNatToString | delete-raw-files.mjs:129 | Reading the decimal text of a natural number gives the number back. |
| Text.NumberRoundTrip | delete-raw-files.mjs:129 | `${n}` of any integer, negative ones included, is a `[-0-9]+` capture, and `Number()` reads n back from it. |
| Sidecar.CaptureAtIsMatch | delete-raw-files.mjs:125 | The greedy scan at a position yields capture c if and only if `xmp:Rating="c"` with c in `[-0-9]+` occurs there. |
| Sidecar.CaptureAtSound | delete-raw-files.mjs:125 | What the scan yields is a match of the pattern at that position. |
| Sidecar.CaptureAtComplete | delete-raw-files.mjs:125 | Every match of the pattern at a position is what the scan yields there. |
| Sidecar.FirstCaptureFinds | delete-raw-files.mjs:125 | The search from a position returns the leftmost match at or after it. |
| Sidecar.FirstCaptureNone | delete-raw-files.mjs:125-127 | The search finds nothing when no match starts at or after the position. |
| Sidecar.RatingIsFirstMatch | delete-raw-files.mjs:123-130 | The rating is `Number()` of the leftmost match's capture, whatever follows it. |
| Sidecar.NoRatingIsZero | delete-raw-files.mjs:127 | Without any match the rating is 0. |
| Sidecar.NoMatchAcross | delete-raw-files.mjs:125 | No match can start before an attribute and run into it. |
| Sidecar.RatingReadBack | delete-raw-files.mjs:123-130 | The first well-formed `xmp:Rating="n"` in a text, n negative or not, is read back as n. |
| Sidecar.NoOverlap | delete-raw-files.mjs:134 | Two occurrences of `<rdf:li` cannot overlap. |
| Sidecar.CountIsOccurrences | delete-raw-files.mjs:134-138 | Counting the global matches from a position gives the number of occurrences of `<rdf:li` from there. |
| Sidecar.ModificationCountIsMarkerCount | delete-raw-files.mjs:132-139 | The edit count is the number of occurrences of `<rdf:li` in the text, so 0 when there are none. |
| Retention.RatingLabelShowsRating | delete-raw-files.mjs:146 | A non-negative rating is labelled "RATING n/5", and n reads back from the label. |
| Retention.RejectLabel | delete-raw-files.mjs:142-144 | The label is "MARKED AS REJECT" if and only if the rating is negative. |
| Retention.Decide | delete-raw-files.mjs:85-112 | The rules are applied in order and the first one that holds decides. A missing preview keeps the photo, unless previews are ignored, whatever the rating, export and edits. It is reported if and only if that rule fires. Each later reason requires every earlier rule to have failed. The reason carries the record's own rating label, export or edit count. A deletion happens if and only if no rule keeps the photo. It trashes the raw file and the sidecar when there is one, and nothing else but the preview. The preview goes exactly when the rating is negative and a preview exists. The deletion's label is the rating label. |
| Retention.LooserPolicyKeeps | delete-raw-files.mjs:86-104 | A policy with a minimum rating and an edit limit no stricter keeps every photo the stricter one keeps, provided it ignores previews only if the stricter one does. |
| Retention.Sweep | delete-raw-files.mjs:85-116 | Each record is decided on its own. The trash is exactly the union of the files named by the deletions. |
| Retention.Run | delete-raw-files.mjs:38-116 | Over the whole script, the trash is exactly the union of what the deletions name. Every deleted photo's raw file and sidecar are trashed. Only listed files are trashed, and an export never is. A preview is trashed only with its deleted, rejected photo. A raw file without a preview survives unless previews are ignored. |
| Retention.OwnerOf | delete-raw-files.mjs:85-112 | Every trashed file is named by the deletion of some record. |
| Retention.TrashedIsListed | delete-raw-files.mjs:106-112 | Every trashed file is in the listing. |
| Retention.ExportsSurvive | delete-raw-files.mjs:96-112 | No record's export is ever trashed. |
| Retention.PreviewsSurviveUnlessRejected | delete-raw-files.mjs:109-111 | A trashed preview belongs to a deleted photo with a negative rating. |
| Retention.LoneRawSurvives | delete-raw-files.mjs:86-89 | A raw file without a preview is not trashed unless previews are ignored. |
| Retention.TrashInOrderIsDoomed | delete-raw-files.mjs:85-112 | Trashing the records one after another, when every trash call succeeds, names exactly the files the deletions name. |
| Retention.TrashAsWritten | delete-raw-files.mjs:106-108 | The loop as written stops after the raw file of the first deleted photo without a sidecar. What it trashes is always a prefix of what the in-order loop trashes. |
| Retention.TrashAsWrittenWithSidecars | delete-raw-files.mjs:106-112 | When every deleted photo has a sidecar, the loop as written trashes exactly what the in-order loop trashes. |
| Retention.AbortAfterMissingSidecar | delete-raw-files.mjs:106-108 | Two deleted photos without sidecars: the loop as written trashes only the first raw file, while the in-order loop trashes both. |
| Retention.TrashOrigin | delete-raw-files.mjs:106-112 | A file that a record's deletion trashes is listed and has the record's prefix. It is the record's raw file, its sidecar, or its preview when the rating is negative. |

## Left out

- Listing the directory (`fs.readdir`) and reading a sidecar (`fs.readFile`) are inputs. A failing read, which aborts the script, is not modelled.
- `read(f)` stands for reading f inside the listed directory. The script reads sidecars (delete-raw-files.mjs:76-78, 124, 133) and trashes files (120) by the bare name, which resolves against the working directory, not `--dir`. It therefore does this only when `--dir` is the working directory; otherwise the first sidecar read fails and the script stops.
- The source reads each sidecar twice. The model calls the pure `read` function twice as well, so both calls see the same text.
- The `gio trash` call and all console and chalk output are not modelled.
  - A decision returns the files to trash, in the order the script trashes them.
  - The label the script logs is returned as `ratingText`.
  - Whether anything is trashed (the `--delete` switch) is up to the caller that receives the trash set.
- Retention.Decide: the script calls the trash helper with `null` when a deleted photo has no sidecar. The model names only files that exist, so that call is absent. Under `--delete` that call ends the script, as "## Findings" shows. `Sweep` and `Run` model the intended behaviour instead: every record is decided and every deletion is trashed.
- Argument parsing is not modelled; `Config` holds the resolved values. Non-integer option values such as `--rating 2.5` are not representable.
- JavaScript numbers are integers or NaN here. Fractions, infinities other than the `maxEdits` bound, and the loss of precision above 2^53 for long digit strings are not modelled.
- `toLowerCase` is modelled on ASCII letters only.
- `path.extname` is modelled for names without '/', which is what a directory listing returns.
- The unused set of lower-cased names and the write-only `prefixes` array (delete-raw-files.mjs:40-45, 51) affect no decision and are not modelled.
- Records live in a map from prefix to value, and the trash is a set. The Map's insertion order, and so the order in which photos are decided and logged, is not modelled. Each decision depends only on its own record.
- A name like `DSC001.jpg.xmp` has the extension ".xmp" and is taken as the sidecar of `DSC001`. The model keeps this behaviour as written.

## Findings

| source | as written | input that shows it | evidently intended | confidence | as-written member | corrected member |
|---|---|---|---|---|---|---|
| delete-raw-files.mjs:106-108, 118-121 | With `--delete`, a deleted photo without a sidecar has its raw file trashed. Then `sendToTrash(null)` runs `gio trash null`. Unless a file named "null" exists, the command fails, the shell helper rejects, and the top-level await ends the script, so no later record is decided or trashed. | Two unrated photos `A.ARW` + `A.jpg` and `B.ARW` + `B.jpg`, no sidecars, default options with `--delete`: only `A.ARW` is trashed, although `B` is deleted too. | Skip the sidecar when there is none and go on with the next record. | not executed; rests on the shell helper rejecting on a non-zero exit status, its default | Retention.AbortAfterMissingSidecar | Retention.TrashInOrderIsDoomed |

