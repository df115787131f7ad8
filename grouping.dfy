/** The grouper: two passes over a directory listing build one Photo record
    per prefix that has a raw file. The first pass creates the records from
    the raw files; the second attaches each other file with a record's prefix
    as that record's export, sidecar or preview. The `read` parameter stands
    for reading a sidecar file's text. */
module Grouping {
  import opened Text
  import opened Sidecar

  /** The record kept for one prefix. */
  datatype Photo = Photo(
    prefix: string,            // text before the first '.' of the raw file
    filename: string,          // the raw file
    darktable: Option<string>, // the .xmp sidecar
    exported: Option<string>,  // an exported "<prefix>.<anything>.jpg"
    jpg: Option<string>,       // the plain "<prefix>.jpg" preview
    rating: Num,               // read from the sidecar, 0 without one
    mods: nat)                 // history entries in the sidecar, 0 without one

  /** The raw extension as compared: a dot and the lower-cased option value. */
  function RawExtension(ext: string): string
  {
    "." + Lower(ext)
  }

  predicate IsRaw(f: string, ext: string)
  {
    ExtName(Lower(f)) == RawExtension(ext)
  }

  /** A fresh record for a raw file. */
  function NewPhoto(f: string): Photo
  {
    Photo(Prefix(f), f, None, None, None, Int(0), 0)
  }

  /** Where the second pass puts a non-raw file whose prefix has a record. */
  datatype Slot = ExportSlot | SidecarSlot | PreviewSlot | NoSlot

  /** The `if / else if` chain of the second pass. */
  function Classify(f: string): Slot
  {
    var n := Lower(f);
    if IsExportName(n) then ExportSlot
    else if ExtName(n) == ".xmp" then SidecarSlot
    else if n == Lower(Prefix(f)) + ".jpg" then PreviewSlot
    else NoSlot
  }

  /** A file named exactly "<prefix>.jpg", in any case, is the preview, and
      nothing else is: the export and sidecar tests before it never take it. */
  lemma ClassifyPreview(f: string)
    ensures Classify(f) == PreviewSlot <==> Lower(f) == Lower(Prefix(f)) + ".jpg"
  {
    PreviewNameShape(Prefix(f));
  }

  /** "<prefix>.jpg" is neither an export name nor a sidecar name. */
  lemma PreviewNameShape(p: string)
    requires NoDot(p)
    ensures !IsExportName(Lower(p) + ".jpg")
    ensures ExtName(Lower(p) + ".jpg") != ".xmp"
  {
    LowerKeepsDots(p);
    PreviewIsNotExport(Lower(p));
    if p != [] {
      ExtNameOfDotJpg(Lower(p));
    } else {
      assert Lower(p) + ".jpg" == ".jpg";
    }
  }

  /** A record with file f attached; a sidecar also sets rating and edits. */
  function Attach(photo: Photo, f: string, read: string -> string): Photo
  {
    match Classify(f)
    case ExportSlot => photo.(exported := Some(f))
    case SidecarSlot =>
      photo.(darktable := Some(f), rating := SidecarRating(read(f)), mods := ModificationCount(read(f)))
    case PreviewSlot => photo.(jpg := Some(f))
    case NoSlot => photo
  }

  /** The records after the first pass over `files`. */
  function Collected(files: seq<string>, ext: string): map<string, Photo>
  {
    if files == [] then map[]
    else
      var f := files[|files| - 1];
      var m := Collected(files[..|files| - 1], ext);
      if IsRaw(f, ext) then m[Prefix(f) := NewPhoto(f)] else m
  }

  /** The records `base` after the second pass over `files`. */
  function Attached(files: seq<string>, ext: string, read: string -> string,
                    base: map<string, Photo>): map<string, Photo>
  {
    if files == [] then base
    else
      var f := files[|files| - 1];
      var m := Attached(files[..|files| - 1], ext, read, base);
      if IsRaw(f, ext) || Prefix(f) !in m then m
      else m[Prefix(f) := Attach(m[Prefix(f)], f, read)]
  }

  function Grouped(files: seq<string>, ext: string, read: string -> string): map<string, Photo>
  {
    Attached(files, ext, read, Collected(files, ext))
  }

  // ---------------------------------------------------------------------
  // The grouper as the script runs it

  /** Both passes over the listing, building the map of records. */
  method Group(files: seq<string>, ext: string, read: string -> string)
    returns (photos: map<string, Photo>)
    ensures photos == Grouped(files, ext, read)
    ensures forall p :: p in photos <==> HasRaw(files, ext, p)
    ensures forall p :: p in photos ==> WellFormed(photos[p], p, files, ext)
  {
    photos := CollectRaw(files, ext);
    photos := AttachOthers(files, ext, read, photos);
    GroupedKeys(files, ext, read);
    GroupedWellFormed(files, ext, read);
  }

  /** The first loop: a new record for every raw file, keyed by its prefix. */
  method CollectRaw(files: seq<string>, ext: string) returns (photos: map<string, Photo>)
    ensures photos == Collected(files, ext)
  {
    var rawExt := RawExtension(ext);
    photos := map[];
    for i := 0 to |files|
      invariant photos == Collected(files[..i], ext)
    {
      assert files[..i + 1][..i] == files[..i];
      var file := files[i];
      var normalized := Lower(file);
      var prefix := Prefix(file);
      if ExtName(normalized) == rawExt {
        photos := photos[prefix := Photo(prefix, file, None, None, None, Int(0), 0)];
      }
    }
    assert files[..|files|] == files;
  }

  /** The second loop: every other file whose prefix has a record is put in
      the slot the `if / else if` chain gives it. */
  method AttachOthers(files: seq<string>, ext: string, read: string -> string,
                      collected: map<string, Photo>) returns (photos: map<string, Photo>)
    ensures photos == Attached(files, ext, read, collected)
  {
    var rawExt := RawExtension(ext);
    photos := collected;
    for i := 0 to |files|
      invariant photos == Attached(files[..i], ext, read, collected)
    {
      assert files[..i + 1][..i] == files[..i];
      var file := files[i];
      var normalized := Lower(file);
      if ExtName(normalized) == rawExt {
        continue;
      }
      var prefix := Prefix(file);
      if prefix !in photos {
        continue;
      }
      var photo := photos[prefix];
      ghost var before := photo;
      if IsExportName(normalized) {
        photo := photo.(exported := Some(file));
      } else if ExtName(normalized) == ".xmp" {
        photo := photo.(darktable := Some(file));
        var rating := SidecarRating(read(file));
        photo := photo.(rating := rating);
        var modCount := ModificationCount(read(file));
        photo := photo.(mods := modCount);
      } else if normalized == Lower(prefix) + ".jpg" {
        photo := photo.(jpg := Some(file));
      }
      assert photo == Attach(before, file, read);
      photos := photos[prefix := photo];
    }
    assert files[..|files|] == files;
  }

  // ---------------------------------------------------------------------
  // First pass

  /** Some file of the listing is a raw file with prefix p. */
  ghost predicate HasRaw(files: seq<string>, ext: string, p: string)
  {
    exists j :: 0 <= j < |files| && IsRaw(files[j], ext) && Prefix(files[j]) == p
  }

  /** Every raw file of the listing leaves a record for its prefix. */
  lemma {:induction false} CollectedHasRaw(files: seq<string>, ext: string, j: nat)
    requires j < |files| && IsRaw(files[j], ext)
    ensures Prefix(files[j]) in Collected(files, ext)
  {
    var init := files[..|files| - 1];
    if j < |files| - 1 {
      assert init[j] == files[j];
      CollectedHasRaw(init, ext, j);
    }
  }

  /** Every record of the first pass comes from a raw file of the listing. */
  lemma {:induction false} CollectedFromRaw(files: seq<string>, ext: string, p: string) returns (j: nat)
    requires p in Collected(files, ext)
    ensures j < |files| && IsRaw(files[j], ext) && Prefix(files[j]) == p
  {
    assert files != [];
    var init := files[..|files| - 1];
    var f := files[|files| - 1];
    if IsRaw(f, ext) && Prefix(f) == p {
      j := |files| - 1;
    } else {
      assert p in Collected(init, ext);
      j := CollectedFromRaw(init, ext, p);
      assert init[j] == files[j];
    }
  }

  /** The first pass makes a record exactly for the prefixes of raw files. */
  lemma CollectedKeys(files: seq<string>, ext: string)
    ensures forall p :: p in Collected(files, ext) <==> HasRaw(files, ext, p)
  {
    forall p ensures p in Collected(files, ext) <==> HasRaw(files, ext, p) {
      if p in Collected(files, ext) {
        var j := CollectedFromRaw(files, ext, p);
      }
      if HasRaw(files, ext, p) {
        var j :| 0 <= j < |files| && IsRaw(files[j], ext) && Prefix(files[j]) == p;
        CollectedHasRaw(files, ext, j);
      }
    }
  }

  /** When several raw files share a prefix, the last one's record stays. */
  lemma {:induction false} CollectedLastRaw(files: seq<string>, ext: string, j: nat)
    requires j < |files| && IsRaw(files[j], ext)
    requires forall k :: j < k < |files| ==> !(IsRaw(files[k], ext) && Prefix(files[k]) == Prefix(files[j]))
    ensures Prefix(files[j]) in Collected(files, ext)
    ensures Collected(files, ext)[Prefix(files[j])] == NewPhoto(files[j])
  {
    var init := files[..|files| - 1];
    if j < |files| - 1 {
      assert init[j] == files[j];
      forall k | j < k < |init|
        ensures !(IsRaw(init[k], ext) && Prefix(init[k]) == Prefix(init[j]))
      {
        assert init[k] == files[k];
      }
      CollectedLastRaw(init, ext, j);
    }
  }

  // ---------------------------------------------------------------------
  // Second pass

  /** File f goes to slot s of the record for p. */
  predicate Fills(f: string, ext: string, p: string, s: Slot)
  {
    !IsRaw(f, ext) && Prefix(f) == p && Classify(f) == s
  }

  function SlotOf(photo: Photo, s: Slot): Option<string>
    requires s != NoSlot
  {
    match s
    case ExportSlot => photo.exported
    case SidecarSlot => photo.darktable
    case PreviewSlot => photo.jpg
  }

  /** The second pass never creates a record, and never changes a record's
      prefix or raw file. */
  lemma {:induction false} AttachedKeeps(files: seq<string>, ext: string, read: string -> string,
                                         base: map<string, Photo>)
    ensures Attached(files, ext, read, base).Keys == base.Keys
    ensures forall p :: p in base ==>
      Attached(files, ext, read, base)[p].prefix == base[p].prefix &&
      Attached(files, ext, read, base)[p].filename == base[p].filename
  {
    if files != [] {
      AttachedKeeps(files[..|files| - 1], ext, read, base);
    }
  }

  /** Attaching a file fills its own slot (and, for a sidecar, sets rating
      and edit count from its text). */
  lemma AttachFills(photo: Photo, f: string, read: string -> string)
    requires Classify(f) != NoSlot
    ensures SlotOf(Attach(photo, f, read), Classify(f)) == Some(f)
    ensures Classify(f) == SidecarSlot ==>
      Attach(photo, f, read).rating == SidecarRating(read(f)) &&
      Attach(photo, f, read).mods == ModificationCount(read(f))
  {
  }

  /** Attaching a file leaves every other slot alone, and rating and edit
      count unless it is a sidecar. */
  lemma AttachLeaves(photo: Photo, f: string, read: string -> string, s: Slot)
    requires s != NoSlot && Classify(f) != s
    ensures SlotOf(Attach(photo, f, read), s) == SlotOf(photo, s)
    ensures s == SidecarSlot ==>
      Attach(photo, f, read).rating == photo.rating && Attach(photo, f, read).mods == photo.mods
  {
  }

  /** One step of the second pass, seen from the record for p: the last
      file is attached to it when it is a non-raw file with prefix p. */
  lemma AttachedStep(files: seq<string>, ext: string, read: string -> string,
                     base: map<string, Photo>, p: string)
    requires files != [] && p in base
    ensures p in Attached(files[..|files| - 1], ext, read, base)
    ensures p in Attached(files, ext, read, base)
    ensures var f := files[|files| - 1];
      var before := Attached(files[..|files| - 1], ext, read, base)[p];
      Attached(files, ext, read, base)[p] ==
        if !IsRaw(f, ext) && Prefix(f) == p then Attach(before, f, read) else before
  {
    AttachedKeeps(files[..|files| - 1], ext, read, base);
  }

  /** Each slot of a record holds the last file of the listing that the
      chain puts there; a sidecar's text gives the rating and edit count. */
  lemma {:induction false} AttachedSlotLast(files: seq<string>, ext: string, read: string -> string,
                                            base: map<string, Photo>, p: string, s: Slot, j: nat)
    requires p in base && s != NoSlot
    requires j < |files| && Fills(files[j], ext, p, s)
    requires forall k :: j < k < |files| ==> !Fills(files[k], ext, p, s)
    ensures p in Attached(files, ext, read, base)
    ensures SlotOf(Attached(files, ext, read, base)[p], s) == Some(files[j])
    ensures s == SidecarSlot ==>
      Attached(files, ext, read, base)[p].rating == SidecarRating(read(files[j])) &&
      Attached(files, ext, read, base)[p].mods == ModificationCount(read(files[j]))
  {
    var init := files[..|files| - 1];
    var f := files[|files| - 1];
    AttachedStep(files, ext, read, base, p);
    var before := Attached(init, ext, read, base)[p];
    if j < |files| - 1 {
      assert init[j] == files[j];
      forall k | j < k < |init| ensures !Fills(init[k], ext, p, s) {
        assert init[k] == files[k];
      }
      AttachedSlotLast(init, ext, read, base, p, s, j);
      if !IsRaw(f, ext) && Prefix(f) == p {
        assert !Fills(f, ext, p, s);
        AttachLeaves(before, f, read, s);
      }
    } else {
      AttachFills(before, f, read);
    }
  }

  /** A slot no file goes to keeps its value from before the second pass,
      and without a sidecar the rating and edit count are left alone. */
  lemma {:induction false} AttachedSlotUntouched(files: seq<string>, ext: string, read: string -> string,
                                                 base: map<string, Photo>, p: string, s: Slot)
    requires p in base && s != NoSlot
    requires forall k :: 0 <= k < |files| ==> !Fills(files[k], ext, p, s)
    ensures p in Attached(files, ext, read, base)
    ensures SlotOf(Attached(files, ext, read, base)[p], s) == SlotOf(base[p], s)
    ensures s == SidecarSlot ==>
      Attached(files, ext, read, base)[p].rating == base[p].rating &&
      Attached(files, ext, read, base)[p].mods == base[p].mods
  {
    if files != [] {
      var init := files[..|files| - 1];
      var f := files[|files| - 1];
      AttachedStep(files, ext, read, base, p);
      forall k | 0 <= k < |init| ensures !Fills(init[k], ext, p, s) {
        assert init[k] == files[k];
      }
      AttachedSlotUntouched(init, ext, read, base, p, s);
      if !IsRaw(f, ext) && Prefix(f) == p {
        assert !Fills(f, ext, p, s);
        AttachLeaves(Attached(init, ext, read, base)[p], f, read, s);
      }
    }
  }

  // ---------------------------------------------------------------------
  // Both passes

  /** A record exists exactly for the prefixes of the listing's raw files. */
  lemma GroupedKeys(files: seq<string>, ext: string, read: string -> string)
    ensures forall p :: p in Grouped(files, ext, read) <==> HasRaw(files, ext, p)
  {
    CollectedKeys(files, ext);
    AttachedKeeps(files, ext, read, Collected(files, ext));
  }

  /** The record for a prefix names the last raw file with that prefix. */
  lemma GroupedRawIsLast(files: seq<string>, ext: string, read: string -> string, j: nat)
    requires j < |files| && IsRaw(files[j], ext)
    requires forall k :: j < k < |files| ==> !(IsRaw(files[k], ext) && Prefix(files[k]) == Prefix(files[j]))
    ensures Prefix(files[j]) in Grouped(files, ext, read)
    ensures Grouped(files, ext, read)[Prefix(files[j])].filename == files[j]
  {
    CollectedLastRaw(files, ext, j);
    AttachedKeeps(files, ext, read, Collected(files, ext));
  }

  /** Without any file for a slot the slot is empty; without a sidecar the
      rating and the edit count are 0. */
  lemma GroupedSlotEmpty(files: seq<string>, ext: string, read: string -> string, p: string, s: Slot)
    requires p in Grouped(files, ext, read) && s != NoSlot
    requires forall k :: 0 <= k < |files| ==> !Fills(files[k], ext, p, s)
    ensures SlotOf(Grouped(files, ext, read)[p], s) == None
    ensures s == SidecarSlot ==>
      Grouped(files, ext, read)[p].rating == Int(0) && Grouped(files, ext, read)[p].mods == 0
  {
    var base := Collected(files, ext);
    AttachedKeeps(files, ext, read, base);
    CollectedWellFormed(files, files, ext);
    AttachedSlotUntouched(files, ext, read, base, p, s);
  }

  // ---------------------------------------------------------------------
  // What every record satisfies

  /** A record for p: its files come from the listing, each in the slot the
      chain gives it (so the export and the preview are never the same file),
      and rating and edit count are 0 unless a sidecar was attached. */
  ghost predicate WellFormed(photo: Photo, p: string, files: seq<string>, ext: string)
  {
    && photo.prefix == p
    && photo.filename in files && IsRaw(photo.filename, ext) && Prefix(photo.filename) == p
    && (photo.exported.Some? ==> photo.exported.value in files && Fills(photo.exported.value, ext, p, ExportSlot))
    && (photo.darktable.Some? ==> photo.darktable.value in files && Fills(photo.darktable.value, ext, p, SidecarSlot))
    && (photo.jpg.Some? ==> photo.jpg.value in files && Fills(photo.jpg.value, ext, p, PreviewSlot))
    && (photo.darktable.None? ==> photo.rating == Int(0) && photo.mods == 0)
  }

  /** After the first pass: records for raw files of the listing, all slots
      empty. */
  lemma {:induction false} CollectedWellFormed(files: seq<string>, all: seq<string>, ext: string)
    requires forall k :: 0 <= k < |files| ==> files[k] in all
    ensures forall p :: p in Collected(files, ext) ==>
      WellFormed(Collected(files, ext)[p], p, all, ext) &&
      Collected(files, ext)[p].exported == Collected(files, ext)[p].darktable ==
      Collected(files, ext)[p].jpg == None
  {
    if files != [] {
      CollectedWellFormed(files[..|files| - 1], all, ext);
    }
  }

  /** Attaching a listed file with the record's prefix keeps the record
      well formed. */
  lemma AttachWellFormed(photo: Photo, p: string, f: string, all: seq<string>, ext: string,
                         read: string -> string)
    requires WellFormed(photo, p, all, ext)
    requires f in all && !IsRaw(f, ext) && Prefix(f) == p
    ensures WellFormed(Attach(photo, f, read), p, all, ext)
  {
    match Classify(f)
    case ExportSlot =>
    case SidecarSlot =>
    case PreviewSlot =>
    case NoSlot =>
  }

  lemma {:induction false} AttachedWellFormed(files: seq<string>, all: seq<string>, ext: string,
                                              read: string -> string, base: map<string, Photo>)
    requires forall k :: 0 <= k < |files| ==> files[k] in all
    requires forall p :: p in base ==> WellFormed(base[p], p, all, ext)
    ensures forall p :: p in Attached(files, ext, read, base) ==>
      WellFormed(Attached(files, ext, read, base)[p], p, all, ext)
  {
    if files != [] {
      var init := files[..|files| - 1];
      var f := files[|files| - 1];
      assert forall k :: 0 <= k < |init| ==> init[k] == files[k];
      AttachedWellFormed(init, all, ext, read, base);
      AttachedKeeps(files, ext, read, base);
      forall p | p in Attached(files, ext, read, base)
        ensures WellFormed(Attached(files, ext, read, base)[p], p, all, ext)
      {
        AttachedStep(files, ext, read, base, p);
        if !IsRaw(f, ext) && Prefix(f) == p {
          AttachWellFormed(Attached(init, ext, read, base)[p], p, f, all, ext, read);
        }
      }
    }
  }

  lemma GroupedWellFormed(files: seq<string>, ext: string, read: string -> string)
    ensures forall p :: p in Grouped(files, ext, read) ==>
      WellFormed(Grouped(files, ext, read)[p], p, files, ext)
  {
    CollectedWellFormed(files, files, ext);
    AttachedWellFormed(files, files, ext, read, Collected(files, ext));
  }

  /** The export and the preview of a record are different files. */
  lemma ExportIsNotPreview(photo: Photo, p: string, files: seq<string>, ext: string)
    requires WellFormed(photo, p, files, ext)
    requires photo.exported.Some? && photo.jpg.Some?
    ensures photo.exported.value != photo.jpg.value
  {
    var f := photo.jpg.value;
    ClassifyPreview(f);
    PreviewNameShape(Prefix(f));
  }
}
