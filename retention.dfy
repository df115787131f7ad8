/** The retention policy: for each record, the first rule that keeps the raw
    file wins; when none does, the raw file and its sidecar are to be trashed,
    and the preview too for a rejected photo. The model returns the decision
    and the files to trash; trashing them (or only reporting them, without
    --delete) is left to the caller. */
module Retention {
  import opened Text
  import opened Grouping

  /** The resolved options the policy reads. */
  datatype Config = Config(
    minRating: Num,          // Number(--rating): NaN when the option is absent
    maxEdits: Option<int>,   // Number(--max-edits) || Infinity: None stands for Infinity
    ignoreJpg: bool)         // --ignore-jpg

  datatype Reason =
    | NoMatchJpg             // no preview, and previews are not ignored
    | RatingKept(ratingText: string)
    | HasExport(exported: string)
    | HasEdits(edits: nat)

  datatype Decision =
    | Keep(reason: Reason)
    | Delete(trash: seq<string>, ratingText: string)

  /** getRating: the rating as the log shows it. */
  function RatingLabel(rating: Num): string
  {
    if IsNegative(rating) then "MARKED AS REJECT" else "RATING " + NumToString(rating) + "/5"
  }

  /** A non-negative rating is shown in a form it can be read back from. */
  lemma RatingLabelShowsRating(n: int)
    requires n >= 0
    ensures var shown := RatingLabel(Int(n));
      && |shown| > 9
      && shown[..7] == "RATING "
      && shown[|shown| - 2..] == "/5"
      && IsRatingCapture(shown[7..|shown| - 2])
      && ToNumber(shown[7..|shown| - 2]) == Int(n)
  {
    var digits := NumToString(Int(n));
    var shown := RatingLabel(Int(n));
    assert shown == "RATING " + digits + "/5";
    assert shown[7..|shown| - 2] == digits;
    NumberRoundTrip(n);
  }

  /** A rejected photo, and only a rejected one, is labelled as such. */
  lemma RejectLabel(rating: Num)
    ensures RatingLabel(rating) == "MARKED AS REJECT" <==> IsNegative(rating)
  {
    if !IsNegative(rating) {
      var shown := RatingLabel(rating);
      assert shown[0] == 'R';
      assert "MARKED AS REJECT"[0] == 'M';
    }
  }

  // ---------------------------------------------------------------------
  // The rules

  /** `photo.mods >= MAX_EDITS`; never true for Infinity. */
  predicate EditsKeep(mods: nat, maxEdits: Option<int>)
  {
    maxEdits.Some? && mods >= maxEdits.value
  }

  /** Every rule that keeps the raw file fails. */
  predicate NoKeepRule(photo: Photo, cfg: Config)
  {
    && (cfg.ignoreJpg || photo.jpg.Some?)
    && !AtLeast(photo.rating, cfg.minRating)
    && photo.exported.None?
    && !EditsKeep(photo.mods, cfg.maxEdits)
  }

  /** What a deletion trashes, in the order the script trashes it. */
  function Trash(photo: Photo): seq<string>
  {
    [photo.filename]
    + (if photo.darktable.Some? then [photo.darktable.value] else [])
    + (if IsNegative(photo.rating) && photo.jpg.Some? then [photo.jpg.value] else [])
  }

  /** The per-photo chain of checks; the first rule that applies decides. */
  function Decide(photo: Photo, cfg: Config): (d: Decision)
    // A missing preview keeps the raw file whatever the rating, export and edits.
    // It is also the only case reported as a missing preview.
    ensures d == Keep(NoMatchJpg) <==> !cfg.ignoreJpg && photo.jpg.None?
    // A later rule is reached only when every earlier one failed, and its
    // reason reports the record's own label, export or edit count.
    ensures d.Keep? && d.reason.RatingKept? ==>
      (cfg.ignoreJpg || photo.jpg.Some?) && AtLeast(photo.rating, cfg.minRating) &&
      d.reason.ratingText == RatingLabel(photo.rating)
    ensures d.Keep? && d.reason.HasExport? ==>
      (cfg.ignoreJpg || photo.jpg.Some?) && !AtLeast(photo.rating, cfg.minRating) &&
      photo.exported == Some(d.reason.exported)
    ensures d.Keep? && d.reason.HasEdits? ==>
      (cfg.ignoreJpg || photo.jpg.Some?) && !AtLeast(photo.rating, cfg.minRating) &&
      photo.exported.None? && EditsKeep(photo.mods, cfg.maxEdits) && d.reason.edits == photo.mods
    // Deletion happens exactly when no rule keeps the raw file.
    ensures d.Delete? <==> NoKeepRule(photo, cfg)
    // A deletion trashes the raw file, the sidecar if any, and the preview
    // only for a rejected photo.
    ensures d.Delete? ==> photo.filename in d.trash
    ensures d.Delete? && photo.darktable.Some? ==> photo.darktable.value in d.trash
    ensures d.Delete? ==> d.ratingText == RatingLabel(photo.rating)
    ensures d.Delete? ==> forall f :: f in d.trash ==>
      f == photo.filename || photo.darktable == Some(f) ||
      (IsNegative(photo.rating) && photo.jpg == Some(f))
    ensures d.Delete? && IsNegative(photo.rating) && photo.jpg.Some? ==> photo.jpg.value in d.trash
  {
    if !cfg.ignoreJpg && photo.jpg.None? then Keep(NoMatchJpg)
    else if AtLeast(photo.rating, cfg.minRating) then Keep(RatingKept(RatingLabel(photo.rating)))
    else if photo.exported.Some? then Keep(HasExport(photo.exported.value))
    else if EditsKeep(photo.mods, cfg.maxEdits) then Keep(HasEdits(photo.mods))
    else Delete(Trash(photo), RatingLabel(photo.rating))
  }

  /** The files a decision sends to the trash. */
  function Doomed(d: Decision): set<string>
  {
    if d.Delete? then set f | f in d.trash else {}
  }

  /** Loosening the policy never deletes more: with a minimum rating and an
      edit limit no stricter, and previews ignored only if they were before,
      a kept photo stays kept. */
  lemma LooserPolicyKeeps(photo: Photo, cfg: Config, looser: Config)
    requires Decide(photo, cfg).Keep?
    requires cfg.minRating.Int? ==> looser.minRating.Int? && looser.minRating.value <= cfg.minRating.value
    requires cfg.maxEdits.Some? ==> looser.maxEdits.Some? && looser.maxEdits.value <= cfg.maxEdits.value
    requires looser.ignoreJpg ==> cfg.ignoreJpg
    ensures Decide(photo, looser).Keep?
  {
    assert !NoKeepRule(photo, cfg);
  }

  // ---------------------------------------------------------------------
  // The loop over all records

  /** The decision loop: each record decided on its own, and the union of
      the files the deletions name. */
  method Sweep(photos: map<string, Photo>, cfg: Config)
    returns (decisions: map<string, Decision>, trash: set<string>)
    ensures decisions.Keys == photos.Keys
    ensures forall p :: p in photos ==> decisions[p] == Decide(photos[p], cfg)
    ensures forall f :: f in trash <==> exists p :: p in photos && f in Doomed(Decide(photos[p], cfg))
  {
    var todo := photos.Keys;
    decisions := map[];
    trash := {};
    while todo != {}
      invariant todo <= photos.Keys
      invariant decisions.Keys == photos.Keys - todo
      invariant forall p :: p in decisions ==> decisions[p] == Decide(photos[p], cfg)
      invariant forall f :: f in trash <==> exists p :: p in decisions && f in Doomed(decisions[p])
      decreases todo
    {
      var p :| p in todo;
      var d := Decide(photos[p], cfg);
      decisions := decisions[p := d];
      if d.Delete? {
        trash := trash + set f | f in d.trash;
      }
      todo := todo - {p};
    }
  }

  /** The whole script: group the listing, then decide every record. */
  method Run(files: seq<string>, ext: string, read: string -> string, cfg: Config)
    returns (photos: map<string, Photo>, decisions: map<string, Decision>, trash: set<string>)
    ensures photos == Grouped(files, ext, read)
    ensures decisions.Keys == photos.Keys
    ensures forall p :: p in photos ==> decisions[p] == Decide(photos[p], cfg)
    // The trash is exactly what the deletions name: every deleted photo's
    // raw file and sidecar go, and nothing else but rejected previews.
    ensures forall f :: f in trash <==> exists p :: p in photos && f in Doomed(decisions[p])
    ensures forall p :: p in photos && decisions[p].Delete? ==>
      photos[p].filename in trash &&
      (photos[p].darktable.Some? ==> photos[p].darktable.value in trash)
    // Only files of the listing are trashed.
    ensures forall f :: f in trash ==> f in files
    // An export is never trashed.
    ensures forall p :: p in photos && photos[p].exported.Some? ==> photos[p].exported.value !in trash
    // A preview is trashed only with its rejected, deleted photo.
    ensures forall p :: p in photos && photos[p].jpg.Some? && photos[p].jpg.value in trash ==>
      decisions[p].Delete? && IsNegative(photos[p].rating)
    // A raw file without a preview survives unless previews are ignored.
    ensures forall p :: p in photos && !cfg.ignoreJpg && photos[p].jpg.None? ==>
      photos[p].filename !in trash
  {
    photos := Group(files, ext, read);
    decisions, trash := Sweep(photos, cfg);
    GroupedWellFormed(files, ext, read);
    TrashedIsListed(photos, files, ext, cfg, trash);
    ExportsSurvive(photos, files, ext, cfg, trash);
    PreviewsSurviveUnlessRejected(photos, files, ext, cfg, trash);
    LoneRawSurvives(photos, files, ext, cfg, trash);
    forall p | p in photos && decisions[p].Delete?
      ensures photos[p].filename in trash
      ensures photos[p].darktable.Some? ==> photos[p].darktable.value in trash
    {
      assert photos[p].filename in Doomed(decisions[p]);
      if photos[p].darktable.Some? {
        assert photos[p].darktable.value in Doomed(decisions[p]);
      }
    }
  }

  /** Every record well formed, and the trash the union of what the
      deletions name. */
  ghost predicate SweptFrom(photos: map<string, Photo>, files: seq<string>, ext: string,
                            cfg: Config, trash: set<string>)
  {
    && (forall p :: p in photos ==> WellFormed(photos[p], p, files, ext))
    && (forall f :: f in trash <==> exists p :: p in photos && f in Doomed(Decide(photos[p], cfg)))
  }

  /** The record whose deletion names a trashed file. */
  lemma OwnerOf(photos: map<string, Photo>, files: seq<string>, ext: string, cfg: Config,
                trash: set<string>, f: string) returns (q: string)
    requires SweptFrom(photos, files, ext, cfg, trash)
    requires f in trash
    ensures q in photos && WellFormed(photos[q], q, files, ext)
    ensures f in Doomed(Decide(photos[q], cfg))
  {
    q :| q in photos && f in Doomed(Decide(photos[q], cfg));
  }

  /** Only files of the listing are trashed. */
  lemma TrashedIsListed(photos: map<string, Photo>, files: seq<string>, ext: string, cfg: Config,
                        trash: set<string>)
    requires SweptFrom(photos, files, ext, cfg, trash)
    ensures forall f :: f in trash ==> f in files
  {
    forall f | f in trash
      ensures f in files
    {
      var q := OwnerOf(photos, files, ext, cfg, trash, f);
      TrashOrigin(photos[q], q, files, ext, cfg, f);
    }
  }

  /** An export is never trashed: it is neither a raw file, nor a sidecar,
      nor a preview of the record its prefix names. */
  lemma ExportsSurvive(photos: map<string, Photo>, files: seq<string>, ext: string, cfg: Config,
                       trash: set<string>)
    requires SweptFrom(photos, files, ext, cfg, trash)
    ensures forall p :: p in photos && photos[p].exported.Some? ==> photos[p].exported.value !in trash
  {
    forall p | p in photos && photos[p].exported.Some?
      ensures photos[p].exported.value !in trash
    {
      var e := photos[p].exported.value;
      if e in trash {
        var q := OwnerOf(photos, files, ext, cfg, trash, e);
        TrashOrigin(photos[q], q, files, ext, cfg, e);
        assert false;
      }
    }
  }

  /** A preview is trashed only with its rejected, deleted record. */
  lemma PreviewsSurviveUnlessRejected(photos: map<string, Photo>, files: seq<string>, ext: string,
                                      cfg: Config, trash: set<string>)
    requires SweptFrom(photos, files, ext, cfg, trash)
    ensures forall p :: p in photos && photos[p].jpg.Some? && photos[p].jpg.value in trash ==>
      Decide(photos[p], cfg).Delete? && IsNegative(photos[p].rating)
  {
    forall p | p in photos && photos[p].jpg.Some? && photos[p].jpg.value in trash
      ensures Decide(photos[p], cfg).Delete? && IsNegative(photos[p].rating)
    {
      var j := photos[p].jpg.value;
      var q := OwnerOf(photos, files, ext, cfg, trash, j);
      TrashOrigin(photos[q], q, files, ext, cfg, j);
      assert Fills(j, ext, p, PreviewSlot);
      assert q == p;
    }
  }

  /** A raw file without a preview survives unless previews are ignored. */
  lemma LoneRawSurvives(photos: map<string, Photo>, files: seq<string>, ext: string, cfg: Config,
                        trash: set<string>)
    requires SweptFrom(photos, files, ext, cfg, trash)
    ensures forall p :: p in photos && !cfg.ignoreJpg && photos[p].jpg.None? ==>
      photos[p].filename !in trash
  {
    forall p | p in photos && !cfg.ignoreJpg && photos[p].jpg.None?
      ensures photos[p].filename !in trash
    {
      var r := photos[p].filename;
      if r in trash {
        var q := OwnerOf(photos, files, ext, cfg, trash, r);
        TrashOrigin(photos[q], q, files, ext, cfg, r);
        assert false;
      }
    }
  }

  /** A file a record's deletion trashes is listed, has the record's
      prefix, and is its raw file, its sidecar or its rejected preview. */
  lemma TrashOrigin(photo: Photo, p: string, files: seq<string>, ext: string, cfg: Config, f: string)
    requires WellFormed(photo, p, files, ext)
    requires f in Doomed(Decide(photo, cfg))
    ensures f in files && Prefix(f) == p
    ensures f == photo.filename || photo.darktable == Some(f) ||
      (IsNegative(photo.rating) && photo.jpg == Some(f))
  {
    var d := Decide(photo, cfg);
    assert f in d.trash;
  }

  // ---------------------------------------------------------------------
  // The deletion loop in order, with --delete

  /** The files the loop trashes, record by record in the order given, when
      every trash call succeeds: each deletion's own files, in turn. */
  function TrashInOrder(order: seq<Photo>, cfg: Config): (trashed: seq<string>)
  {
    if order == [] then []
    else
      var d := Decide(order[0], cfg);
      (if d.Delete? then d.trash else []) + TrashInOrder(order[1..], cfg)
  }

  /** In-order trashing names exactly the files the deletions name, so every
      deleted photo loses its raw file and its sidecar. */
  lemma {:induction false} TrashInOrderIsDoomed(order: seq<Photo>, cfg: Config, f: string)
    ensures f in TrashInOrder(order, cfg) <==>
      exists i :: 0 <= i < |order| && f in Doomed(Decide(order[i], cfg))
  {
    if order != [] {
      TrashInOrderIsDoomed(order[1..], cfg, f);
      if f in TrashInOrder(order[1..], cfg) {
        var i :| 0 <= i < |order[1..]| && f in Doomed(Decide(order[1..][i], cfg));
        assert order[i + 1] == order[1..][i];
      }
      if exists i :: 0 <= i < |order| && f in Doomed(Decide(order[i], cfg)) {
        var i :| 0 <= i < |order| && f in Doomed(Decide(order[i], cfg));
        if i > 0 {
          assert order[1..][i - 1] == order[i];
        }
      }
    }
  }

  /** The loop as written: a deletion without a sidecar trashes the raw file
      and then hands `null` to the trash command, whose failure rejects the
      top-level await and ends the script before the remaining records. */
  function TrashAsWritten(order: seq<Photo>, cfg: Config): (trashed: seq<string>)
    // What it trashes is a prefix of what the in-order loop trashes.
    ensures trashed <= TrashInOrder(order, cfg)
  {
    if order == [] then []
    else
      var d := Decide(order[0], cfg);
      if d.Delete? && order[0].darktable.None? then [order[0].filename]
      else (if d.Delete? then d.trash else []) + TrashAsWritten(order[1..], cfg)
  }

  /** When every deleted photo has a sidecar, the loop as written trashes
      exactly what the in-order loop trashes. */
  lemma {:induction false} TrashAsWrittenWithSidecars(order: seq<Photo>, cfg: Config)
    requires forall i :: 0 <= i < |order| && Decide(order[i], cfg).Delete? ==> order[i].darktable.Some?
    ensures TrashAsWritten(order, cfg) == TrashInOrder(order, cfg)
  {
    if order != [] {
      assert forall i :: 0 <= i < |order[1..]| ==> order[1..][i] == order[i + 1];
      TrashAsWrittenWithSidecars(order[1..], cfg);
    }
  }

  /** Two unrated photos with previews and no sidecars, the default policy:
      both are deleted, yet the loop as written trashes only the first raw
      file, and the second survives. */
  lemma AbortAfterMissingSidecar()
    ensures var cfg := Config(NaN, None, false);
      var a := Photo("A", "A.ARW", None, None, Some("A.jpg"), Int(0), 0);
      var b := Photo("B", "B.ARW", None, None, Some("B.jpg"), Int(0), 0);
      && Decide(a, cfg).Delete? && Decide(b, cfg).Delete?
      && TrashAsWritten([a, b], cfg) == ["A.ARW"]
      && "B.ARW" !in TrashAsWritten([a, b], cfg)
      && "B.ARW" in TrashInOrder([a, b], cfg)
  {
    var cfg := Config(NaN, None, false);
    var a := Photo("A", "A.ARW", None, None, Some("A.jpg"), Int(0), 0);
    var b := Photo("B", "B.ARW", None, None, Some("B.jpg"), Int(0), 0);
    assert [a, b][1..] == [b];
    assert TrashInOrder([b], cfg) == ["B.ARW"];
  }
}
