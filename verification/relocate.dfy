/** One pass of the renaming script over the file names of one leaf directory
    of a site: each candidate image whose timestamp lies in the inclusive
    date range is renamed to the shifted timestamp and moved into the
    `site/<year>/<month>` directory of that new timestamp, together with its
    `.meta` companion.  The archive is the set of paths it holds and a rename
    is a set update; what is moved is decided by the dry-run, overwrite and
    image/meta selection flags. */
module Relocate {
  import opened Wrappers
  import opened Text
  import opened Calendar
  import opened FileName
  import opened Arguments
  import opened Files

  const Archive := "/projects/phenocam/data/archive/"
  const MetaExtension := ".meta"

  /** Python's `os.path.join(a, b)`: an absolute `b` replaces `a`, and a
      slash is put between them unless `a` is empty or already ends in one. */
  function Join(a: Path, b: string): Path {
    if |b| > 0 && b[0] == '/' then b
    else if a == "" || a[|a| - 1] == '/' then a + b
    else a + "/" + b
  }

  /** `path.join(ARCHIVE, sitename)`. */
  function SitePath(site: string): Path {
    Join(Archive, site)
  }

  /** The path of the file `file` listed in directory `root`:
      `path.join(root, file)`.  The script builds it as
      `path.join(root, '/'.join(dirs), file)`, which agrees only in a
      directory without subdirectories (see `SourcePathAsWritten`). */
  function SourcePath(root: Path, file: string): Path {
    Join(root, file)
  }

  /** `path.join(root, '/'.join(dirs), file)` as the script writes it, where
      `dirs` are the subdirectories `os.walk` lists beside `file`. */
  function SourcePathAsWritten(root: Path, dirs: seq<string>, file: string): Path {
    Join(Join(root, if dirs == [] then "" else JoinWith(dirs, '/')), file)
  }

  /** In a leaf directory the script's path is the file's own path. */
  lemma SourcePathAsWrittenInLeaf(root: Path, file: string)
    ensures SourcePathAsWritten(root, [], file) == SourcePath(root, file)
  {
    if !(|file| > 0 && file[0] == '/') && !(root == "" || root[|root| - 1] == '/') {
      assert Join(root, "") == root + "/";
      assert (root + "/")[|root + "/"| - 1] == '/';
    }
  }

  /** The listed file's path is the directory, one slash, and the name. */
  lemma SourcePathIsListedFile(root: Path, file: string)
    requires |root| > 0 && |file| > 0 && file[0] != '/'
    ensures root[|root| - 1] == '/' ==> SourcePath(root, file) == root + file
    ensures root[|root| - 1] != '/' ==> SourcePath(root, file) == root + "/" + file
  {
  }

  /** In a directory with a subdirectory the script renames a path that is
      not the listed file's: for `f.jpg` in `r`, which also holds `d`, it
      names `r/d/f.jpg` instead of `r/f.jpg`. */
  lemma SourcePathAsWrittenMisses()
    ensures SourcePathAsWritten("r", ["d"], "f.jpg") == "r/d/f.jpg"
    ensures SourcePath("r", "f.jpg") == "r/f.jpg"
  {
    assert JoinWith(["d"], '/') == "d";
    assert Join("r", "d") == "r/d";
  }

  /** `path.join(sitePath, str(year), str(month).zfill(2), newFile)` with the
      year and month of the shifted instant. */
  function Destination(site: string, t: int, newFile: string): Path
    requires InRange(t)
  {
    var dt := FromSeconds(t);
    Join(Join(Join(SitePath(site), Decimal(dt.year)), Pad(dt.month, 2)), newFile)
  }

  /** `path.replace('.jpg', '.meta')`: every ".jpg" in the path is replaced. */
  function MetaPath(image: Path): Path {
    ReplaceAll(image, ImageExtension, MetaExtension)
  }

  /** Which of the two files of an image are moved: both, or only the
      companion (`--meta-only`), or only the image (`--image-only`). */
  datatype Selector = Both | MetaOnly | ImageOnly

  /** The hidden switches `--meta-only`, `--image-only` and `--ignore-warning`. */
  datatype Switches = Switches(metaOnly: bool, imageOnly: bool, ignoreWarning: bool)

  /** The selection the loop runs with, as the script declares its options:
      the three switches form one mutually exclusive group, so giving two of
      them is an argument error, and without `--ignore-warning` the script
      prints its warning and exits.  `None`: the loop is never reached. */
  function SelectorAsWritten(sw: Switches): (r: Option<Selector>)
    ensures r.Some? <==> sw.ignoreWarning && !sw.metaOnly && !sw.imageOnly
  {
    var given := (if sw.metaOnly then 1 else 0) + (if sw.imageOnly then 1 else 0) + (if sw.ignoreWarning then 1 else 0);
    if given > 1 || !sw.ignoreWarning then None
    else Some(if sw.metaOnly then MetaOnly else if sw.imageOnly then ImageOnly else Both)
  }

  /** As declared, every run that reaches the loop moves both files: asking
      for `--meta-only` (or `--image-only`) together with `--ignore-warning`
      is refused, and asking for it alone stops at the warning. */
  lemma SelectorAlwaysBoth(sw: Switches)
    ensures SelectorAsWritten(sw).Some? ==> SelectorAsWritten(sw) == Some(Both)
    ensures SelectorAsWritten(Switches(true, false, true)) == None
    ensures SelectorAsWritten(Switches(true, false, false)) == None
  {
  }

  /** The evident intent: only `--meta-only` and `--image-only` exclude each
      other, and `--ignore-warning` may accompany either. */
  function SelectorIntended(sw: Switches): (r: Option<Selector>)
    ensures r.Some? <==> sw.ignoreWarning && !(sw.metaOnly && sw.imageOnly)
    ensures r.Some? ==> (r.value == MetaOnly <==> sw.metaOnly) && (r.value == ImageOnly <==> sw.imageOnly)
  {
    if (sw.metaOnly && sw.imageOnly) || !sw.ignoreWarning then None
    else Some(if sw.metaOnly then MetaOnly else if sw.imageOnly then ImageOnly else Both)
  }

  /** With the intended grouping every selection can be asked for. */
  lemma SelectorIntendedReachesAll(sel: Selector)
    ensures SelectorIntended(Switches(sel == MetaOnly, sel == ImageOnly, true)) == Some(sel)
  {
  }

  datatype Flags = Flags(dryRun: bool, overwrite: bool, selector: Selector)

  /** What happened to one of the two files of a relocated image. */
  datatype Move =
    | Moved           // renamed to its new path
    | SkippedDryRun   // would have been renamed
    | SkippedExists   // the new path is taken and overwriting is off
    | MissingSource   // the `.meta` companion does not exist
    | NotSelected     // excluded by `--meta-only` / `--image-only`

  /** What the loop did with one directory entry. */
  datatype Outcome =
    | NotCandidate    // not a JPEG, or a ROI / "cli" file
    | Unparsable      // the name does not follow the pattern
    | OutOfRange      // the timestamp is outside the date range
    | Overflow        // the shifted timestamp leaves years 1..9999
    | Relocated(oldImage: Path, newImage: Path, oldMeta: Path, newMeta: Path, image: Move, meta: Move)

  /** The image decision. */
  function ImageMove(flags: Flags, fs: FileSystem, newImage: Path): Move {
    if flags.selector != MetaOnly && (flags.overwrite || newImage !in fs) then
      (if !flags.dryRun then Moved else SkippedDryRun)
    else if flags.selector != MetaOnly then SkippedExists
    else NotSelected
  }

  /** The companion decision, taken after the image has been moved. */
  function MetaMove(flags: Flags, fs: FileSystem, oldMeta: Path, newMeta: Path): Move {
    if oldMeta in fs && flags.selector != ImageOnly && (flags.overwrite || newMeta !in fs) then
      (if !flags.dryRun then Moved else SkippedDryRun)
    else if oldMeta !in fs then MissingSource
    else if flags.selector != ImageOnly then SkippedExists
    else NotSelected
  }

  datatype StepResult = StepResult(outcome: Outcome, fs: FileSystem)

  /** The body of the loop for one file name `file` listed in directory `root`. */
  function Step(cfg: Config, flags: Flags, root: Path, file: string, fs: FileSystem): (r: StepResult)
    ensures r.outcome.NotCandidate? <==> !IsCandidate(file)
    ensures r.outcome.Unparsable? <==> IsCandidate(file) && Parse(cfg.site, file).None?
    ensures r.outcome.OutOfRange? <==>
      && IsCandidate(file) && Parse(cfg.site, file).Some?
      && !(cfg.startDate <= Parse(cfg.site, file).value <= cfg.endDate)
    ensures r.outcome.Overflow? <==>
      && IsCandidate(file) && Parse(cfg.site, file).Some?
      && cfg.startDate <= Parse(cfg.site, file).value <= cfg.endDate
      && Shift(Parse(cfg.site, file).value, cfg.delta).None?
    ensures r.outcome.Relocated? <==>
      && IsCandidate(file) && Parse(cfg.site, file).Some?
      && cfg.startDate <= Parse(cfg.site, file).value <= cfg.endDate
      && Shift(Parse(cfg.site, file).value, cfg.delta).Some?
    ensures r.outcome.Relocated? ==>
      && r.outcome.oldImage == SourcePath(root, file)
      && r.outcome.oldMeta == MetaPath(r.outcome.oldImage)
      && r.outcome.newMeta == MetaPath(r.outcome.newImage)
    ensures !r.outcome.Relocated? || flags.dryRun ==> r.fs == fs
    ensures fs - {SourcePath(root, file), MetaPath(SourcePath(root, file))} <= r.fs
    ensures r.outcome.Relocated? ==> r.fs <= fs + {r.outcome.newImage, r.outcome.newMeta}
  {
    if !IsCandidate(file) then StepResult(NotCandidate, fs)
    else
      match Parse(cfg.site, file)
      case None => StepResult(Unparsable, fs)
      case Some(t) =>
        if !(cfg.startDate <= t <= cfg.endDate) then StepResult(OutOfRange, fs)
        else
          match Shift(t, cfg.delta)
          case None => StepResult(Overflow, fs)
          case Some(t') =>
            Transfer(flags, SourcePath(root, file), Destination(cfg.site, t', Render(cfg.site, HasIR(file), t')), fs)
  }

  /** Moves the image at `oldImage` to `newImage`, then its companion. */
  function Transfer(flags: Flags, oldImage: Path, newImage: Path, fs: FileSystem): (r: StepResult)
    ensures r.outcome.Relocated? && r.outcome.oldImage == oldImage && r.outcome.newImage == newImage
    ensures r.outcome.oldMeta == MetaPath(oldImage) && r.outcome.newMeta == MetaPath(newImage)
    ensures flags.dryRun ==> r.fs == fs
    ensures fs - {oldImage, MetaPath(oldImage)} <= r.fs
    ensures r.fs <= fs + {newImage, MetaPath(newImage)}
  {
    var oldMeta := MetaPath(oldImage);
    var newMeta := MetaPath(newImage);
    var image := ImageMove(flags, fs, newImage);
    var fs1 := if image == Moved then Rename(fs, oldImage, newImage) else fs;
    var meta := MetaMove(flags, fs1, oldMeta, newMeta);
    var fs2 := if meta == Moved then Rename(fs1, oldMeta, newMeta) else fs1;
    StepResult(Relocated(oldImage, newImage, oldMeta, newMeta, image, meta), fs2)
  }

  // ---------------------------------------------------------------------
  // Paths

  lemma JoinEndsWith(a: Path, b: string)
    ensures EndsWith(Join(a, b), b)
  {
    var j := Join(a, b);
    assert j[|j| - |b|..] == b;
  }

  lemma EndsWithTrans(s: string, m: string, p: string)
    requires EndsWith(s, m) && EndsWith(m, p)
    ensures EndsWith(s, p)
  {
    assert s[|s| - |p|..] == s[|s| - |m|..][|m| - |p|..];
  }

  /** An image path and a companion path are never the same path. */
  lemma ImageIsNotMeta(x: Path, y: Path)
    requires EndsWith(x, ImageExtension) && EndsWith(y, MetaExtension)
    ensures x != y
  {
    assert x[|x| - 1] == ImageExtension[3];
    assert y[|y| - 1] == MetaExtension[4];
  }

  /** The listed path of a candidate is a JPEG path. */
  lemma SourceIsImage(root: Path, file: string)
    requires IsCandidate(file)
    ensures EndsWith(SourcePath(root, file), ImageExtension)
  {
    JoinEndsWith(Join(root, ""), file);
    EndsWithTrans(SourcePath(root, file), file, ImageExtension);
  }

  /** The destination of a JPEG name is a JPEG path. */
  lemma DestinationIsImage(site: string, t: int, newFile: string)
    requires InRange(t) && EndsWith(newFile, ImageExtension)
    ensures EndsWith(Destination(site, t, newFile), ImageExtension)
  {
    var dt := FromSeconds(t);
    JoinEndsWith(Join(Join(SitePath(site), Decimal(dt.year)), Pad(dt.month, 2)), newFile);
    EndsWithTrans(Destination(site, t, newFile), newFile, ImageExtension);
  }

  lemma RenderEndsWithJpg(site: string, ir: bool, t: int)
    requires InRange(t)
    ensures EndsWith(Render(site, ir, t), ImageExtension)
  {
    var r := Render(site, ir, t);
    assert r[|r| - 4..] == ImageExtension;
  }

  /** Different names listed in one directory are different paths, as long as
      names hold no slash (as directory listings never do). */
  lemma SourcePathInjective(root: Path, f: string, g: string)
    requires |f| > 0 && |g| > 0 && '/' !in f && '/' !in g
    requires SourcePath(root, f) == SourcePath(root, g)
    ensures f == g
  {
    assert f[0] != '/' && g[0] != '/';
    var base := if root == "" || root[|root| - 1] == '/' then root else root + "/";
    assert SourcePath(root, f) == base + f;
    assert SourcePath(root, g) == base + g;
    assert f == (base + f)[|base|..];
    assert g == (base + g)[|base|..];
  }

  /** Joining two plain components puts one slash between them. */
  lemma JoinPlain(a: Path, b: string)
    requires |a| > 0 && a[|a| - 1] != '/' && |b| > 0 && b[0] != '/'
    ensures Join(a, b) == a + "/" + b
  {
  }

  /** For a site name without slashes, a new image lands in
      `ARCHIVE/site/<year>/<month, two digits>/`, the year unpadded. */
  lemma DestinationLayout(site: string, t: int, newFile: string)
    requires |site| > 0 && '/' !in site && InRange(t)
    requires |newFile| > 0 && newFile[0] != '/'
    ensures var dt := FromSeconds(t);
      Destination(site, t, newFile)
        == Archive + site + "/" + Decimal(dt.year) + "/" + Pad(dt.month, 2) + "/" + newFile
  {
    var dt := FromSeconds(t);
    var year, month := Decimal(dt.year), Pad(dt.month, 2);
    assert site[0] != '/' && site[|site| - 1] != '/';
    var a := Archive + site;
    assert SitePath(site) == a;
    JoinPlain(a, year);
    var b := a + "/" + year;
    JoinPlain(b, month);
    var c := b + "/" + month;
    JoinPlain(c, newFile);
  }

  // ---------------------------------------------------------------------
  // One file

  /** A relocated image is handed to `Transfer` with its listed path and its
      destination, both JPEG paths. */
  lemma StepTransfers(cfg: Config, flags: Flags, root: Path, file: string, fs: FileSystem)
    requires Step(cfg, flags, root, file, fs).outcome.Relocated?
    ensures var t' := Shift(Parse(cfg.site, file).value, cfg.delta).value;
      && var newImage := Destination(cfg.site, t', Render(cfg.site, HasIR(file), t'));
      && Step(cfg, flags, root, file, fs) == Transfer(flags, SourcePath(root, file), newImage, fs)
      && EndsWith(SourcePath(root, file), ImageExtension)
      && EndsWith(newImage, ImageExtension)
  {
    var t := Parse(cfg.site, file).value;
    assert IsCandidate(file) && cfg.startDate <= t <= cfg.endDate && Shift(t, cfg.delta).Some?;
    var t' := Shift(t, cfg.delta).value;
    RenderEndsWithJpg(cfg.site, HasIR(file), t');
    SourceIsImage(root, file);
    DestinationIsImage(cfg.site, t', Render(cfg.site, HasIR(file), t'));
  }

  /** A relocated image gets the name of the shifted instant, in the same
      (infrared or visible) pattern, placed under the year and month of that
      instant. */
  lemma StepRenames(cfg: Config, flags: Flags, root: Path, file: string, fs: FileSystem)
    requires Step(cfg, flags, root, file, fs).outcome.Relocated?
    ensures var t' := Shift(Parse(cfg.site, file).value, cfg.delta).value;
      && var newFile := Render(cfg.site, HasIR(file), t');
      && Step(cfg, flags, root, file, fs).outcome.newImage == Destination(cfg.site, t', newFile)
      && HasIR(newFile) == HasIR(file)
      && Parse(cfg.site, newFile) == Some(t')
  {
    StepTransfers(cfg, flags, root, file, fs);
    RenameKeepsPattern(cfg.site, file, Shift(Parse(cfg.site, file).value, cfg.delta).value);
  }

  /** The four paths of a transfer of a JPEG: the companions are `.meta`
      paths, so neither rename can touch the other pair. */
  lemma TransferPathsDiffer(oldImage: Path, newImage: Path)
    requires EndsWith(oldImage, ImageExtension) && EndsWith(newImage, ImageExtension)
    ensures oldImage != MetaPath(oldImage) && oldImage != MetaPath(newImage)
    ensures newImage != MetaPath(oldImage) && newImage != MetaPath(newImage)
  {
    ReplaceJpgEndsWithMeta(oldImage);
    ReplaceJpgEndsWithMeta(newImage);
    ImageIsNotMeta(oldImage, MetaPath(oldImage));
    ImageIsNotMeta(oldImage, MetaPath(newImage));
    ImageIsNotMeta(newImage, MetaPath(oldImage));
    ImageIsNotMeta(newImage, MetaPath(newImage));
  }

  lemma TransferImageEffect(flags: Flags, oldImage: Path, newImage: Path, fs: FileSystem)
    requires EndsWith(oldImage, ImageExtension) && EndsWith(newImage, ImageExtension)
    ensures var r := Transfer(flags, oldImage, newImage, fs);
      var o := r.outcome;
      && (o.image == Moved <==> flags.selector != MetaOnly && !flags.dryRun && (flags.overwrite || newImage !in fs))
      && (o.image == SkippedExists <==> flags.selector != MetaOnly && !flags.overwrite && newImage in fs)
      && (o.image == NotSelected <==> flags.selector == MetaOnly)
      && (o.image == Moved ==> newImage in r.fs && (oldImage != newImage ==> oldImage !in r.fs))
      && (o.image != Moved ==> (oldImage in fs <==> oldImage in r.fs))
  {
    TransferPathsDiffer(oldImage, newImage);
  }

  lemma TransferMetaEffect(flags: Flags, oldImage: Path, newImage: Path, fs: FileSystem)
    requires EndsWith(oldImage, ImageExtension) && EndsWith(newImage, ImageExtension)
    ensures var r := Transfer(flags, oldImage, newImage, fs);
      var o := r.outcome;
      && (o.meta == Moved <==>
            o.oldMeta in fs && flags.selector != ImageOnly && !flags.dryRun && (flags.overwrite || o.newMeta !in fs))
      && (o.meta == MissingSource <==> o.oldMeta !in fs)
      && (o.meta == SkippedExists <==>
            o.oldMeta in fs && flags.selector != ImageOnly && !flags.overwrite && o.newMeta in fs)
      && (o.meta == NotSelected <==> o.oldMeta in fs && flags.selector == ImageOnly)
      && (o.meta == Moved ==> o.newMeta in r.fs && (o.oldMeta != o.newMeta ==> o.oldMeta !in r.fs))
      && (o.meta != Moved ==> (o.oldMeta in fs <==> o.oldMeta in r.fs))
  {
    TransferPathsDiffer(oldImage, newImage);
  }

  /** The image is moved exactly when it is selected, this is not a dry run,
      and either overwriting is on or its new path is free; once moved it is
      at its new path and no longer at its old one. */
  lemma StepImageEffect(cfg: Config, flags: Flags, root: Path, file: string, fs: FileSystem)
    requires Step(cfg, flags, root, file, fs).outcome.Relocated?
    ensures var r := Step(cfg, flags, root, file, fs);
      var o := r.outcome;
      && (o.image == Moved <==> flags.selector != MetaOnly && !flags.dryRun && (flags.overwrite || o.newImage !in fs))
      && (o.image == SkippedExists <==> flags.selector != MetaOnly && !flags.overwrite && o.newImage in fs)
      && (o.image == NotSelected <==> flags.selector == MetaOnly)
      && (o.image == Moved ==> o.newImage in r.fs && (o.oldImage != o.newImage ==> o.oldImage !in r.fs))
      && (o.image != Moved ==> (o.oldImage in fs <==> o.oldImage in r.fs))
  {
    StepTransfers(cfg, flags, root, file, fs);
    var t' := Shift(Parse(cfg.site, file).value, cfg.delta).value;
    TransferImageEffect(flags, SourcePath(root, file), Destination(cfg.site, t', Render(cfg.site, HasIR(file), t')), fs);
  }

  /** The companion decision, stated against the archive as it was before the
      image moved: moving the image never changes whether the companion
      exists or whether its new path is taken. */
  lemma StepMetaEffect(cfg: Config, flags: Flags, root: Path, file: string, fs: FileSystem)
    requires Step(cfg, flags, root, file, fs).outcome.Relocated?
    ensures var r := Step(cfg, flags, root, file, fs);
      var o := r.outcome;
      && (o.meta == Moved <==>
            o.oldMeta in fs && flags.selector != ImageOnly && !flags.dryRun && (flags.overwrite || o.newMeta !in fs))
      && (o.meta == MissingSource <==> o.oldMeta !in fs)
      && (o.meta == SkippedExists <==>
            o.oldMeta in fs && flags.selector != ImageOnly && !flags.overwrite && o.newMeta in fs)
      && (o.meta == NotSelected <==> o.oldMeta in fs && flags.selector == ImageOnly)
      && (o.meta == Moved ==> o.newMeta in r.fs && (o.oldMeta != o.newMeta ==> o.oldMeta !in r.fs))
      && (o.meta != Moved ==> (o.oldMeta in fs <==> o.oldMeta in r.fs))
  {
    StepTransfers(cfg, flags, root, file, fs);
    var t' := Shift(Parse(cfg.site, file).value, cfg.delta).value;
    TransferMetaEffect(flags, SourcePath(root, file), Destination(cfg.site, t', Render(cfg.site, HasIR(file), t')), fs);
  }

  /** Without `--overwrite` a transfer never replaces a file, so the number
      of files stays the same. */
  lemma TransferKeepsCount(flags: Flags, oldImage: Path, newImage: Path, fs: FileSystem)
    requires !flags.overwrite && oldImage in fs
    requires EndsWith(oldImage, ImageExtension) && EndsWith(newImage, ImageExtension)
    ensures |Transfer(flags, oldImage, newImage, fs).fs| == |fs|
  {
    TransferPathsDiffer(oldImage, newImage);
    var oldMeta, newMeta := MetaPath(oldImage), MetaPath(newImage);
    var image := ImageMove(flags, fs, newImage);
    var fs1 := if image == Moved then Rename(fs, oldImage, newImage) else fs;
    if image == Moved {
      assert fs1 == fs - {oldImage} + {newImage};
      assert |fs - {oldImage}| == |fs| - 1;
    }
    var meta := MetaMove(flags, fs1, oldMeta, newMeta);
    if meta == Moved {
      assert |fs1 - {oldMeta}| == |fs1| - 1;
    }
  }

  /** Without `--overwrite` no file is ever replaced, so the number of files
      in the archive stays the same (the listed image itself being present). */
  lemma StepKeepsCount(cfg: Config, flags: Flags, root: Path, file: string, fs: FileSystem)
    requires !flags.overwrite
    requires IsCandidate(file) ==> SourcePath(root, file) in fs
    ensures |Step(cfg, flags, root, file, fs).fs| == |fs|
  {
    if Step(cfg, flags, root, file, fs).outcome.Relocated? {
      StepTransfers(cfg, flags, root, file, fs);
      var t' := Shift(Parse(cfg.site, file).value, cfg.delta).value;
      TransferKeepsCount(flags, SourcePath(root, file), Destination(cfg.site, t', Render(cfg.site, HasIR(file), t')), fs);
    }
  }

  /** Processing one name leaves every other listed image where it was. */
  lemma StepKeepsOtherSource(cfg: Config, flags: Flags, root: Path, file: string, g: string, fs: FileSystem)
    requires '/' !in file && '/' !in g && file != g && IsCandidate(g)
    requires SourcePath(root, g) in fs
    ensures SourcePath(root, g) in Step(cfg, flags, root, file, fs).fs
  {
    if IsCandidate(file) {
      assert |file| > 0 && |g| > 0;
      if SourcePath(root, g) == SourcePath(root, file) {
        SourcePathInjective(root, g, file);
      }
      SourceIsImage(root, file);
      SourceIsImage(root, g);
      ReplaceJpgEndsWithMeta(SourcePath(root, file));
      ImageIsNotMeta(SourcePath(root, g), MetaPath(SourcePath(root, file)));
    }
  }

  /** Running the step backwards, with the opposite offset, on the new name
      gives back the original name. */
  lemma RenameIsReversible(site: string, file: string, delta: int, t': int)
    requires Parse(site, file).Some? && Shift(Parse(site, file).value, delta) == Some(t')
    ensures var newFile := Render(site, HasIR(file), t');
      && Parse(site, newFile) == Some(t')
      && Shift(t', -delta) == Parse(site, file)
      && Render(site, HasIR(newFile), Parse(site, file).value) == file
  {
    RenameKeepsPattern(site, file, t');
    ShiftUndo(Parse(site, file).value, delta);
    RenderParse(site, file);
  }

  /** The end date is midnight of its day: an image taken later that same
      day is out of range and left alone. */
  lemma EndDayAfterMidnightExcluded(cfg: Config, flags: Flags, root: Path, file: string, fs: FileSystem)
    requires IsCandidate(file) && ParseDateTime(cfg.site, file).Some?
    requires var dt := ParseDateTime(cfg.site, file).value;
      && cfg.endDate == ToSeconds(DateTime(dt.year, dt.month, dt.day, 0, 0, 0))
      && (dt.hour, dt.minute, dt.second) != (0, 0, 0)
    ensures Step(cfg, flags, root, file, fs) == StepResult(OutOfRange, fs)
  {
    var dt := ParseDateTime(cfg.site, file).value;
    LaterSameDay(dt);
    assert Parse(cfg.site, file) == Some(ToSeconds(dt));
  }

  // ---------------------------------------------------------------------
  // One directory

  datatype RunResult = RunResult(fs: FileSystem, outcomes: seq<Outcome>, aborted: bool)

  /** The paths a run over `files` may take away: each listed image and its
      companion. */
  function Sources(root: Path, files: seq<string>): set<Path> {
    (set f | f in files :: SourcePath(root, f)) + (set f | f in files :: MetaPath(SourcePath(root, f)))
  }

  /** The loop over the (already sorted) names of one leaf directory. An
      `OverflowError` raised by the shift ends the whole script: the names
      after it are not processed. */
  function Run(cfg: Config, flags: Flags, root: Path, files: seq<string>, fs: FileSystem): (r: RunResult)
    ensures |r.outcomes| <= |files|
    ensures !r.aborted ==> |r.outcomes| == |files|
    decreases |files|
  {
    if files == [] then RunResult(fs, [], false)
    else
      var s := Step(cfg, flags, root, files[0], fs);
      if s.outcome.Overflow? then RunResult(s.fs, [Overflow], true)
      else
        var rest := Run(cfg, flags, root, files[1..], s.fs);
        RunResult(rest.fs, [s.outcome] + rest.outcomes, rest.aborted)
  }

  /** No overflow among the outcomes. */
  predicate NoOverflow(outcomes: seq<Outcome>) {
    forall k | 0 <= k < |outcomes| :: !outcomes[k].Overflow?
  }

  lemma NoOverflowCons(o: Outcome, rest: seq<Outcome>)
    ensures NoOverflow([o] + rest) <==> !o.Overflow? && NoOverflow(rest)
  {
    var os := [o] + rest;
    if NoOverflow(os) {
      assert os[0] == o;
      forall k | 0 <= k < |rest|
        ensures !rest[k].Overflow?
      {
        assert rest[k] == os[k + 1];
      }
    }
    if !o.Overflow? && NoOverflow(rest) {
      forall k | 0 <= k < |os|
        ensures !os[k].Overflow?
      {
        if k > 0 { assert os[k] == rest[k - 1]; }
      }
    }
  }

  /** The shape of a run's report over `n` names: complete and free of
      overflows when not aborted, and otherwise ended by its only overflow. */
  predicate StopsAtOverflow(outcomes: seq<Outcome>, n: nat, aborted: bool) {
    && (!aborted <==> |outcomes| == n && NoOverflow(outcomes))
    && (aborted ==>
          && |outcomes| > 0 && outcomes[|outcomes| - 1].Overflow?
          && NoOverflow(outcomes[..|outcomes| - 1]))
  }

  lemma StopsAtOverflowCons(o: Outcome, os: seq<Outcome>, n: nat, aborted: bool)
    requires !o.Overflow? && StopsAtOverflow(os, n, aborted)
    ensures StopsAtOverflow([o] + os, n + 1, aborted)
  {
    NoOverflowCons(o, os);
    if aborted {
      var m := |os|;
      assert ([o] + os)[..m] == [o] + os[..m - 1];
      NoOverflowCons(o, os[..m - 1]);
    }
  }

  /** A run processes every name unless a shift overflows, and an overflow
      is always the last thing it reports. */
  lemma {:induction false} RunStopsAtOverflow(cfg: Config, flags: Flags, root: Path, files: seq<string>, fs: FileSystem)
    ensures var r := Run(cfg, flags, root, files, fs);
      StopsAtOverflow(r.outcomes, |files|, r.aborted)
    decreases |files|
  {
    if files != [] {
      var r := Run(cfg, flags, root, files, fs);
      var s := Step(cfg, flags, root, files[0], fs);
      if s.outcome.Overflow? {
        assert r.outcomes == [Overflow] && r.aborted;
        assert !NoOverflow([Overflow]) by { assert [Overflow][0].Overflow?; }
        assert [Overflow][..0] == [];
      } else {
        var rest := Run(cfg, flags, root, files[1..], s.fs);
        assert r.outcomes == [s.outcome] + rest.outcomes && r.aborted == rest.aborted;
        RunStopsAtOverflow(cfg, flags, root, files[1..], s.fs);
        StopsAtOverflowCons(s.outcome, rest.outcomes, |files[1..]|, rest.aborted);
      }
    }
  }

  /** The run reports, name by name, exactly the names that are not
      candidates as skipped for that reason. */
  lemma {:induction false} RunSkipsNonCandidates(cfg: Config, flags: Flags, root: Path, files: seq<string>, fs: FileSystem)
    ensures var r := Run(cfg, flags, root, files, fs);
      forall k | 0 <= k < |r.outcomes| :: r.outcomes[k].NotCandidate? <==> !IsCandidate(files[k])
    decreases |files|
  {
    if files != [] {
      var s := Step(cfg, flags, root, files[0], fs);
      if !s.outcome.Overflow? {
        var rest := Run(cfg, flags, root, files[1..], s.fs);
        RunSkipsNonCandidates(cfg, flags, root, files[1..], s.fs);
        var r := Run(cfg, flags, root, files, fs);
        assert r.outcomes == [s.outcome] + rest.outcomes;
        forall k | 0 <= k < |r.outcomes|
          ensures r.outcomes[k].NotCandidate? <==> !IsCandidate(files[k])
        {
          if k > 0 {
            assert r.outcomes[k] == rest.outcomes[k - 1];
            assert files[k] == files[1..][k - 1];
          }
        }
      }
    }
  }

  /** A dry run leaves the archive exactly as it was. */
  lemma {:induction false} RunDryRun(cfg: Config, flags: Flags, root: Path, files: seq<string>, fs: FileSystem)
    requires flags.dryRun
    ensures Run(cfg, flags, root, files, fs).fs == fs
    decreases |files|
  {
    if files != [] {
      var s := Step(cfg, flags, root, files[0], fs);
      if !s.outcome.Overflow? {
        RunDryRun(cfg, flags, root, files[1..], s.fs);
      }
    }
  }

  /** A run only takes away listed images and their companions. */
  lemma {:induction false} RunOnlyRemovesSources(cfg: Config, flags: Flags, root: Path, files: seq<string>, fs: FileSystem)
    ensures fs - Sources(root, files) <= Run(cfg, flags, root, files, fs).fs
    decreases |files|
  {
    if files != [] {
      var s := Step(cfg, flags, root, files[0], fs);
      if !s.outcome.Overflow? {
        RunOnlyRemovesSources(cfg, flags, root, files[1..], s.fs);
        forall p | p in fs - Sources(root, files)
          ensures p in Run(cfg, flags, root, files, fs).fs
        {
          assert files[0] in files;
          assert p in s.fs;
          assert p !in Sources(root, files[1..]);
        }
      }
    }
  }

  /** The paths the relocated outcomes of a report move files to. */
  function Arrivals(outcomes: seq<Outcome>): set<Path> {
    if outcomes == [] then {}
    else
      (if outcomes[0].Relocated? then {outcomes[0].newImage, outcomes[0].newMeta} else {})
      + Arrivals(outcomes[1..])
  }

  /** A run only adds files at the destinations it reports. */
  lemma {:induction false} RunOnlyAddsArrivals(cfg: Config, flags: Flags, root: Path, files: seq<string>, fs: FileSystem)
    ensures var r := Run(cfg, flags, root, files, fs);
      r.fs <= fs + Arrivals(r.outcomes)
    decreases |files|
  {
    if files != [] {
      var r := Run(cfg, flags, root, files, fs);
      var s := Step(cfg, flags, root, files[0], fs);
      if s.outcome.Overflow? {
        assert r.fs == fs;
      } else {
        var rest := Run(cfg, flags, root, files[1..], s.fs);
        RunOnlyAddsArrivals(cfg, flags, root, files[1..], s.fs);
        var os := [s.outcome] + rest.outcomes;
        assert r.outcomes == os && r.fs == rest.fs;
        assert os[0] == s.outcome && os[1..] == rest.outcomes;
        assert Arrivals(os) == (if s.outcome.Relocated? then {s.outcome.newImage, s.outcome.newMeta} else {}) + Arrivals(rest.outcomes);
      }
    }
  }

  predicate Distinct(files: seq<string>) {
    forall i, j | 0 <= i < j < |files| :: files[i] != files[j]
  }

  /** Without `--overwrite`, a run over a directory listing (distinct names
      without slashes, every listed image present) ends with as many files
      as it started with. */
  lemma {:induction false} RunPreservesCount(cfg: Config, flags: Flags, root: Path, files: seq<string>, fs: FileSystem)
    requires !flags.overwrite && Distinct(files)
    requires forall k | 0 <= k < |files| :: '/' !in files[k]
    requires forall k | 0 <= k < |files| :: IsCandidate(files[k]) ==> SourcePath(root, files[k]) in fs
    ensures |Run(cfg, flags, root, files, fs).fs| == |fs|
    decreases |files|
  {
    if files != [] {
      var s := Step(cfg, flags, root, files[0], fs);
      StepKeepsCount(cfg, flags, root, files[0], fs);
      if !s.outcome.Overflow? {
        var rest := files[1..];
        forall k | 0 <= k < |rest| && IsCandidate(rest[k])
          ensures SourcePath(root, rest[k]) in s.fs
        {
          assert rest[k] == files[k + 1];
          StepKeepsOtherSource(cfg, flags, root, files[0], rest[k], fs);
        }
        RunPreservesCount(cfg, flags, root, rest, s.fs);
      }
    }
  }
}
