# PhenoCam timestamp offset: a Dafny model

The PhenoCam archive stores camera images under
`/projects/phenocam/data/archive/<site>/<year>/<month>/`. Each image is named
after the instant it was taken: `<site>_%Y_%m_%d_%H%M%S.jpg` for visible-light
images and `<site>_IR_%Y_%m_%d_%H%M%S.jpg` for infrared ones. Next to each image
sits a `.meta` companion. When a camera's clock was set to the wrong time zone,
`dateOffset.py` shifts a date range of a site's images by a fixed `HH:MM`
offset. Each image is renamed to the shifted instant and moved into the year
and month directory of that instant, together with its companion.
`phenoMask.py` is the start of a reusable version of the same job. A mask is an
ordered collection of image records, each with an original and a final path
and a time. Masks can be united, subtracted and sorted. A mask can report the
records whose move would land on an existing file, and can move every record.

The model is functional. An instant is a whole number of seconds since
0001-01-01 00:00:00 in the proleptic Gregorian calendar, limited to the range
Python's `datetime` can hold (years 1 to 9999). The archive is the set of paths
it contains, and a rename is a set update. The modules are:

- `Wrappers`: `Option` and `Result`.
- `Text`: the string operations the scripts use. These are suffix and
  substring tests, `str.replace`, the digit fields of `strptime`/`strftime`,
  `int()` and `str.split`.
- `Calendar`: day counts, conversion of a date-time to seconds and back, and
  the range-checked shift (`datetime + timedelta`).
- `Files`: the archive as a set of paths, and `os.rename`. Both scripts use it.
- `Dates`: reading a `%Y-%m-%d` date as midnight of that day. Both scripts use it.
- `FileName`: which names are candidates, the choice of the infrared pattern
  by the substring "IR", and reading and writing the fixed-width timestamp
  in a name.
- `Arguments`: the start/end check of the date arguments, and the offset
  argument.
- `Relocate`: the loop body for one file name (the image and `.meta` decisions
  with their flags), and the loop over the names of one directory.
- `PhenoImage`: the `_phenoImage` record.
- `PhenoMask`: the `phenoMask` class.

## Model

| member | source | states |
|---|---|---|
| Dates.ParseDateText | dateOffset.py:66-68 | A `YYYY-MM-DD` argument is read as midnight of that date; a date that does not exist (February 30, month 13) is refused |
| Arguments.Configure | dateOffset.py:66-78 | The run is configured exactly when both dates parse, the start is not after the end, and the offset gives a delta within `timedelta`'s range. Each refusal is stated iff: an unreadable date; a start after the end (both dates readable); an unreadable offset (`ValueError`, dates readable and in order); and an offset whose fields read but whose delta exceeds 999999999 days (`OverflowError`) |
| Arguments.OffsetFirstCharIgnored | dateOffset.py:76 | The first character of the offset is dropped unread, so `+08:00`, `-08:00` and `x08:00` give the same delta |
| Arguments.NegativeFlipsDelta | dateOffset.py:74-78 | `--negative` negates the whole delta. Each direction is accepted exactly when the other direction's delta, negated, is within `timedelta`'s range |
| Arguments.NegativeMayOverflow | dateOffset.py:74-78 | `timedelta`'s range reaches one day further forward than back, so an offset of 23999999977 hours is accepted as given and overflows with `--negative` |
| Arguments.DeltaOfFields | dateOffset.py:78 | Hours `h` and minutes `m` give a delta of `d = sign * (h * 3600 + m * 60)` seconds exactly when `-999999999` days `<= d <` `1000000000` days (`timedelta` rounds down to whole days); outside that range there is no delta (the `OverflowError`) |
| Arguments.CanonicalOffset | dateOffset.py:74-78 | The argument `+HH:MM` gives `sign * (HH * 3600 + MM * 60)` seconds |
| Calendar.FromToSeconds | dateOffset.py:108 | Converting a valid date-time to seconds and back gives the same date-time |
| Calendar.ToSecondsInjective | dateOffset.py:106 | Distinct valid date-times are distinct instants |
| Calendar.ToSecondsMonotone | dateOffset.py:106 | One valid date-time comes before another field by field, most significant first, exactly when its instant is smaller. So the range test on instants is the script's `datetime` comparison |
| Calendar.Shift | dateOffset.py:108 | Adding the delta succeeds exactly when `t + delta` is an instant `datetime` can hold, and then yields that instant. Otherwise it fails (the `OverflowError`) |
| Calendar.ShiftUndo | dateOffset.py:108-110 | Shifting by `-delta` after shifting by `delta` restores the original instant (the "Original" the script prints) |
| FileName.RenderParse | dateOffset.py:96-100 | Every accepted name is reproduced exactly when the instant it denotes is written with the same pattern |
| FileName.ParseRender | dateOffset.py:112-115 | A name written for an instant is read back as that instant, when the "IR" test picks the pattern it was written with |
| FileName.RenameKeepsPattern | dateOffset.py:97-100 | A new name keeps the old name's infrared/visible choice, and is read back as the instant it shows |
| FileName.InvalidStampRejected | dateOffset.py:96-104 | A name whose fields do not form a real date-time is refused under either pattern |
| FileName.VisibleNamesOfIRSiteRejected | dateOffset.py:97-100 | For a site whose own name contains "IR", no visible-light name is ever accepted |
| Relocate.Step | dateOffset.py:94-146 | Each outcome is stated iff. A name is a non-candidate exactly when it does not end in `.jpg` or contains "ROI" or "cli". A candidate is unparsable exactly when its name does not parse, and out of range exactly when it parses to an instant outside the window. It overflows exactly when it is in range but the shift fails, and it is relocated exactly when the shift succeeds. The old paths are the listed file and its companion. Nothing changes unless a file is relocated outside a dry run. Only the listed file and its companion can be removed, and only the new image and new companion can be added |
| Relocate.StepTransfers | dateOffset.py:117-122 | A relocated image moves from its listed path to its destination, and both are `.jpg` paths |
| Relocate.StepRenames | dateOffset.py:108-119 | The destination name is the shifted instant in the same pattern, under the year and month of that instant, and it reads back as the shifted instant |
| Relocate.DestinationLayout | dateOffset.py:119 | For a site name without slashes, the destination is `ARCHIVE/site/<year>/<two-digit month>/<name>`, with the year unpadded |
| Relocate.TransferPathsDiffer | dateOffset.py:121-122 | The companions are `.meta` paths, so neither image path is either companion path |
| Relocate.StepImageEffect | dateOffset.py:128-135 | The image is moved iff it is selected, this is not a dry run, and overwriting is on or its new path is free. It is skipped as existing iff selected with the new path taken and no overwrite. A moved image is at its new path and gone from its old one |
| Relocate.StepMetaEffect | dateOffset.py:137-146 | The companion is moved iff it exists, is selected, this is not a dry run, and overwriting is on or its new path is free. Each of the "not found", "already exists" and not-selected outcomes is stated iff against the archive before the image moved |
| Relocate.StepKeepsCount | dateOffset.py:127-146 | Without `--overwrite` no file is ever replaced, so the number of files stays the same |
| Relocate.StepKeepsOtherSource | dateOffset.py:117-140 | Processing one name never removes another listed image |
| Relocate.RenameIsReversible | dateOffset.py:106-115 | Applying the opposite offset to the new name gives back the original name |
| Relocate.EndDayAfterMidnightExcluded | dateOffset.py:106 | The end date means midnight, so an image taken later on the end day is out of range and left alone |
| Relocate.Run | dateOffset.py:91-92 | The loop reports at most one outcome per name, and one per name unless it stopped |
| Relocate.RunStopsAtOverflow | dateOffset.py:108 | The loop handles every name unless a shift overflows. An overflow is the last outcome reported, and no earlier outcome is one |
| Relocate.RunSkipsNonCandidates | dateOffset.py:92-94 | Name by name, the loop reports exactly the non-candidates as skipped for that reason |
| Relocate.RunDryRun | dateOffset.py:129-141 | A dry run leaves the archive exactly as it was |
| Relocate.RunOnlyRemovesSources | dateOffset.py:117-140 | A run removes only listed images and their companions |
| Relocate.RunOnlyAddsArrivals | dateOffset.py:117-146 | A run adds files only at the new image and companion paths it reports for relocated names |
| Relocate.RunPreservesCount | dateOffset.py:127-146 | Over a directory of distinct names whose candidates exist, a run without `--overwrite` keeps the number of files |
| Relocate.SelectorAlwaysBoth | dateOffset.py:45-62 | As the options are declared, every run that reaches the loop moves both files (see Findings) |
| Relocate.SelectorIntendedReachesAll | dateOffset.py:45-51 | With only `--meta-only` and `--image-only` excluding each other, every selection can be asked for together with `--ignore-warning` |
| Relocate.SourcePathAsWrittenMisses | dateOffset.py:117 | In a directory that has a subdirectory, the path the script renames is not the listed file's path (see Findings) |
| Relocate.SourcePathAsWrittenInLeaf | dateOffset.py:117 | In a directory with no subdirectories, the script's path is the listed file's own path |
| Relocate.SourcePathIsListedFile | dateOffset.py:117 | The source path is the directory, one separator and the listed name |
| PhenoImage.NewImage | phenoMask.py:16-19 | A new record has the given time and equal original and final paths, so it does not move |
| PhenoImage.Add | phenoMask.py:24-25 | `+ delta` moves the time forward by `delta` and changes nothing else |
| PhenoImage.Sub | phenoMask.py:27-28 | `- delta` moves the time back by `delta` and changes nothing else |
| PhenoImage.ShiftRoundTrip | phenoMask.py:24-28 | Adding and then subtracting the same delta, in either order, restores the record |
| PhenoImage.ShiftKeepsOrder | phenoMask.py:21-28 | Shifting two records by the same delta keeps their `<` order |
| PhenoMask.NewMask | phenoMask.py:35-59 | A mask is made exactly when both dates parse and the window does not end before it starts. The window runs from the start date plus the start time to the end date plus the end time. Unreadable dates and a window that ends before it starts are the two refusals, each stated iff. A new mask is empty and contiguous |
| PhenoMask.DefaultWindowCoversDays | phenoMask.py:35 | With the default times, a one-day mask is accepted and spans exactly one day |
| PhenoMask.LenCountsRecords | phenoMask.py:61-63 | For a duplicate-free mask the length is the number of distinct records |
| PhenoMask.Iterate | phenoMask.py:66-70 | Iteration yields the mask's records in order, as many as its length |
| PhenoMask.Union | phenoMask.py:72-77 | The union keeps the receiver's records as a prefix and holds the records of both masks. It is marked non-contiguous, keeps the site and window, and stays duplicate-free |
| PhenoMask.UnionAppendsNew | phenoMask.py:74-76 | What the union appends is exactly the other mask's records that the receiver lacks, in their order |
| PhenoMask.RemoveFirstIsWithout | phenoMask.py:83 | In a duplicate-free list, removing the first occurrence removes every occurrence |
| PhenoMask.Difference | phenoMask.py:79-84 | The difference keeps the site and window and is marked non-contiguous |
| PhenoMask.DifferenceKeepsSurvivors | phenoMask.py:79-84 | For a well-formed mask, the difference keeps exactly the records the other mask lacks, in their order, and stays duplicate-free |
| PhenoMask.Sort | phenoMask.py:86-90 | Sorting permutes the records into non-decreasing time and changes nothing else about the mask. A duplicate-free mask stays duplicate-free |
| PhenoMask.PermutationKeepsNoDup | phenoMask.py:86-90 | Any reordering of a duplicate-free list of records is duplicate-free |
| PhenoMask.SortIsStable | phenoMask.py:86-90 | Records with equal times keep their relative order |
| PhenoMask.Collisions | phenoMask.py:104-113 | The collisions are, in order, the records whose final path exists and is not some record's original path; nothing is moved |
| PhenoMask.MoveFiles | phenoMask.py:116-126 | A dry run returns -1 and changes nothing. Otherwise every record is renamed in order and 0 is returned |
| PhenoMask.MoveFilesByDefault | phenoMask.py:116 | `dryRun` defaults to true, so `moveFiles()` without arguments returns -1 and changes nothing |
| PhenoMask.NoOpRecordsIgnored | phenoMask.py:122-123 | Records whose two paths are equal play no part in a move |
| PhenoMask.MovesInOrder | phenoMask.py:121-123 | Moving in an order that vacates a path before reusing it removes exactly the moving records' original paths and adds exactly their final paths |
| PhenoMask.MoveFilesSafe | phenoMask.py:104-126 | Suppose every record's file exists, no two records share a path, the order vacates before it reuses, and the collision check finds nothing. Then the move replaces no file and the archive keeps its number of files |

## Left out

- The command line is taken as already-split arguments. This covers argument parsing, the required `--positive`/`--negative` group, the warning banner and exit, and `--verbose` printing. Printing has no effect on the archive. `Relocate.SelectorAsWritten` models only the part of the option declarations that decides the selection.
- `os.walk` over the whole site is not modelled. `Relocate.Run` is the loop over the sorted names of one leaf directory (one with no subdirectories). `Relocate.Step` renames `path.join(root, file)`, which equals the script's line-117 path only when `dirs` is empty (Relocate.SourcePathAsWrittenInLeaf); see Findings for other directories. Three consequences:
  - the order in which directories are visited is left out;
  - `dirs.sort()` is left out;
  - a file moved into a month directory that the walk has not reached yet would be listed and shifted a second time, and the model does not capture that.
- Directories are not modelled. A rename into a year or month directory that does not exist raises `FileNotFoundError` in Python; here it simply adds the path. Other `os.rename` failures and atomicity are also left out.
- FileName.ParseDateTime and Dates.ParseDate accept only the canonical spelling: zero-padded fields, ASCII digits and exact case. `strptime` also accepts one-digit fields, other Unicode digits and any case. With such input the model refuses names and arguments that the script accepts.
- FileName.Render writes `%Y` with four digits. For years below 1000, glibc's `strftime` writes fewer.
- Arguments.OffsetFields reads each piece with an optional sign and ASCII digits. `int()` also accepts surrounding whitespace and underscores between digits.
- Site names are used as literal text. A `%` in a site name would be a directive to `strptime`/`strftime`.
- Relocate.Step takes the flags as given. Dry run, overwrite and selector are independent parameters.
- PhenoMask: each mask owns its sequence of records. In the source, `maskedFiles` is a class attribute (line 32) shared by every mask, so `a - b` on two masks removes from the list it is iterating. Record identity is an explicit `id`, because the source compares records by object identity.
- PhenoMask.Union, PhenoMask.Difference and PhenoMask.Sort return the updated mask. The source mutates the receiver: `__add__` and `__sub__` return it, and `sort` returns `None`. PhenoImage.Add and PhenoImage.Sub return the updated record where the source mutates it and returns `None`.
- PhenoMask.NewMask takes the start and end times of day as seconds. The source passes them to `strptime`: line 44 is an unterminated string literal, and line 46 would be handed a `timedelta`. The datetime range limit of `startDate + startTime` is not checked.
- PhenoMask.Collisions takes the archive as a parameter, since `exists` and `oldPaths` are not defined in the source. The records' `oldPath`/`newPath` are their `originalFilePath`/`finalFilePath`.
- `moveFiles`' `pop` parameter is never read, so it is left out.
- `gather` (a body-less loop, a syntax error) and `apply` (a stub) have no behaviour to model.
- PhenoImage time arithmetic is unbounded. The `OverflowError` of `datetime + timedelta` is modelled only in the renaming script (Calendar.Shift).

## Findings

| source | as written | input that shows it | evidently intended | confidence | as-written member | corrected member |
|---|---|---|---|---|---|---|
| dateOffset.py:45-62 | `--ignore-warning` is declared in the same mutually exclusive group as `--meta-only` and `--image-only`, and the script exits unless `--ignore-warning` is given | `--meta-only --ignore-warning` is an argument error, and `--meta-only` alone stops at the warning, so the meta-only and image-only branches of lines 128-146 can never run | only `--meta-only` and `--image-only` exclude each other | medium, not executed | Relocate.SelectorAlwaysBoth | Relocate.SelectorIntendedReachesAll |
| dateOffset.py:117 | the old path is `path.join(root, '/'.join(dirs), file)`, which puts the names of the directory's subdirectories into it | `f.jpg` listed in `r`, which also holds directory `d`: the script renames `r/d/f.jpg` instead of `r/f.jpg` | `path.join(root, file)` | medium, not executed | Relocate.SourcePathAsWrittenMisses | Relocate.SourcePathIsListedFile |
