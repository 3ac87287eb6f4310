/** Image file names of the form `{site}_IR_%Y_%m_%d_%H%M%S.jpg` (infrared)
    or `{site}_%Y_%m_%d_%H%M%S.jpg` (visible), read and written in their
    canonical zero-padded spelling.  Which of the two patterns applies is
    decided by whether "IR" occurs anywhere in the name, and the same choice
    is used to read a name and to write its replacement. */
module FileName {
  import opened Wrappers
  import opened Text
  import opened Calendar

  const ImageExtension := ".jpg"

  /** The files the renaming loop looks at: JPEG images that are neither
      region-of-interest masks ("ROI") nor carry "cli" in their name. */
  predicate IsCandidate(file: string) {
    EndsWith(file, ImageExtension) && !Contains(file, "ROI") && !Contains(file, "cli")
  }

  /** The infrared pattern is used for any name containing "IR". */
  predicate HasIR(file: string) {
    Contains(file, "IR")
  }

  /** The literal text of the pattern before `%Y`. */
  function Prefix(site: string, ir: bool): string {
    if ir then site + "_IR_" else site + "_"
  }

  /** `%Y_%m_%d_%H%M%S` for fields already known to fit their widths. */
  function StampText(y: nat, mo: nat, d: nat, h: nat, mi: nat, s: nat): (r: string)
    requires y < 10000 && mo < 100 && d < 100 && h < 100 && mi < 100 && s < 100
    ensures |r| == 17
  {
    Pad(y, 4) + "_" + Pad(mo, 2) + "_" + Pad(d, 2) + "_" + Pad(h, 2) + Pad(mi, 2) + Pad(s, 2)
  }

  /** `strftime(dt, prefix + '%Y_%m_%d_%H%M%S.jpg')`. */
  function RenderDateTime(site: string, ir: bool, dt: DateTime): string
    requires Valid(dt)
  {
    Prefix(site, ir) + StampText(dt.year, dt.month, dt.day, dt.hour, dt.minute, dt.second) + ImageExtension
  }

  /** The name of the image taken at instant `t`. */
  function Render(site: string, ir: bool, t: int): string
    requires InRange(t)
  {
    RenderDateTime(site, ir, FromSeconds(t))
  }

  /** Reads the 17 characters `YYYY_mm_dd_HHMMSS`; fails on a misplaced
      separator, a non-digit, or fields that do not form a real date-time
      (month 13, February 30, second 60). */
  function ParseStamp(b: string): (r: Option<DateTime>)
    requires |b| == 17
    ensures r.Some? ==> Valid(r.value)
  {
    if AllDigits(b[0..4]) && b[4] == '_' && AllDigits(b[5..7]) && b[7] == '_'
       && AllDigits(b[8..10]) && b[10] == '_'
       && AllDigits(b[11..13]) && AllDigits(b[13..15]) && AllDigits(b[15..17])
    then
      var dt := DateTime(DigitsValue(b[0..4]), DigitsValue(b[5..7]), DigitsValue(b[8..10]),
                         DigitsValue(b[11..13]), DigitsValue(b[13..15]), DigitsValue(b[15..17]));
      if Valid(dt) then Some(dt) else None
    else None
  }

  /** `strptime(file, prefix + '%Y_%m_%d_%H%M%S.jpg')` with the prefix chosen
      by `HasIR(file)`; `None` is the `ValueError` the loop catches. */
  function ParseDateTime(site: string, file: string): (r: Option<DateTime>)
    ensures r.Some? ==> Valid(r.value)
  {
    var prefix := Prefix(site, HasIR(file));
    if |file| == |prefix| + 21 && file[..|prefix|] == prefix && file[|prefix| + 17..] == ImageExtension then
      ParseStamp(file[|prefix|..|prefix| + 17])
    else None
  }

  /** The instant a file name denotes, in seconds. */
  function Parse(site: string, file: string): (r: Option<int>)
    ensures r.Some? ==> InRange(r.value)
  {
    match ParseDateTime(site, file)
    case Some(dt) => Some(ToSeconds(dt))
    case None => None
  }

  // ---------------------------------------------------------------------
  // The fixed-width layout

  lemma StampTextPieces(y: nat, mo: nat, d: nat, h: nat, mi: nat, s: nat)
    requires y < 10000 && mo < 100 && d < 100 && h < 100 && mi < 100 && s < 100
    ensures var r := StampText(y, mo, d, h, mi, s);
      && r[0..4] == Pad(y, 4) && r[4] == '_' && r[5..7] == Pad(mo, 2) && r[7] == '_'
      && r[8..10] == Pad(d, 2) && r[10] == '_'
      && r[11..13] == Pad(h, 2) && r[13..15] == Pad(mi, 2) && r[15..17] == Pad(s, 2)
  {
    FieldPieces(Pad(y, 4), Pad(mo, 2), Pad(d, 2), Pad(h, 2), Pad(mi, 2), Pad(s, 2));
  }

  /** Where the six fields sit in `YYYY_mm_dd_HHMMSS`. */
  lemma FieldPieces(ys: string, mos: string, ds: string, hs: string, mis: string, ss: string)
    requires |ys| == 4 && |mos| == 2 && |ds| == 2 && |hs| == 2 && |mis| == 2 && |ss| == 2
    ensures var r := ys + "_" + mos + "_" + ds + "_" + hs + mis + ss;
      && r[0..4] == ys && r[4] == '_' && r[5..7] == mos && r[7] == '_'
      && r[8..10] == ds && r[10] == '_'
      && r[11..13] == hs && r[13..15] == mis && r[15..17] == ss
  {
    var r := ys + "_" + mos + "_" + ds + "_" + hs + mis + ss;
    assert r == ys + ['_'] + mos + ['_'] + ds + ['_'] + hs + mis + ss;
  }

  /** The stamp of a date-time is read back as that date-time when it is
      valid, and rejected when it is not. */
  lemma ParseStampText(y: nat, mo: nat, d: nat, h: nat, mi: nat, s: nat)
    requires y < 10000 && mo < 100 && d < 100 && h < 100 && mi < 100 && s < 100
    ensures ParseStamp(StampText(y, mo, d, h, mi, s))
         == (if Valid(DateTime(y, mo, d, h, mi, s)) then Some(DateTime(y, mo, d, h, mi, s)) else None)
  {
    StampTextPieces(y, mo, d, h, mi, s);
  }

  /** An accepted stamp is the stamp of the date-time read from it. */
  lemma StampTextOfParse(b: string)
    requires |b| == 17 && ParseStamp(b).Some?
    ensures var dt := ParseStamp(b).value;
      StampText(dt.year, dt.month, dt.day, dt.hour, dt.minute, dt.second) == b
  {
    PadDigitsValue(b[0..4]);
    PadDigitsValue(b[5..7]);
    PadDigitsValue(b[8..10]);
    PadDigitsValue(b[11..13]);
    PadDigitsValue(b[13..15]);
    PadDigitsValue(b[15..17]);
    var dt := ParseStamp(b).value;
    StampTextPieces(dt.year, dt.month, dt.day, dt.hour, dt.minute, dt.second);
    var r := StampText(dt.year, dt.month, dt.day, dt.hour, dt.minute, dt.second);
    SamePieces(r, b);
  }

  /** Two stamps that agree field by field and separator by separator are
      the same text. */
  lemma SamePieces(r: string, b: string)
    requires |r| == 17 && |b| == 17
    requires r[0..4] == b[0..4] && r[4] == b[4] && r[5..7] == b[5..7] && r[7] == b[7]
    requires r[8..10] == b[8..10] && r[10] == b[10]
    requires r[11..13] == b[11..13] && r[13..15] == b[13..15] && r[15..17] == b[15..17]
    ensures r == b
  {
    forall k | 0 <= k < 17
      ensures r[k] == b[k]
    {
      if k < 4 { assert r[k] == r[0..4][k] && b[k] == b[0..4][k]; }
      else if 5 <= k < 7 { assert r[k] == r[5..7][k - 5] && b[k] == b[5..7][k - 5]; }
      else if 8 <= k < 10 { assert r[k] == r[8..10][k - 8] && b[k] == b[8..10][k - 8]; }
      else if 11 <= k < 13 { assert r[k] == r[11..13][k - 11] && b[k] == b[11..13][k - 11]; }
      else if 13 <= k < 15 { assert r[k] == r[13..15][k - 13] && b[k] == b[13..15][k - 13]; }
      else if 15 <= k { assert r[k] == r[15..17][k - 15] && b[k] == b[15..17][k - 15]; }
    }
  }

  lemma NamePieces(prefix: string, stamp: string)
    requires |stamp| == 17
    ensures var name := prefix + stamp + ImageExtension;
      && |name| == |prefix| + 21
      && name[..|prefix|] == prefix
      && name[|prefix|..|prefix| + 17] == stamp
      && name[|prefix| + 17..] == ImageExtension
  {
  }

  // ---------------------------------------------------------------------
  // Round trips

  /** Every name the parser accepts is reproduced exactly by rendering the
      date-time it denotes with the same pattern. */
  lemma RenderParseDateTime(site: string, file: string)
    requires ParseDateTime(site, file).Some?
    ensures RenderDateTime(site, HasIR(file), ParseDateTime(site, file).value) == file
  {
    var prefix := Prefix(site, HasIR(file));
    var b := file[|prefix|..|prefix| + 17];
    assert ParseDateTime(site, file) == ParseStamp(b);
    StampTextOfParse(b);
    var dt := ParseStamp(b).value;
    NameOfPieces(prefix, file);
    assert RenderDateTime(site, HasIR(file), dt)
        == prefix + StampText(dt.year, dt.month, dt.day, dt.hour, dt.minute, dt.second) + ImageExtension;
  }

  /** A name with the pattern's prefix, 17 characters and the extension is
      those three pieces joined. */
  lemma NameOfPieces(prefix: string, file: string)
    requires |file| == |prefix| + 21 && file[..|prefix|] == prefix && file[|prefix| + 17..] == ImageExtension
    ensures file == prefix + file[|prefix|..|prefix| + 17] + ImageExtension
  {
    assert file == file[..|prefix|] + file[|prefix|..|prefix| + 17] + file[|prefix| + 17..];
  }

  /** Every name the parser accepts is reproduced exactly by rendering the
      instant it denotes with the same pattern. */
  lemma RenderParse(site: string, file: string)
    requires Parse(site, file).Some?
    ensures Render(site, HasIR(file), Parse(site, file).value) == file
  {
    var dt := ParseDateTime(site, file).value;
    FromToSeconds(dt);
    RenderParseDateTime(site, file);
  }

  lemma StampTextNoI(y: nat, mo: nat, d: nat, h: nat, mi: nat, s: nat)
    requires y < 10000 && mo < 100 && d < 100 && h < 100 && mi < 100 && s < 100
    ensures forall k | 0 <= k < |StampText(y, mo, d, h, mi, s) + ImageExtension| ::
              (StampText(y, mo, d, h, mi, s) + ImageExtension)[k] != 'I'
  {
    var st := StampText(y, mo, d, h, mi, s);
    var r := st + ImageExtension;
    StampTextPieces(y, mo, d, h, mi, s);
    forall k | 0 <= k < |r|
      ensures r[k] != 'I'
    {
      if k < 4 { assert r[k] == st[0..4][k]; }
      else if 5 <= k < 7 { assert r[k] == st[5..7][k - 5]; }
      else if 8 <= k < 10 { assert r[k] == st[8..10][k - 8]; }
      else if 11 <= k < 13 { assert r[k] == st[11..13][k - 11]; }
      else if 13 <= k < 15 { assert r[k] == st[13..15][k - 13]; }
      else if 15 <= k < 17 { assert r[k] == st[15..17][k - 15]; }
    }
  }

  /** Whether a rendered name contains "IR" depends only on the pattern
      prefix, never on the date-time written after it. */
  lemma RenderHasIR(site: string, ir: bool, dt: DateTime)
    requires Valid(dt)
    ensures HasIR(RenderDateTime(site, ir, dt)) == Contains(Prefix(site, ir), "IR")
  {
    StampTextNoI(dt.year, dt.month, dt.day, dt.hour, dt.minute, dt.second);
    var tail := StampText(dt.year, dt.month, dt.day, dt.hour, dt.minute, dt.second) + ImageExtension;
    assert RenderDateTime(site, ir, dt) == Prefix(site, ir) + tail;
    ContainsIRUnchanged(Prefix(site, ir), tail);
  }

  /** A rendered name is read back as the date-time it was rendered from,
      provided the "IR" test picks the pattern it was rendered with. */
  lemma ParseRenderDateTime(site: string, ir: bool, dt: DateTime)
    requires Valid(dt) && HasIR(RenderDateTime(site, ir, dt)) == ir
    ensures ParseDateTime(site, RenderDateTime(site, ir, dt)) == Some(dt)
  {
    var stamp := StampText(dt.year, dt.month, dt.day, dt.hour, dt.minute, dt.second);
    NamePieces(Prefix(site, ir), stamp);
    ParseStampText(dt.year, dt.month, dt.day, dt.hour, dt.minute, dt.second);
  }

  /** A rendered name is read back as the instant it was rendered from,
      provided the "IR" test picks the pattern it was rendered with. */
  lemma ParseRender(site: string, ir: bool, t: int)
    requires InRange(t) && HasIR(Render(site, ir, t)) == ir
    ensures Parse(site, Render(site, ir, t)) == Some(t)
  {
    ParseRenderDateTime(site, ir, FromSeconds(t));
  }

  /** Renaming keeps the pattern: a parsed name and any re-rendering of it
      with the same choice agree on whether they contain "IR", so the new
      name parses back, with the same pattern, to the instant it shows. */
  lemma RenameKeepsPattern(site: string, file: string, t': int)
    requires Parse(site, file).Some? && InRange(t')
    ensures HasIR(Render(site, HasIR(file), t')) == HasIR(file)
    ensures Parse(site, Render(site, HasIR(file), t')) == Some(t')
  {
    var ir := HasIR(file);
    var dt := ParseDateTime(site, file).value;
    RenderParseDateTime(site, file);
    RenderHasIR(site, ir, dt);
    RenderHasIR(site, ir, FromSeconds(t'));
    ParseRender(site, ir, t');
  }

  // ---------------------------------------------------------------------
  // Names that are skipped

  /** A name whose digit fields do not form a real date-time (February 30,
      month 13, second 60, year 0) is never accepted, whichever pattern the
      "IR" test picks. */
  lemma InvalidStampRejected(site: string, ir: bool, y: nat, mo: nat, d: nat, h: nat, mi: nat, s: nat)
    requires y < 10000 && mo < 100 && d < 100 && h < 100 && mi < 100 && s < 100
    requires !Valid(DateTime(y, mo, d, h, mi, s))
    ensures Parse(site, Prefix(site, ir) + StampText(y, mo, d, h, mi, s) + ImageExtension).None?
  {
    var stamp := StampText(y, mo, d, h, mi, s);
    var name := Prefix(site, ir) + stamp + ImageExtension;
    NamePieces(Prefix(site, ir), stamp);
    ParseStampText(y, mo, d, h, mi, s);
    if HasIR(name) != ir {
      assert |Prefix(site, HasIR(name))| != |Prefix(site, ir)|;
    }
  }

  /** For a site whose own name contains "IR", the "IR" test always picks
      the infrared pattern, so its visible-light images are never accepted. */
  lemma VisibleNamesOfIRSiteRejected(site: string, stamp: string)
    requires Contains(site, "IR") && |stamp| == 17
    ensures Parse(site, site + "_" + stamp + ImageExtension).None?
  {
    var name := site + "_" + stamp + ImageExtension;
    assert name == site + ("_" + stamp + ImageExtension);
    ContainsAppend(site, "_" + stamp + ImageExtension, "IR");
  }
}
