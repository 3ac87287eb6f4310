/** The string operations the renaming script relies on, written as the
    Python built-ins they stand for: `in`, `endswith`, `replace`, `split`,
    `int()`, `str()` on a non-negative integer and `zfill`/`%02d`-style
    zero padding.  Strings are `seq<char>` and digits are ASCII. */
module Text {
  import opened Wrappers

  /** Python's `s.endswith(p)`. */
  predicate EndsWith(s: string, p: string) {
    |p| <= |s| && s[|s| - |p|..] == p
  }

  /** Python's `p in s` on strings: `p` occurs as a contiguous piece of `s`. */
  predicate Contains(s: string, p: string) {
    exists i | 0 <= i <= |s| - |p| :: OccursAt(s, p, i)
  }

  predicate OccursAt(s: string, p: string, i: int) {
    0 <= i <= |s| - |p| && s[i..i + |p|] == p
  }

  /** A two-character piece occurs exactly when its characters sit side by side. */
  lemma ContainsPair(s: string, a: char, b: char)
    ensures Contains(s, [a, b]) <==> exists i | 0 <= i < |s| - 1 :: s[i] == a && s[i + 1] == b
  {
    if Contains(s, [a, b]) {
      var i :| 0 <= i <= |s| - 2 && OccursAt(s, [a, b], i);
      assert s[i] == s[i..i + 2][0] && s[i + 1] == s[i..i + 2][1];
    }
    if exists i | 0 <= i < |s| - 1 :: s[i] == a && s[i + 1] == b {
      var i :| 0 <= i < |s| - 1 && s[i] == a && s[i + 1] == b;
      assert s[i..i + 2] == [a, b];
      assert OccursAt(s, [a, b], i);
    }
  }

  /** A piece found in `a` is still found once something is appended to `a`. */
  lemma ContainsAppend(a: string, b: string, p: string)
    requires Contains(a, p)
    ensures Contains(a + b, p)
  {
    var i :| 0 <= i <= |a| - |p| && OccursAt(a, p, i);
    assert (a + b)[i..i + |p|] == a[i..i + |p|];
    assert OccursAt(a + b, p, i);
  }

  /** Appending text free of `'I'` to a string that does not end in `'I'`
      neither creates nor destroys an occurrence of "IR". */
  lemma ContainsIRUnchanged(a: string, b: string)
    requires |a| > 0 && a[|a| - 1] != 'I'
    requires forall k | 0 <= k < |b| :: b[k] != 'I'
    ensures Contains(a + b, "IR") <==> Contains(a, "IR")
  {
    ContainsPair(a + b, 'I', 'R');
    ContainsPair(a, 'I', 'R');
    var s := a + b;
    if exists i | 0 <= i < |s| - 1 :: s[i] == 'I' && s[i + 1] == 'R' {
      var i :| 0 <= i < |s| - 1 && s[i] == 'I' && s[i + 1] == 'R';
      assert i < |a| - 1;
      assert a[i] == 'I' && a[i + 1] == 'R';
    }
    if exists i | 0 <= i < |a| - 1 :: a[i] == 'I' && a[i + 1] == 'R' {
      var i :| 0 <= i < |a| - 1 && a[i] == 'I' && a[i + 1] == 'R';
      assert s[i] == 'I' && s[i + 1] == 'R';
    }
  }

  /** Python's `s.replace(pat, rep)`: every non-overlapping occurrence of
      `pat`, scanning from the left, is replaced by `rep`. */
  function ReplaceAll(s: string, pat: string, rep: string): string
    requires |pat| > 0
    decreases |s|
  {
    if |s| < |pat| then s
    else if s[..|pat|] == pat then rep + ReplaceAll(s[|pat|..], pat, rep)
    else [s[0]] + ReplaceAll(s[1..], pat, rep)
  }

  /** A path ending in ".jpg" has that last ".jpg" turned into ".meta",
      whatever else `replace` does to the part before it: ".jpg" cannot
      overlap itself, so the final occurrence is always matched. */
  lemma {:induction false} ReplaceJpgSuffix(q: string)
    ensures ReplaceAll(q + ".jpg", ".jpg", ".meta") == ReplaceAll(q, ".jpg", ".meta") + ".meta"
    decreases |q|
  {
    var s := q + ".jpg";
    if 0 < |q| < 4 {
      JpgNoBorder(q);
    }
    if |q| == 0 {
      assert s == ".jpg";
      assert s[4..] == [];
    } else if s[..4] == ".jpg" {
      assert q[..4] == s[..4];
      assert s[4..] == q[4..] + ".jpg";
      ReplaceJpgSuffix(q[4..]);
    } else {
      assert s[1..] == q[1..] + ".jpg";
      ReplaceJpgSuffix(q[1..]);
      if |q| >= 4 {
        assert q[..4] == s[..4];
      } else {
        assert ReplaceAll(q[1..], ".jpg", ".meta") == q[1..];
        assert [q[0]] + q[1..] == q;
      }
    }
  }

  /** ".jpg" cannot start inside a string shorter than itself and end in a
      following ".jpg": no proper prefix of ".jpg" is also a suffix of it. */
  lemma JpgNoBorder(q: string)
    requires 0 < |q| < 4
    ensures (q + ".jpg")[..4] != ".jpg"
  {
    assert (q + ".jpg")[..4][|q|] == '.';
  }

  lemma ReplaceJpgEndsWithMeta(s: string)
    requires EndsWith(s, ".jpg")
    ensures EndsWith(ReplaceAll(s, ".jpg", ".meta"), ".meta")
  {
    var q := s[..|s| - 4];
    assert s == q + ".jpg";
    ReplaceJpgSuffix(q);
  }

  // ---------------------------------------------------------------------
  // Decimal digits

  predicate IsDigit(c: char) {
    '0' <= c <= '9'
  }

  predicate AllDigits(s: string) {
    forall i | 0 <= i < |s| :: IsDigit(s[i])
  }

  function DigitChar(d: nat): (c: char)
    requires d < 10
    ensures IsDigit(c) && c as int - '0' as int == d
  {
    ('0' as int + d) as char
  }

  /** The number a string of decimal digits denotes (leading zeros allowed). */
  function DigitsValue(s: string): nat
    requires AllDigits(s)
    decreases |s|
  {
    if s == [] then 0
    else 10 * DigitsValue(s[..|s| - 1]) + (s[|s| - 1] as int - '0' as int)
  }

  function Pow10(n: nat): (p: nat)
    ensures p >= 1
  {
    if n == 0 then 1 else 10 * Pow10(n - 1)
  }

  /** `n` written with exactly `width` digits, zero padded on the left: the
      `%Y` (width 4) and `%m %d %H %M %S` / `zfill(2)` (width 2) renderings. */
  function Pad(n: nat, width: nat): (r: string)
    requires n < Pow10(width)
    ensures |r| == width && AllDigits(r)
    ensures DigitsValue(r) == n
  {
    if width == 0 then ""
    else
      var r := Pad(n / 10, width - 1) + [DigitChar(n % 10)];
      assert r[..|r| - 1] == Pad(n / 10, width - 1);
      r
  }

  /** Reading a digit string and padding the value back to the same width
      gives the string again: fixed-width digit fields round-trip. */
  lemma {:induction false} PadDigitsValue(s: string)
    requires AllDigits(s)
    ensures DigitsValue(s) < Pow10(|s|)
    ensures Pad(DigitsValue(s), |s|) == s
    decreases |s|
  {
    if s != [] {
      var init := s[..|s| - 1];
      PadDigitsValue(init);
      var d := s[|s| - 1] as int - '0' as int;
      assert DigitsValue(s) == 10 * DigitsValue(init) + d;
      assert DigitsValue(s) / 10 == DigitsValue(init) && DigitsValue(s) % 10 == d;
      assert DigitChar(d) == s[|s| - 1];
      assert init + [s[|s| - 1]] == s;
    }
  }

  /** Python's `str(n)` for `n >= 0`: the shortest decimal rendering. */
  function Decimal(n: nat): (r: string)
    ensures |r| > 0 && AllDigits(r)
    ensures DigitsValue(r) == n
    ensures r[0] == '0' ==> n == 0
    decreases n
  {
    if n < 10 then [DigitChar(n)]
    else
      var r := Decimal(n / 10) + [DigitChar(n % 10)];
      assert r[..|r| - 1] == Decimal(n / 10);
      r
  }

  /** Python's `int(s)` on an optionally signed run of ASCII digits; every
      other text is the `ValueError` case. */
  function ParseInt(s: string): Option<int> {
    if |s| > 1 && (s[0] == '+' || s[0] == '-') && AllDigits(s[1..]) then
      var v: int := DigitsValue(s[1..]);
      var n := if s[0] == '-' then -v else v;
      Some(n)
    else if |s| > 0 && AllDigits(s) then Some(DigitsValue(s))
    else None
  }

  /** A plain run of digits reads as the number it denotes. */
  lemma ParseIntDigits(s: string)
    requires |s| > 0 && AllDigits(s)
    ensures ParseInt(s) == Some(DigitsValue(s))
  {
    assert IsDigit(s[0]);
  }

  lemma DigitsHaveNo(s: string, c: char)
    requires AllDigits(s) && !IsDigit(c)
    ensures c !in s
  {
  }

  // ---------------------------------------------------------------------
  // Splitting

  /** Python's `sep.join(parts)` for a one-character separator. */
  function JoinWith(parts: seq<string>, sep: char): string
    requires |parts| > 0
    decreases |parts|
  {
    if |parts| == 1 then parts[0] else parts[0] + [sep] + JoinWith(parts[1..], sep)
  }

  function Count(s: string, c: char): nat
    decreases |s|
  {
    if s == [] then 0 else (if s[0] == c then 1 else 0) + Count(s[1..], c)
  }

  /** Python's `s.split(sep)` for a one-character separator: one more piece
      than there are separators, none of them holding the separator, and
      joining them back with it restores `s`. */
  function Split(s: string, sep: char): (parts: seq<string>)
    ensures |parts| == Count(s, sep) + 1
    ensures forall k | 0 <= k < |parts| :: sep !in parts[k]
    ensures JoinWith(parts, sep) == s
    decreases |s|
  {
    if s == [] then [""]
    else
      var rest := Split(s[1..], sep);
      if s[0] == sep then
        assert [s[0]] + s[1..] == s;
        [""] + rest
      else
        var parts := [[s[0]] + rest[0]] + rest[1..];
        assert parts[1..] == rest[1..];
        assert JoinWith(parts, sep) == [s[0]] + JoinWith(rest, sep);
        assert [s[0]] + s[1..] == s;
        parts
  }

  lemma {:induction false} SplitAbsent(s: string, sep: char)
    requires sep !in s
    ensures Split(s, sep) == [s]
    decreases |s|
  {
    if s != [] {
      SplitAbsent(s[1..], sep);
      assert [s[0]] + s[1..] == s;
    }
  }

  /** Two separator-free pieces around one separator split into exactly those
      two pieces. */
  lemma {:induction false} SplitTwo(a: string, b: string, sep: char)
    requires sep !in a && sep !in b
    ensures Split(a + [sep] + b, sep) == [a, b]
    decreases |a|
  {
    var s := a + [sep] + b;
    if a == [] {
      assert s[1..] == b;
      SplitAbsent(b, sep);
    } else {
      assert s[1..] == a[1..] + [sep] + b;
      SplitTwo(a[1..], b, sep);
      assert [a[0]] + a[1..] == a;
    }
  }
}
