/** `phenoMask`: an ordered, duplicate-free collection of image records over a
    date-time window, with union, difference, a stable sort by time, a
    collision check against the archive, and a dry-run-aware move of every
    record to its final path.  Each mask owns its own sequence of records;
    membership is by record identity. */
module PhenoMask {
  import opened Wrappers
  import opened Calendar
  import opened Dates
  import opened Files
  import opened PhenoImage

  datatype Mask = Mask(site: string, startDate: int, endDate: int, files: seq<Image>, disjoint: bool)

  // ---------------------------------------------------------------------
  // Identity and duplicates

  /** The identities held by a sequence of records. */
  function Ids(s: seq<Image>): set<nat> {
    set k | 0 <= k < |s| :: s[k].id
  }

  /** No record occurs twice. */
  predicate NoDup(s: seq<Image>) {
    forall i, j | 0 <= i < j < |s| :: s[i].id != s[j].id
  }

  /** A well-formed mask holds each record at most once. */
  predicate WellFormed(m: Mask) {
    NoDup(m.files)
  }

  lemma IdsAppend(s: seq<Image>, x: Image)
    ensures Ids(s + [x]) == Ids(s) + {x.id}
  {
    var t := s + [x];
    assert t[|s|].id == x.id;
    forall id | id in Ids(s)
      ensures id in Ids(t)
    {
      var k :| 0 <= k < |s| && s[k].id == id;
      assert t[k] == s[k];
    }
  }

  lemma IdsCons(x: Image, s: seq<Image>)
    ensures Ids([x] + s) == {x.id} + Ids(s)
  {
    var t := [x] + s;
    assert t[0].id == x.id;
    forall id | id in Ids(s)
      ensures id in Ids(t)
    {
      var k :| 0 <= k < |s| && s[k].id == id;
      assert t[k + 1] == s[k];
    }
    forall id | id in Ids(t)
      ensures id == x.id || id in Ids(s)
    {
      var k :| 0 <= k < |t| && t[k].id == id;
      if k > 0 {
        assert t[k] == s[k - 1];
      }
    }
  }

  /** Appending a record with a new identity keeps the identities distinct. */
  lemma NoDupAppend(s: seq<Image>, x: Image)
    requires x.id !in Ids(s)
    ensures NoDup(s) ==> NoDup(s + [x])
  {
    if NoDup(s) {
      var t := s + [x];
      forall i, j | 0 <= i < j < |t|
        ensures t[i].id != t[j].id
      {
        if j == |s| {
          assert t[i] == s[i];
        }
      }
    }
  }

  lemma NoDupTail(s: seq<Image>)
    requires NoDup(s) && s != []
    ensures NoDup(s[1..]) && s[0].id !in Ids(s[1..])
  {
    var rest := s[1..];
    forall i, j | 0 <= i < j < |rest|
      ensures rest[i].id != rest[j].id
    {
      assert rest[i] == s[i + 1] && rest[j] == s[j + 1];
    }
  }

  /** Excluding an identity the sequence does not hold changes nothing. */
  lemma WithoutExtra(s: seq<Image>, ids: set<nat>, id: nat)
    requires id !in Ids(s)
    ensures Without(s, ids + {id}) == Without(s, ids)
  {
    WithoutAbsent(s, {id});
    WithoutTwice(s, {id}, ids);
    assert {id} + ids == ids + {id};
  }

  /** A duplicate-free sequence has as many identities as records. */
  lemma {:induction false} NoDupCard(s: seq<Image>)
    requires NoDup(s)
    ensures |Ids(s)| == |s|
    decreases |s|
  {
    if s != [] {
      var p := s[..|s| - 1];
      var x := s[|s| - 1];
      assert s == p + [x];
      NoDupCard(p);
      IdsAppend(p, x);
    }
  }

  /** The records of `s` whose identity is not in `ids`, in their order. */
  function Without(s: seq<Image>, ids: set<nat>): seq<Image>
    decreases |s|
  {
    if s == [] then []
    else if s[0].id in ids then Without(s[1..], ids)
    else [s[0]] + Without(s[1..], ids)
  }

  lemma {:induction false} WithoutIds(s: seq<Image>, ids: set<nat>)
    ensures Ids(Without(s, ids)) == Ids(s) - ids
    decreases |s|
  {
    if s != [] {
      WithoutIds(s[1..], ids);
      assert s == [s[0]] + s[1..];
      IdsCons(s[0], s[1..]);
      if s[0].id !in ids {
        IdsCons(s[0], Without(s[1..], ids));
      }
    }
  }

  lemma {:induction false} WithoutNoDup(s: seq<Image>, ids: set<nat>)
    requires NoDup(s)
    ensures NoDup(Without(s, ids))
    decreases |s|
  {
    if s != [] {
      NoDupTail(s);
      WithoutNoDup(s[1..], ids);
      if s[0].id !in ids {
        var w := Without(s[1..], ids);
        WithoutIds(s[1..], ids);
        var t := [s[0]] + w;
        forall i, j | 0 <= i < j < |t|
          ensures t[i].id != t[j].id
        {
          if i == 0 {
            assert t[j] == w[j - 1];
            assert w[j - 1].id in Ids(w);
          } else {
            assert t[i] == w[i - 1] && t[j] == w[j - 1];
          }
        }
      }
    }
  }

  /** Records none of whose identities are excluded are all kept. */
  lemma {:induction false} WithoutAbsent(s: seq<Image>, ids: set<nat>)
    requires Ids(s) !! ids
    ensures Without(s, ids) == s
    decreases |s|
  {
    if s != [] {
      IdsCons(s[0], s[1..]);
      assert s == [s[0]] + s[1..];
      WithoutAbsent(s[1..], ids);
    }
  }

  /** Excluding one set and then another is excluding both. */
  lemma {:induction false} WithoutTwice(s: seq<Image>, a: set<nat>, b: set<nat>)
    ensures Without(Without(s, a), b) == Without(s, a + b)
    decreases |s|
  {
    if s != [] {
      WithoutTwice(s[1..], a, b);
      if s[0].id !in a {
        var w := Without(s[1..], a);
        assert ([s[0]] + w)[0] == s[0] && ([s[0]] + w)[1..] == w;
      }
    }
  }

  // ---------------------------------------------------------------------
  // Union

  /** `for f in other: if not f in self: self.append(f)`, from the
      receiver's records `acc`. */
  function UnionFiles(acc: seq<Image>, other: seq<Image>): (r: seq<Image>)
    ensures acc <= r
    ensures Ids(r) == Ids(acc) + Ids(other)
    ensures NoDup(acc) ==> NoDup(r)
    decreases |other|
  {
    if other == [] then acc
    else
      var x := other[0];
      assert other == [x] + other[1..];
      IdsCons(x, other[1..]);
      IdsAppend(acc, x);
      if x.id in Ids(acc) then UnionFiles(acc, other[1..])
      else
        NoDupAppend(acc, x);
        UnionFiles(acc + [x], other[1..])
  }

  /** `__add__`: the receiver's records followed by the other mask's new ones;
      the result is marked as possibly non-contiguous. */
  function Union(a: Mask, b: Mask): (r: Mask)
    ensures r.site == a.site && r.startDate == a.startDate && r.endDate == a.endDate
    ensures r.disjoint
    ensures a.files <= r.files
    ensures Ids(r.files) == Ids(a.files) + Ids(b.files)
    ensures WellFormed(a) ==> WellFormed(r)
  {
    a.(files := UnionFiles(a.files, b.files), disjoint := true)
  }

  /** The records appended are exactly those of `other` not already held,
      in their order in `other`. */
  lemma {:induction false} UnionFilesAppendsNew(acc: seq<Image>, other: seq<Image>)
    requires NoDup(other)
    ensures UnionFiles(acc, other) == acc + Without(other, Ids(acc))
    decreases |other|
  {
    if other != [] {
      var x := other[0];
      var rest := other[1..];
      NoDupTail(other);
      if x.id in Ids(acc) {
        assert Without(other, Ids(acc)) == Without(rest, Ids(acc));
        UnionFilesAppendsNew(acc, rest);
      } else {
        UnionFilesAppendsNew(acc + [x], rest);
        IdsAppend(acc, x);
        assert other == [x] + rest;
        AppendsNewStep(acc, x, rest, Ids(acc));
      }
    }
  }

  /** A record with a new identity moves from the front of the other
      records to the end of `acc` without changing what follows it. */
  lemma AppendsNewStep(acc: seq<Image>, x: Image, rest: seq<Image>, ids: set<nat>)
    requires x.id !in ids && x.id !in Ids(rest)
    ensures acc + [x] + Without(rest, ids + {x.id}) == acc + Without([x] + rest, ids)
  {
    WithoutExtra(rest, ids, x.id);
    var w := Without(rest, ids);
    assert ([x] + rest)[0] == x && ([x] + rest)[1..] == rest;
    assert Without([x] + rest, ids) == [x] + w;
    assert acc + [x] + w == acc + ([x] + w);
  }

  lemma UnionAppendsNew(a: Mask, b: Mask)
    requires WellFormed(b)
    ensures Union(a, b).files == a.files + Without(b.files, Ids(a.files))
  {
    UnionFilesAppendsNew(a.files, b.files);
  }

  // ---------------------------------------------------------------------
  // Difference

  /** `list.remove(f)`: drops the first record with `f`'s identity. */
  function RemoveFirst(s: seq<Image>, id: nat): (r: seq<Image>)
    ensures |r| == if id in Ids(s) then |s| - 1 else |s|
    decreases |s|
  {
    if s == [] then []
    else
      assert s == [s[0]] + s[1..];
      IdsCons(s[0], s[1..]);
      if s[0].id == id then s[1..] else [s[0]] + RemoveFirst(s[1..], id)
  }

  /** In a duplicate-free sequence, removing the first occurrence removes
      every occurrence. */
  lemma {:induction false} RemoveFirstIsWithout(s: seq<Image>, id: nat)
    requires NoDup(s)
    ensures RemoveFirst(s, id) == Without(s, {id})
    decreases |s|
  {
    if s != [] {
      var rest := s[1..];
      NoDupTail(s);
      if s[0].id == id {
        WithoutAbsent(rest, {id});
      } else {
        RemoveFirstIsWithout(rest, id);
      }
    }
  }

  /** `for f in other: if f in self: self.remove(f)`, from the receiver's
      records `acc`. */
  function DifferenceFiles(acc: seq<Image>, other: seq<Image>): seq<Image>
    decreases |other|
  {
    if other == [] then acc
    else DifferenceFiles(Discard(acc, other[0].id), other[1..])
  }

  /** `if f in self: self.remove(f)`. */
  function Discard(acc: seq<Image>, id: nat): seq<Image> {
    if id in Ids(acc) then RemoveFirst(acc, id) else acc
  }

  lemma DiscardIsWithout(acc: seq<Image>, id: nat)
    requires NoDup(acc)
    ensures Discard(acc, id) == Without(acc, {id})
    ensures NoDup(Discard(acc, id))
  {
    if id in Ids(acc) {
      RemoveFirstIsWithout(acc, id);
    } else {
      WithoutAbsent(acc, {id});
    }
    WithoutNoDup(acc, {id});
  }

  lemma {:induction false} DifferenceFilesIsWithout(acc: seq<Image>, other: seq<Image>)
    requires NoDup(acc)
    ensures DifferenceFiles(acc, other) == Without(acc, Ids(other))
    decreases |other|
  {
    if other == [] {
      assert Ids(other) == {};
      WithoutAbsent(acc, {});
    } else {
      var x := other[0];
      var acc' := Discard(acc, x.id);
      DiscardIsWithout(acc, x.id);
      DifferenceFilesIsWithout(acc', other[1..]);
      WithoutTwice(acc, {x.id}, Ids(other[1..]));
      assert other == [x] + other[1..];
      IdsCons(x, other[1..]);
    }
  }

  /** `__sub__`: the receiver's records minus those of the other mask; the
      result is marked as possibly non-contiguous. */
  function Difference(a: Mask, b: Mask): (r: Mask)
    ensures r.site == a.site && r.startDate == a.startDate && r.endDate == a.endDate
    ensures r.disjoint
  {
    a.(files := DifferenceFiles(a.files, b.files), disjoint := true)
  }

  /** Of a well-formed mask, the difference keeps exactly the records whose
      identity the other mask does not hold, in their original order. */
  lemma DifferenceKeepsSurvivors(a: Mask, b: Mask)
    requires WellFormed(a)
    ensures Difference(a, b).files == Without(a.files, Ids(b.files))
    ensures Ids(Difference(a, b).files) == Ids(a.files) - Ids(b.files)
    ensures WellFormed(Difference(a, b))
  {
    DifferenceFilesIsWithout(a.files, b.files);
    WithoutIds(a.files, Ids(b.files));
    WithoutNoDup(a.files, Ids(b.files));
  }

  // ---------------------------------------------------------------------
  // Sorting by time

  /** What `list.sort` guarantees using `__lt__` alone: no record is less than
      one before it. */
  predicate Sorted(s: seq<Image>) {
    forall i, j | 0 <= i < j < |s| :: !Less(s[j], s[i])
  }

  /** The records of `s` taken at time `t`, in their order. */
  function AtTime(s: seq<Image>, t: int): seq<Image>
    decreases |s|
  {
    if s == [] then []
    else (if s[0].time == t then [s[0]] else []) + AtTime(s[1..], t)
  }

  /** Inserts `x` before the first record that is not less than it, so that
      it precedes every record with the same time. */
  function Insert(x: Image, s: seq<Image>): (r: seq<Image>)
    ensures multiset(r) == multiset(s) + multiset{x}
    decreases |s|
  {
    if s == [] || !Less(s[0], x) then [x] + s
    else
      assert s == [s[0]] + s[1..];
      [s[0]] + Insert(x, s[1..])
  }

  /** Every record of `s` is at or after time `t`. */
  predicate NotBefore(s: seq<Image>, t: int) {
    forall k | 0 <= k < |s| :: s[k].time >= t
  }

  lemma {:induction false} InsertNotBefore(x: Image, s: seq<Image>, t: int)
    requires NotBefore(s, t) && x.time >= t
    ensures NotBefore(Insert(x, s), t)
    decreases |s|
  {
    if s != [] && Less(s[0], x) {
      InsertNotBefore(x, s[1..], t);
      var r := Insert(x, s);
      assert r == [s[0]] + Insert(x, s[1..]);
      forall k | 0 <= k < |r|
        ensures r[k].time >= t
      {
        if k > 0 {
          assert r[k] == Insert(x, s[1..])[k - 1];
        }
      }
    }
  }

  lemma {:induction false} InsertSorted(x: Image, s: seq<Image>)
    requires Sorted(s)
    ensures Sorted(Insert(x, s))
    decreases |s|
  {
    if s != [] && Less(s[0], x) {
      var tail := s[1..];
      assert Sorted(tail) by {
        forall i, j | 0 <= i < j < |tail|
          ensures !Less(tail[j], tail[i])
        {
          assert tail[i] == s[i + 1] && tail[j] == s[j + 1];
        }
      }
      assert NotBefore(tail, s[0].time) by {
        forall k | 0 <= k < |tail|
          ensures tail[k].time >= s[0].time
        {
          assert tail[k] == s[k + 1];
        }
      }
      InsertSorted(x, tail);
      InsertNotBefore(x, tail, s[0].time);
      var ins := Insert(x, tail);
      var r := [s[0]] + ins;
      assert Insert(x, s) == r;
      forall i, j | 0 <= i < j < |r|
        ensures !Less(r[j], r[i])
      {
        if i == 0 {
          assert r[j] == ins[j - 1];
        } else {
          assert r[i] == ins[i - 1] && r[j] == ins[j - 1];
        }
      }
    } else {
      var r := [x] + s;
      assert Insert(x, s) == r;
      forall i, j | 0 <= i < j < |r|
        ensures !Less(r[j], r[i])
      {
        if i == 0 {
          assert r[j] == s[j - 1];
          assert !Less(s[j - 1], s[0]);
        } else {
          assert r[i] == s[i - 1] && r[j] == s[j - 1];
        }
      }
    }
  }

  /** A stable sort of the records by time. */
  function SortFiles(s: seq<Image>): (r: seq<Image>)
    ensures Sorted(r)
    ensures multiset(r) == multiset(s)
    decreases |s|
  {
    if s == [] then []
    else
      assert s == [s[0]] + s[1..];
      InsertSorted(s[0], SortFiles(s[1..]));
      Insert(s[0], SortFiles(s[1..]))
  }

  lemma {:induction false} InsertAtTime(x: Image, s: seq<Image>, t: int)
    ensures AtTime(Insert(x, s), t) == (if x.time == t then [x] else []) + AtTime(s, t)
    decreases |s|
  {
    if s == [] || !Less(s[0], x) {
      assert Insert(x, s) == [x] + s;
      AtTimeCons(x, s, t);
    } else {
      var h, rest := s[0], s[1..];
      assert Insert(x, s) == [h] + Insert(x, rest);
      AtTimeCons(h, Insert(x, rest), t);
      InsertAtTime(x, rest, t);
      assert s == [h] + rest;
      AtTimeCons(h, rest, t);
      // `h` is strictly earlier than `x`, so at most one of them is at `t`.
      var a, b := (if h.time == t then [h] else []), (if x.time == t then [x] else []);
      assert a == [] || b == [];
      assert a + (b + AtTime(rest, t)) == b + (a + AtTime(rest, t));
    }
  }

  lemma AtTimeCons(h: Image, rest: seq<Image>, t: int)
    ensures AtTime([h] + rest, t) == (if h.time == t then [h] else []) + AtTime(rest, t)
  {
    assert ([h] + rest)[0] == h && ([h] + rest)[1..] == rest;
  }

  /** Records with equal times keep their relative order. */
  lemma {:induction false} SortFilesStable(s: seq<Image>, t: int)
    ensures AtTime(SortFiles(s), t) == AtTime(s, t)
    decreases |s|
  {
    if s != [] {
      SortFilesStable(s[1..], t);
      InsertAtTime(s[0], SortFiles(s[1..]), t);
    }
  }

  /** In a duplicate-free sequence every record occurs at most once. */
  lemma {:induction false} NoDupOnce(s: seq<Image>, x: Image)
    requires NoDup(s)
    ensures multiset(s)[x] <= 1
    decreases |s|
  {
    if s != [] {
      var rest := s[1..];
      assert s == [s[0]] + rest;
      NoDupTail(s);
      NoDupOnce(rest, x);
      assert forall k | 0 <= k < |rest| :: rest[k].id in Ids(rest);
    }
  }

  /** A record at two positions counts at least twice. */
  lemma OccursTwice(r: seq<Image>, i: nat, j: nat)
    requires i < j < |r| && r[i] == r[j]
    ensures multiset(r)[r[i]] >= 2
  {
    assert r == r[..i] + [r[i]] + r[i + 1..j] + [r[j]] + r[j + 1..];
  }

  /** Reordering a duplicate-free sequence keeps it duplicate-free. */
  lemma PermutationKeepsNoDup(s: seq<Image>, r: seq<Image>)
    requires multiset(r) == multiset(s)
    ensures NoDup(s) ==> NoDup(r)
  {
    if NoDup(s) {
      forall i, j | 0 <= i < j < |r|
        ensures r[i].id != r[j].id
      {
        if r[i].id == r[j].id {
          assert r[i] in multiset(s) && r[j] in multiset(s);
          var a :| 0 <= a < |s| && s[a] == r[i];
          var b :| 0 <= b < |s| && s[b] == r[j];
          assert a == b;
          OccursTwice(r, i, j);
          NoDupOnce(s, r[i]);
        }
      }
    }
  }

  /** `sort`: the mask's records in non-decreasing time, stable for equal
      times. */
  function Sort(m: Mask): (r: Mask)
    ensures r.(files := m.files) == m
    ensures Sorted(r.files) && multiset(r.files) == multiset(m.files)
    ensures WellFormed(m) ==> WellFormed(r)
  {
    PermutationKeepsNoDup(m.files, SortFiles(m.files));
    m.(files := SortFiles(m.files))
  }

  lemma SortIsStable(m: Mask, t: int)
    ensures AtTime(Sort(m).files, t) == AtTime(m.files, t)
  {
    SortFilesStable(m.files, t);
  }

  // ---------------------------------------------------------------------
  // Construction, length and iteration

  /** The default start time of day, `timedelta(0)`. */
  const DefaultStartTime := 0
  /** The default end time of day, `timedelta(hours=24)`. */
  const DefaultEndTime := 24 * 3600

  /** Why a mask cannot be made: `strptime` refuses a date (`ValueError`),
      or the window ends before it starts (the constructor's `Exception`). */
  datatype MaskError = MalformedDate | StartAfterEnd

  /** `phenoMask(sitename, startDate, endDate, startTime, endTime)`: the
      window runs from midnight of the start date plus `startTime` to
      midnight of the end date plus `endTime` (times of day in seconds); a
      window that ends before it starts is refused.  A new mask is empty and
      contiguous. */
  function NewMask(site: string, startArg: string, endArg: string, startTime: int, endTime: int)
    : (r: Result<Mask, MaskError>)
    ensures r.Success? ==>
      && r.value.site == site
      && ParseDate(startArg).Some? && ParseDate(endArg).Some?
      && r.value.startDate == ParseDate(startArg).value + startTime
      && r.value.endDate == ParseDate(endArg).value + endTime
      && r.value.startDate <= r.value.endDate
      && r.value.files == [] && !r.value.disjoint
    ensures r.Success? <==>
      && ParseDate(startArg).Some? && ParseDate(endArg).Some?
      && ParseDate(startArg).value + startTime <= ParseDate(endArg).value + endTime
    ensures r == Failure(MalformedDate) <==> ParseDate(startArg).None? || ParseDate(endArg).None?
    ensures r == Failure(StartAfterEnd) <==>
      && ParseDate(startArg).Some? && ParseDate(endArg).Some?
      && ParseDate(startArg).value + startTime > ParseDate(endArg).value + endTime
  {
    match (ParseDate(startArg), ParseDate(endArg))
    case (Some(s), Some(e)) =>
      if s + startTime > e + endTime then Failure(StartAfterEnd)
      else Success(Mask(site, s + startTime, e + endTime, [], false))
    case _ => Failure(MalformedDate)
  }

  /** With the default times of day, the window covers whole days: a single
      day is accepted, and the mask spans from its midnight to the next. */
  lemma DefaultWindowCoversDays(site: string, day: string)
    requires ParseDate(day).Some?
    ensures NewMask(site, day, day, DefaultStartTime, DefaultEndTime).Success?
    ensures var m := NewMask(site, day, day, DefaultStartTime, DefaultEndTime).value;
      m.endDate - m.startDate == SecondsPerDay
  {
  }

  /** `len(mask)`: the number of records. */
  function Len(m: Mask): (n: nat)
    ensures n == |m.files|
  {
    |m.files|
  }

  /** A well-formed mask's length is the number of distinct records it holds. */
  lemma LenCountsRecords(m: Mask)
    requires WellFormed(m)
    ensures Len(m) == |Ids(m.files)|
  {
    NoDupCard(m.files);
  }

  /** `iter(mask)`: yields the records one by one, in order. */
  method Iterate(m: Mask) returns (out: seq<Image>)
    ensures out == m.files
    ensures |out| == Len(m)
  {
    out := [];
    var i := 0;
    while i < |m.files|
      invariant 0 <= i <= |m.files|
      invariant out == m.files[..i]
    {
      out := out + [m.files[i]];
      i := i + 1;
    }
  }

  // ---------------------------------------------------------------------
  // Collisions

  /** The original paths of the mask's records. */
  function OldPaths(m: Mask): set<Path> {
    set x | x in m.files :: x.originalPath
  }

  /** A record collides when its final path is taken by a file that is not
      itself about to be moved away. */
  predicate Collides(x: Image, existing: FileSystem, origins: set<Path>) {
    x.finalPath in existing && x.finalPath !in origins
  }

  /** The colliding records of `s`, in their order. */
  function Colliding(s: seq<Image>, existing: FileSystem, origins: set<Path>): seq<Image>
    decreases |s|
  {
    if s == [] then []
    else
      var x := s[|s| - 1];
      Colliding(s[..|s| - 1], existing, origins) + (if Collides(x, existing, origins) then [x] else [])
  }

  lemma {:induction false} CollidingMembers(s: seq<Image>, existing: FileSystem, origins: set<Path>)
    ensures forall x :: x in Colliding(s, existing, origins) <==> x in s && Collides(x, existing, origins)
    decreases |s|
  {
    if s != [] {
      CollidingMembers(s[..|s| - 1], existing, origins);
      assert s == s[..|s| - 1] + [s[|s| - 1]];
    }
  }

  /** `collisions()`: reads the archive (given as the set of paths that
      exist) and changes nothing. */
  method Collisions(m: Mask, existing: FileSystem) returns (c: seq<Image>)
    ensures c == Colliding(m.files, existing, OldPaths(m))
    ensures forall x :: x in c <==> x in m.files && Collides(x, existing, OldPaths(m))
  {
    var origins := OldPaths(m);
    c := [];
    var i := 0;
    while i < |m.files|
      invariant 0 <= i <= |m.files|
      invariant c == Colliding(m.files[..i], existing, origins)
    {
      var x := m.files[i];
      assert m.files[..i + 1][..i] == m.files[..i];
      if x.finalPath in existing && x.finalPath !in origins {
        c := c + [x];
      }
      i := i + 1;
    }
    assert m.files[..|m.files|] == m.files;
    CollidingMembers(m.files, existing, origins);
  }

  // ---------------------------------------------------------------------
  // Moving

  /** Renames one record's file unless its two paths are the same. */
  function MoveOne(fs: FileSystem, x: Image): FileSystem {
    if Moving(x) then Rename(fs, x.originalPath, x.finalPath) else fs
  }

  /** The archive after moving the records of `s` in order. */
  function Moves(s: seq<Image>, fs: FileSystem): FileSystem
    decreases |s|
  {
    if s == [] then fs else MoveOne(Moves(s[..|s| - 1], fs), s[|s| - 1])
  }

  /** `moveFiles`'s `dryRun` defaults to true: a mask moves nothing unless
      asked explicitly. */
  const DefaultDryRun := true

  /** `moveFiles(dryRun)`: a dry run returns -1 and touches nothing;
      otherwise every record is moved in order and 0 is returned. */
  method MoveFiles(m: Mask, fs: FileSystem, dryRun: bool) returns (code: int, fs': FileSystem)
    ensures dryRun ==> code == -1 && fs' == fs
    ensures !dryRun ==> code == 0 && fs' == Moves(m.files, fs)
  {
    if dryRun {
      return -1, fs;
    }
    fs' := fs;
    var i := 0;
    while i < |m.files|
      invariant 0 <= i <= |m.files|
      invariant fs' == Moves(m.files[..i], fs)
    {
      var x := m.files[i];
      assert m.files[..i + 1][..i] == m.files[..i];
      if x.originalPath != x.finalPath {
        fs' := Rename(fs', x.originalPath, x.finalPath);
      }
      i := i + 1;
    }
    assert m.files[..|m.files|] == m.files;
    code := 0;
  }

  /** `moveFiles()` with the default flag: a dry run. */
  method MoveFilesByDefault(m: Mask, fs: FileSystem) returns (code: int, fs': FileSystem)
    ensures code == -1 && fs' == fs
  {
    code, fs' := MoveFiles(m, fs, DefaultDryRun);
  }

  /** The records that actually move, in order. */
  function MovingOnly(s: seq<Image>): seq<Image>
    decreases |s|
  {
    if s == [] then []
    else MovingOnly(s[..|s| - 1]) + (if Moving(s[|s| - 1]) then [s[|s| - 1]] else [])
  }

  /** Records whose two paths are equal play no part in a move. */
  lemma {:induction false} NoOpRecordsIgnored(s: seq<Image>, fs: FileSystem)
    ensures Moves(s, fs) == Moves(MovingOnly(s), fs)
    decreases |s|
  {
    if s != [] {
      var p := s[..|s| - 1];
      var x := s[|s| - 1];
      NoOpRecordsIgnored(p, fs);
      assert Moves(s, fs) == MoveOne(Moves(p, fs), x);
      if Moving(x) {
        var q := MovingOnly(p) + [x];
        assert MovingOnly(s) == q;
        assert q[..|q| - 1] == MovingOnly(p) && q[|q| - 1] == x;
        assert Moves(q, fs) == MoveOne(Moves(MovingOnly(p), fs), x);
      } else {
        assert MovingOnly(s) == MovingOnly(p) + [];
        assert MovingOnly(p) + [] == MovingOnly(p);
      }
    }
  }

  /** The paths the moving records leave. */
  function MovedFrom(s: seq<Image>): set<Path> {
    set x | x in s && Moving(x) :: x.originalPath
  }

  /** The paths the moving records arrive at. */
  function MovedTo(s: seq<Image>): set<Path> {
    set x | x in s && Moving(x) :: x.finalPath
  }

  /** No two records share an original path or a final path. */
  predicate DistinctPaths(s: seq<Image>) {
    forall i, j | 0 <= i < j < |s| :: s[i].originalPath != s[j].originalPath && s[i].finalPath != s[j].finalPath
  }

  /** A moving record whose final path is another moving record's original
      path comes after it, so that path has been vacated by then. */
  predicate InOrder(s: seq<Image>) {
    forall i, j | 0 <= i < |s| && 0 <= j < |s| && i != j && Moving(s[i]) && Moving(s[j])
        && s[j].finalPath == s[i].originalPath :: i < j
  }

  lemma MovedAppend(p: seq<Image>, x: Image)
    ensures MovedFrom(p + [x]) == MovedFrom(p) + (if Moving(x) then {x.originalPath} else {})
    ensures MovedTo(p + [x]) == MovedTo(p) + (if Moving(x) then {x.finalPath} else {})
  {
    var s := p + [x];
    assert forall y :: y in s <==> y in p || y == x;
  }

  /** Moving the records in an order that never lands on a path still to be
      vacated removes exactly the moving records' original paths and adds
      exactly their final paths. */
  lemma {:induction false} MovesInOrder(s: seq<Image>, fs: FileSystem)
    requires InOrder(s)
    ensures Moves(s, fs) == fs - MovedFrom(s) + MovedTo(s)
    decreases |s|
  {
    if s == [] {
      assert MovedFrom(s) == {} && MovedTo(s) == {};
    } else {
      var p := s[..|s| - 1];
      var x := s[|s| - 1];
      assert s == p + [x];
      assert InOrder(p) by {
        forall i, j | 0 <= i < |p| && 0 <= j < |p| && i != j && Moving(p[i]) && Moving(p[j])
            && p[j].finalPath == p[i].originalPath
          ensures i < j
        {
          assert p[i] == s[i] && p[j] == s[j];
        }
      }
      MovesInOrder(p, fs);
      MovedAppend(p, x);
    }
  }

  lemma {:induction false} MovedCard(s: seq<Image>)
    requires DistinctPaths(s)
    ensures |MovedFrom(s)| == |MovedTo(s)|
    decreases |s|
  {
    if s != [] {
      var p := s[..|s| - 1];
      var x := s[|s| - 1];
      assert s == p + [x];
      assert DistinctPaths(p) by {
        forall i, j | 0 <= i < j < |p|
          ensures p[i].originalPath != p[j].originalPath && p[i].finalPath != p[j].finalPath
        {
          assert p[i] == s[i] && p[j] == s[j];
        }
      }
      MovedCard(p);
      MovedAppend(p, x);
    }
  }

  /** A final path that exists already is, when the collision check finds
      nothing, the original path of some moving record. */
  lemma ArrivalsWereVacated(s: seq<Image>, fs: FileSystem, origins: set<Path>)
    requires DistinctPaths(s)
    requires origins == set x | x in s :: x.originalPath
    requires Colliding(s, fs, origins) == []
    ensures MovedTo(s) * fs <= MovedFrom(s)
  {
    CollidingMembers(s, fs, origins);
    forall f | f in MovedTo(s) * fs
      ensures f in MovedFrom(s)
    {
      var y :| y in s && Moving(y) && y.finalPath == f;
      assert !Collides(y, fs, origins);
      var z :| z in s && z.originalPath == f;
    }
  }

  /** The safe-move theorem: when every record's file exists, no two records
      share a path, the records are in an order that vacates a path before it
      is reused, and the collision check finds nothing, moving the mask
      replaces no file, so the archive keeps its number of files. */
  lemma MoveFilesSafe(m: Mask, fs: FileSystem)
    requires forall x | x in m.files :: x.originalPath in fs
    requires DistinctPaths(m.files) && InOrder(m.files)
    requires Colliding(m.files, fs, OldPaths(m)) == []
    ensures Moves(m.files, fs) == fs - MovedFrom(m.files) + MovedTo(m.files)
    ensures |Moves(m.files, fs)| == |fs|
  {
    var s := m.files;
    MovesInOrder(s, fs);
    MovedCard(s);
    ArrivalsWereVacated(s, fs, OldPaths(m));
    assert MovedFrom(s) <= fs;
    SwapKeepsCount(fs, MovedFrom(s), MovedTo(s));
  }

  /** Taking away some files and adding as many, none of which is a file
      that stays, keeps the number of files. */
  lemma SwapKeepsCount(fs: FileSystem, from: set<Path>, to: set<Path>)
    requires from <= fs && to * fs <= from && |from| == |to|
    ensures |fs - from + to| == |fs|
  {
    assert |fs - from| == |fs| - |from| by {
      assert fs == (fs - from) + from;
      assert (fs - from) * from == {};
    }
    assert (fs - from) * to == {};
  }
}
