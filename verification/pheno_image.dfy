/** `_phenoImage`: one image of a mask, with the path it was found at, the
    path it is to be moved to, and its (possibly shifted) time in seconds.
    The class defines no equality, so Python compares two records by
    identity; `id` stands for that identity. */
module PhenoImage {
  import opened Files

  datatype Image = Image(id: nat, originalPath: Path, finalPath: Path, time: int)

  /** A new record starts with its final path equal to its original one. */
  function NewImage(id: nat, path: Path, time: int): (im: Image)
    ensures im.id == id && im.time == time
    ensures im.originalPath == path && im.finalPath == path
    ensures !Moving(im)
  {
    Image(id, path, path, time)
  }

  /** `__lt__`: records are ordered by their time alone. */
  predicate Less(a: Image, b: Image) {
    a.time < b.time
  }

  /** A record that would actually be renamed by a move. */
  predicate Moving(im: Image) {
    im.originalPath != im.finalPath
  }

  /** `__add__`: shifts the time by `delta`; nothing else changes. */
  function Add(im: Image, delta: int): (r: Image)
    ensures r.time - im.time == delta
    ensures r.(time := im.time) == im
  {
    im.(time := im.time + delta)
  }

  /** `__sub__`: shifts the time back by `delta`; nothing else changes. */
  function Sub(im: Image, delta: int): (r: Image)
    ensures im.time - r.time == delta
    ensures r.(time := im.time) == im
  {
    im.(time := im.time - delta)
  }

  /** Shifting forward and then back (or back and then forward) by the same
      amount restores the record, paths and all. */
  lemma ShiftRoundTrip(im: Image, delta: int)
    ensures Sub(Add(im, delta), delta) == im
    ensures Add(Sub(im, delta), delta) == im
  {
  }

  /** A shift keeps the record's place in the order relative to records
      shifted by the same amount. */
  lemma ShiftKeepsOrder(a: Image, b: Image, delta: int)
    ensures Less(Add(a, delta), Add(b, delta)) <==> Less(a, b)
    ensures Less(Sub(a, delta), Sub(b, delta)) <==> Less(a, b)
  {
  }
}
