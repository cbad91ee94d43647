/**
 * The operations the scan performs on `TikzImage.color_map`, a Python list
 * of `TikzRGB` compared with `__eq__`: `rgb in color_map`,
 * `color_map.index(rgb)` and `color_map.append(rgb)`.
 */
module ColorMap {
  import opened Wrappers
  import opened Colors

  /** The first position holding a colour equal to `c`, if any. */
  function FindColor(m: seq<TikzRgb>, c: TikzRgb): (r: Option<nat>)
    ensures r.Some? ==> r.value < |m| && SameColor(m[r.value], c)
    ensures r.Some? ==> forall k :: 0 <= k < r.value ==> !SameColor(m[k], c)
    ensures r.None? ==> forall k :: 0 <= k < |m| ==> !SameColor(m[k], c)
  {
    if m == [] then None
    else if SameColor(m[0], c) then Some(0)
    else
      match FindColor(m[1..], c)
      case None => None
      case Some(i) => Some(i + 1)
  }

  /** `c in m`. */
  predicate Contains(m: seq<TikzRgb>, c: TikzRgb) {
    FindColor(m, c).Some?
  }

  /** `m.index(c)`; the scan calls it only once `c` is in the list. */
  function IndexOf(m: seq<TikzRgb>, c: TikzRgb): nat
    requires Contains(m, c)
  {
    FindColor(m, c).value
  }

  /** No two entries are equal in the sense of `__eq__`. */
  predicate NoDuplicates(m: seq<TikzRgb>) {
    forall a, b :: 0 <= a < b < |m| ==> !SameColor(m[a], m[b])
  }

  /** Appending never moves a colour that is already present. */
  lemma IndexOfAppend(m: seq<TikzRgb>, d: TikzRgb, c: TikzRgb)
    requires Contains(m, c)
    ensures Contains(m + [d], c) && IndexOf(m + [d], c) == IndexOf(m, c)
  {
    var i := IndexOf(m, c);
    var r := FindColor(m + [d], c);
    assert (m + [d])[i] == m[i];
  }

  /** A colour appended because it was absent is found at the old length. */
  lemma IndexOfNew(m: seq<TikzRgb>, c: TikzRgb)
    requires !Contains(m, c)
    ensures Contains(m + [c], c) && IndexOf(m + [c], c) == |m|
  {
    var r := FindColor(m + [c], c);
    assert (m + [c])[|m|] == c;
  }

  /** In a list without duplicates, the index of an entry is its position. */
  lemma IndexOfEntry(m: seq<TikzRgb>, a: nat)
    requires NoDuplicates(m) && a < |m|
    ensures Contains(m, m[a]) && IndexOf(m, m[a]) == a
  {
  }
}
