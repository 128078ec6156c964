/**
 * Index normalisation of JavaScript's `Array.prototype.slice(start, end)` for integer
 * arguments: a negative bound counts from the end of the array, every bound is clamped
 * into [0, len], and an end before the start gives the empty slice.
 */
module JsArray {

  /** The half-open range [lo, hi) of array positions a slice covers. */
  datatype Range = Range(lo: nat, hi: nat)

  /** One bound of `slice`, normalised against an array of length `len`. */
  function Bound(len: nat, rel: int): (r: nat)
    ensures r <= len
    ensures 0 <= rel <= len ==> r == rel
    ensures rel < 0 ==> r == if len + rel < 0 then 0 else len + rel
    ensures rel > len ==> r == len
  {
    if rel < 0 then (if len + rel < 0 then 0 else len + rel)
    else if rel < len then rel
    else len
  }

  /** The positions `a.slice(start, end)` copies out of an array of length `len`. */
  function SliceRange(len: nat, start: int, end: int): (r: Range)
    ensures r.lo <= r.hi <= len
    ensures 0 <= start <= end <= len ==> r == Range(start, end)
  {
    var lo := Bound(len, start);
    var hi := Bound(len, end);
    Range(lo, if hi < lo then lo else hi)
  }
}
