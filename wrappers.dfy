/** Optional values, and the JavaScript `a || b` fallback the library uses for
    every configurable setting: a missing value and a falsy one (0, the empty
    string) both select the default. */
module Wrappers {

  datatype Option<+T> = None | Some(value: T)

  /** `v || d` for a number: 0 counts as missing (index.js:15, 54, 80, 103, 155). */
  function IntOr(v: Option<int>, d: int): (r: int)
    ensures r == d || (v == Some(r) && r != 0)
    ensures v.Some? && v.value != 0 ==> r == v.value
  {
    if v.Some? && v.value != 0 then v.value else d
  }

  /** `v || d` for a string: the empty string counts as missing (index.js:4-6). */
  function StringOr(v: Option<string>, d: string): (r: string)
    ensures r == d || (v == Some(r) && r != "")
    ensures v.Some? && v.value != "" ==> r == v.value
  {
    if v.Some? && v.value != "" then v.value else d
  }

  /** `v === false ? false : true`: only an explicit `false` switches a flag off
      (index.js:9, 156-159). */
  function FlagOn(v: Option<bool>): (r: bool)
    ensures v.None? ==> r
    ensures v.Some? ==> r == v.value
  {
    v != Some(false)
  }
}
