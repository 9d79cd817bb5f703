/** Small shared vocabulary: the outcome of Python's `int(text)` and integer min/max. */
module Common {

  /** `Some(v)` when a text field parsed with `int(...)`, `None` when `int(...)` raised. */
  datatype Option<+T> = None | Some(value: T)

  function Min(a: int, b: int): int
  {
    if a <= b then a else b
  }

  function Max(a: int, b: int): int
  {
    if a >= b then a else b
  }

  /** Python's `max(lo, min(v, hi))`, the clamp used by `update_roi` and `drag_roi`. */
  function Clamp(v: int, lo: int, hi: int): (c: int)
    ensures lo <= c
    ensures lo <= hi ==> c <= hi
    ensures lo <= v <= hi ==> c == v
    ensures v < lo ==> c == lo
    ensures lo <= hi < v ==> c == hi
  {
    Max(lo, Min(v, hi))
  }
}
