/** Optional values and outcomes shared by the whole model. */
module Common {

  /** A value that may be absent: a play-by-play description column holds `None` when the side did nothing. */
  datatype Option<+T> = None | Some(value: T)

  /** The outcome of a step that may raise: `Err` stands for the exception `pbp_calc_next` lets escape. */
  datatype Result<+T, +E> = Ok(value: T) | Err(error: E)

  function Min(a: int, b: int): int
  {
    if a <= b then a else b
  }

  function Abs(x: int): int
  {
    if x < 0 then -x else x
  }
}
