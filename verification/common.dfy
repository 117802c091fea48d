/** Small building blocks shared by the whole model: nullable values, the
    result tags the controllers answer with, and the string operations the
    list filters use. */
module Common {

  /** A nullable value (`string?`, `int?` in the controllers). */
  datatype Option<+T> = None | Some(value: T)

  /** The outcome of a request handler, reduced to the tags the controllers
      use: an `Ok`-like answer carrying a value, or `NotFound`/`BadRequest`
      carrying the message the controller puts in its body. */
  datatype Reply<+T> = Ok(value: T) | NotFound(message: string) | BadRequest(message: string)

  /** `string.IsNullOrEmpty` over a nullable string. */
  predicate IsNullOrEmpty(s: Option<string>) {
    s.None? || s.value == ""
  }

  /** `needle` occurs in `hay` starting at position `i`. */
  predicate OccursAt(hay: string, needle: string, i: int) {
    0 <= i <= |hay| - |needle| && hay[i..i + |needle|] == needle
  }

  /** `hay.Contains(needle)`: exact (ordinal) substring test. */
  predicate Contains(hay: string, needle: string) {
    exists i | 0 <= i <= |hay| :: OccursAt(hay, needle, i)
  }

  /** The `??` operator: the value when present, otherwise the fallback. */
  function OrElse<T>(o: Option<T>, fallback: T): T {
    match o
    case Some(v) => v
    case None => fallback
  }

  /** A nullable text column of bounded length holds this value. */
  predicate FitsIn(s: Option<string>, maxLength: nat) {
    s.None? || |s.value| <= maxLength
  }

  function Min(a: int, b: int): int {
    if a <= b then a else b
  }

  function Max(a: int, b: int): int {
    if a >= b then a else b
  }
}
