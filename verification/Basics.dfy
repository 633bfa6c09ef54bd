/** Small types and arithmetic shared by the modules. */
module Basics {

  datatype Option<+T> = None | Some(value: T)

  datatype Result<+T, +E> = Ok(value: T) | Err(error: E)

  /** `Math.ceil(a / b)` for whole numbers: Dafny's `/` rounds down for a positive divisor. */
  function CeilDiv(a: int, b: int): (r: int)
    requires b > 0
    ensures a <= r * b < a + b
  {
    -((-a) / b)
  }

  function Max(a: int, b: int): int {
    if a < b then b else a
  }

  function Min(a: int, b: int): int {
    if a < b then a else b
  }

  lemma SubsetIsSmaller<T>(part: set<T>, whole: set<T>)
    requires part <= whole
    ensures |part| <= |whole|
    ensures part < whole ==> |part| < |whole|
  {
    assert whole == part + (whole - part);
    if part < whole {
      assert whole - part != {};
    }
  }
}
