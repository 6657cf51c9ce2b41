/** Small datatypes and machine-integer helpers shared by every module. */
module Common {

  datatype Option<+T> = None | Some(value: T)

  datatype Result<+T, +E> = Ok(value: T) | Err(error: E)

  /** The largest `usize` on a 64-bit target. */
  const USIZE_MAX: nat := 0xFFFF_FFFF_FFFF_FFFF

  /** `usize::saturating_add`. */
  function SaturatingAdd(a: nat, b: nat): nat {
    if a + b <= USIZE_MAX then a + b else USIZE_MAX
  }

  ghost predicate Distinct<T>(s: seq<T>) {
    forall i, j :: 0 <= i < j < |s| ==> s[i] != s[j]
  }
}
