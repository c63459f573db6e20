/**
 * Error codes shared by every container (`col_error_t`) and an optional value
 * standing for a pointer that may be NULL.
 */
module ColErrors {

  /** The `col_error_t` codes the containers return; `Ok` is `COL_OK`. */
  datatype ColError = Ok | Overflow | Underflow | IllegalArgument | BadAlloc

  datatype Option<T> = None | Some(value: T)

  /** `SIZE_MAX` on a 64-bit target. */
  const SIZE_MAX: nat := 0xFFFF_FFFF_FFFF_FFFF

  /** Values a `size_t` can hold. */
  predicate IsSize(n: int) { 0 <= n <= SIZE_MAX }
}
