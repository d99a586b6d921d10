/**
 The failures the range engine raises, and the wrappers that carry them.
 */
module Errors {
  import opened Addresses

  /** One constructor per kind of failure the provider raises (or crashes
      with). `UnknownFamily` stands for two raises: the one of
      `add_to_results` for a range, and the one of `search` for a lookup. */
  datatype Error =
    /** The two ends of a range belong to different address families. */
    | FamilyMismatch(lo: Address, hi: Address)
    /** The low end of a range is above its high end. */
    | WrongOrder(lo: Address, hi: Address)
    /** The family is neither IPv4 nor IPv6. */
    | UnknownFamily(family: Family)
    /** No bucket exists under the key a range is filed to (`nil << range`). */
    | MissingBucket(key: string)
    /** A lookup asked for a family whose table was not generated. */
    | NotCompiledIn(family: Family)

  /** A value or nothing, Ruby's `nil`. */
  datatype Option<+T> = None | Some(value: T)

  /** A value, or the error raised instead of producing one. */
  datatype Result<+T> = Success(value: T) | Failure(error: Error)
}
