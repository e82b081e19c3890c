/** JavaScript's two "absent" values and the nullish-coalescing operator `??`,
    as the post transform uses them on front-matter fields. */
module JsValues {

  /** A JavaScript value of type `T | null | undefined`. A missing
      front-matter key reads as `Undefined`; an explicit YAML `null` as `Null`. */
  datatype JsOptional<+T> = Undefined | Null | Defined(value: T) {

    /** True for the two values that `??` replaces. */
    predicate IsNullish() {
      Undefined? || Null?
    }
  }

  /** `left ?? right`: the right operand exactly when the left one is
      `null` or `undefined`, the left operand otherwise. Falsy values that are
      not nullish (an empty string, say) are kept. */
  function Coalesce<T>(left: JsOptional<T>, right: JsOptional<T>): JsOptional<T> {
    if left.IsNullish() then right else left
  }
}
