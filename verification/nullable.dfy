/** JavaScript's two absent values, `null` and `undefined`, collapsed into a
    single `None`, together with the two defaulting operators the bot uses on
    them: nullish coalescing `??` and logical or `||`. */
module Nullable {

  datatype Option<+T> = None | Some(value: T) {

    /** `this ?? fallback`: any present value wins, including 0 and "". */
    function OrElse(fallback: Option<T>): Option<T> {
      if Some? then this else fallback
    }

    /** The present value, or `default` when absent. */
    function GetOr(default: T): T {
      if Some? then value else default
    }
  }

  /** A nullable string is truthy unless it is absent or empty. */
  predicate Truthy(s: Option<string>) {
    s.Some? && s.value != ""
  }

  /** `s || ''`: the string itself when truthy, the empty string otherwise. */
  function OrEmpty(s: Option<string>): string {
    if Truthy(s) then s.value else ""
  }
}
