/** The fragment of PHP semantics the friendship code leans on. */
module Php {
  import opened Wrappers

  /** PHP's `empty($v)` for a value that is either `null` or an integer:
      true for `null` and for `0`, false for every other integer. */
  predicate Empty(v: Option<int>) {
    v.None? || v.value == 0
  }

}
