/**
 * Optional values, used for the absent winner and for inputs that name no direction, and the
 * "no element twice" property shared by the snake's body, the memory deck and its matched list.
 */
module Wrappers {

  datatype Option<+T> = None | Some(value: T)

  /** No element occurs at two positions of `s`. */
  predicate Distinct<T(==)>(s: seq<T>) {
    forall i, j :: 0 <= i < j < |s| ==> s[i] != s[j]
  }
}
