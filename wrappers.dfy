/** Option: the value returned by a lookup or a parse that may have nothing to give. */
module Wrappers {
  datatype Option<+T> = None | Some(value: T)

  /** A prefix one element longer. */
  lemma PrefixSnoc<T>(s: seq<T>, i: nat)
    requires i < |s|
    ensures s[..i + 1] == s[..i] + [s[i]]
  {
  }
}
