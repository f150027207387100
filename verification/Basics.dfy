/** Types and sequence facts that several components use. */
module Basics {

  type Byte = x: int | 0 <= x < 256

  datatype Option<T> = None | Some(value: T)

  lemma Regroup<T>(a: seq<T>, b: seq<T>, c: seq<T>)
    ensures a + (b + c) == a + b + c
  {
  }

  /** A sequence that agrees with `front` first and with `back` from there on. */
  lemma Glue<T>(s: seq<T>, front: seq<T>, back: seq<T>)
    requires |s| == |back| && |front| <= |s|
    requires forall k :: 0 <= k < |front| ==> s[k] == front[k]
    requires forall k :: |front| <= k < |s| ==> s[k] == back[k]
    ensures s == front + back[|front|..]
  {
  }
}
