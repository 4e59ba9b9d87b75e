module Wrappers {
  datatype Option<+T> = None | Some(value: T)

  lemma Reassociate<X>(a: seq<X>, b: seq<X>, c: seq<X>)
    ensures a + (b + c) == a + b + c
  {
  }
}
