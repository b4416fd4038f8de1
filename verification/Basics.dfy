/** Notions that several checkers share. */
module Basics {

  datatype Option<T> = None | Some(value: T)

  type Byte = x: int | 0 <= x < 256

  ghost predicate Distinct<T>(s: seq<T>) {
    forall i, j :: 0 <= i < j < |s| ==> s[i] != s[j]
  }

  method PickAny<T>(s: set<T>) returns (x: T)
    requires s != {}
    ensures x in s
  {
    x :| x in s;
  }
}
