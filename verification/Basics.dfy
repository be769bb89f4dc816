/** Small things that several parts use. */
module Basics {
  /** A value that may be missing. */
  datatype Option<+T> = None | Some(value: T)

  const U32: nat := 0x1_0000_0000

  function Max(a: int, b: int): int { if a < b then b else a }

  lemma AnyOf<T>(s: set<T>) returns (x: T)
    requires |s| != 0
    ensures x in s
  {
    x :| x in s;
  }

  lemma {:induction false} SubsetCount<T>(a: set<T>, b: set<T>)
    requires a <= b
    ensures |a| <= |b|
  {
    if |a| != 0 {
      var x := AnyOf(a);
      SubsetCount(a - {x}, b - {x});
    }
  }
}
