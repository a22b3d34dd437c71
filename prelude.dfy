/** Types shared by every module of the model. */
module Prelude {

  /** A Rust `u8`: tile identities and heap priorities. */
  type U8 = x: int | 0 <= x < 256

  /** Rust's `Option`. */
  datatype Option<+T> = None | Some(value: T)

  // ---------------------------------------------------------------------------
  // Set sizes

  /** The ids below `n`. */
  function IdsBelow(n: nat): (r: set<U8>)
    requires n <= 256
    ensures |r| == n
    ensures forall x :: x in r <==> 0 <= x < n
  {
    if n == 0 then {} else
      var r := IdsBelow(n - 1);
      assert n - 1 !in r;
      r + {n - 1}
  }

  lemma {:induction false} SubsetSize(a: set<U8>, b: set<U8>)
    requires a <= b
    ensures |a| <= |b|
    decreases |a|
  {
    if a != {} {
      var x := PickFrom(a);
      SubsetSize(a - {x}, b - {x});
    }
  }

  /** Some member of a non-empty set. */
  ghost function PickFrom(s: set<U8>): (x: U8)
    requires s != {}
    ensures x in s
  {
    var x :| x in s; x
  }

  lemma ProperSubsetSize(a: set<U8>, b: set<U8>)
    requires a <= b && a != b
    ensures |a| < |b|
  {
    var x := PickFrom(b - a);
    SubsetSize(a, b - {x});
  }
}
