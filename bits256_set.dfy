/** src/wfc/bits256_set.rs: a set of tile ids 0..=255 stored as two 128-bit words.
  * A word is modelled bit by bit: bit `i` of a `u128` is element `i` of a 128-element sequence. */
module Bits256Sets {
  import opened Prelude

  /** A `u128`, least significant bit first. */
  type Word = w: seq<bool> | |w| == 128 witness Fill(false)

  /** A word with every bit equal to `b`. */
  function Fill(b: bool): (w: seq<bool>)
    ensures |w| == 128 && forall i :: 0 <= i < 128 ==> w[i] == b
  {
    seq(128, i => b)
  }

  /** `0` */
  const ZERO: Word := Fill(false)

  /** `u128::MAX` */
  const ALL_ONES: Word := Fill(true)

  /** `2u128.pow(k)`: only bit `k` set. */
  function Pow2(k: int): Word
    requires 0 <= k < 128
  {
    seq(128, i => i == k)
  }

  /** `u | v` */
  function Or(u: Word, v: Word): Word { seq(128, i requires 0 <= i < 128 => u[i] || v[i]) }

  /** `u & v` */
  function And(u: Word, v: Word): Word { seq(128, i requires 0 <= i < 128 => u[i] && v[i]) }

  /** `!w` */
  function Not(w: Word): Word { seq(128, i requires 0 <= i < 128 => !w[i]) }

  /** `count_ones` restricted to the bits below `n`. */
  function Ones(w: Word, n: nat): nat
    requires n <= 128
  {
    if n == 0 then 0 else Ones(w, n - 1) + (if w[n - 1] then 1 else 0)
  }

  datatype Bits256Set = Bits256Set(first: Word, second: Word) {

    /** `contains`: `2^x & first != 0` for `x < 128`, `2^(x % 128) & second != 0` otherwise,
      * that is, bit `x % 128` of the word selected by `x / 128`. For a `u8`, `x / 128 == 0` is
      * `x < 128` and `x % 128` is `x - 128` in the second word, which is how the model writes
      * them. */
    predicate Contains(x: U8) {
      if x < 128 then first[x] else second[x - 128]
    }

    /** The ids the set holds. */
    ghost function Elems(): set<U8> {
      set x: int | 0 <= x < 256 && Contains(x)
    }

    /** `insert`: `word = 2^x | word` on the word holding `x`; only `x` is added. */
    function Insert(x: U8): (r: Bits256Set)
      ensures forall y: U8 :: r.Contains(y) <==> y == x || Contains(y)
    {
      if x < 128 then Bits256Set(Or(Pow2(x), first), second)
      else Bits256Set(first, Or(Pow2(x - 128), second))
    }

    /** `remove` as written: `word = 2^x & !word` on the word holding `x`, so that half ends up
      * empty when `x` was present and equal to `{x}` when it was absent; the other half is kept. */
    function Remove(x: U8): (r: Bits256Set)
      ensures forall y: U8 :: r.Contains(y) <==>
        if (y < 128) == (x < 128) then y == x && !Contains(x) else Contains(y)
    {
      if x < 128 then Bits256Set(And(Pow2(x), Not(first)), second)
      else Bits256Set(first, And(Pow2(x - 128), Not(second)))
    }

    /** `remove` as evidently intended: `word = !2^x & word` clears only the bit of `x`. */
    function RemoveIntended(x: U8): (r: Bits256Set)
      ensures forall y: U8 :: r.Contains(y) <==> y != x && Contains(y)
    {
      if x < 128 then Bits256Set(And(Not(Pow2(x)), first), second)
      else Bits256Set(first, And(Not(Pow2(x - 128)), second))
    }

    /** `len`: `count_ones` of both words, which is the number of members. */
    function Len(): (n: nat)
      ensures n == |Elems()|
    {
      LenIsCardinality(this);
      Ones(first, 128) + Ones(second, 128)
    }

    /** `items`: the members below 255 in ascending order; 255 is never listed. */
    function Items(): (r: seq<U8>)
      ensures forall i, j :: 0 <= i < j < |r| ==> r[i] < r[j]
      ensures forall y: U8 :: y in r <==> y < 255 && Contains(y)
      ensures forall i :: 0 <= i < |r| ==> r[i] < 255 && Contains(r[i])
    {
      var r := ItemsFrom(0);
      assert forall i :: 0 <= i < |r| ==> r[i] in r;
      r
    }

    /** The filter over `from..255` behind `items`. */
    function ItemsFrom(from: nat): (r: seq<U8>)
      requires from <= 255
      ensures forall i :: 0 <= i < |r| ==> from <= r[i]
      ensures forall i, j :: 0 <= i < j < |r| ==> r[i] < r[j]
      ensures forall y: U8 :: y in r <==> from <= y < 255 && Contains(y)
      decreases 255 - from
    {
      if from == 255 then []
      else if Contains(from) then [from as U8] + ItemsFrom(from + 1)
      else ItemsFrom(from + 1)
    }
  }

  // ---------------------------------------------------------------------------
  // Counting bits

  /** The members below `n`. */
  ghost function Below(b: Bits256Set, n: nat): set<U8> {
    set x: int | 0 <= x < n && x < 256 && b.Contains(x)
  }

  /** Going from the members below `m` to those below `m + 1` adds `m` when it is a member. */
  lemma BelowStep(b: Bits256Set, m: nat)
    requires m < 256
    ensures |Below(b, m + 1)| == |Below(b, m)| + if b.Contains(m) then 1 else 0
  {
    var added := if b.Contains(m) then {m as U8} else {};
    assert Below(b, m + 1) == Below(b, m) + added;
  }

  lemma {:induction false} BelowCount(b: Bits256Set, n: nat)
    requires n <= 256
    ensures |Below(b, n)| == if n <= 128 then Ones(b.first, n) else Ones(b.first, 128) + Ones(b.second, n - 128)
  {
    if n > 0 {
      BelowCount(b, n - 1);
      BelowStep(b, n - 1);
      if n <= 128 {
        assert b.Contains(n - 1) == b.first[n - 1];
      } else {
        assert b.Contains(n - 1) == b.second[n - 129];
      }
    }
  }

  lemma LenIsCardinality(b: Bits256Set)
    ensures Ones(b.first, 128) + Ones(b.second, 128) == |b.Elems()|
  {
    BelowCount(b, 256);
    assert Below(b, 256) == b.Elems();
  }

  // ---------------------------------------------------------------------------
  // Constructors

  /** `new_any`: both words all ones, so every id 0..=255 is a member. */
  function NewAny(): (r: Bits256Set)
    ensures forall x: U8 :: r.Contains(x)
  {
    Bits256Set(ALL_ONES, ALL_ONES)
  }

  /** `new_empty`: both words zero, so no id is a member. */
  function NewEmpty(): (r: Bits256Set)
    ensures forall x: U8 :: !r.Contains(x)
  {
    Bits256Set(ZERO, ZERO)
  }

  /** `len` is 0 for `new_empty` and 256 for `new_any`. */
  lemma LenOfConstants()
    ensures NewEmpty().Len() == 0
    ensures NewAny().Len() == 256
  {
    OnesOfConstants(128);
  }

  lemma {:induction false} OnesOfConstants(n: nat)
    requires n <= 128
    ensures Ones(ZERO, n) == 0 && Ones(ALL_ONES, n) == n
  {
    if n > 0 {
      OnesOfConstants(n - 1);
    }
  }

  /** `new_from_vec`: inserts every listed id into an empty set. */
  method NewFromVec(items: seq<U8>) returns (bits: Bits256Set)
    ensures forall x: U8 :: bits.Contains(x) <==> x in items
  {
    bits := NewEmpty();
    for k := 0 to |items|
      invariant forall x: U8 :: bits.Contains(x) <==> x in items[..k]
    {
      bits := bits.Insert(items[k]);
      assert items[..k + 1] == items[..k] + [items[k]];
    }
    assert items[..|items|] == items;
  }

  /** The set holding exactly the members of `s`: what `new_from_hash_set` builds. */
  function FromSet(s: set<U8>): (r: Bits256Set)
    ensures forall x: U8 :: r.Contains(x) <==> x in s
    ensures r.Elems() == s
  {
    Bits256Set(seq(128, i => i in s), seq(128, i => i + 128 in s))
  }

  /** `new_from_hash_set`: inserts every member, in the set's (unspecified) iteration order. The
    * result does not depend on that order. */
  method NewFromHashSet(s: set<U8>) returns (bits: Bits256Set)
    ensures forall x: U8 :: bits.Contains(x) <==> x in s
    ensures bits == FromSet(s)
  {
    bits := NewEmpty();
    var rest := s;
    while rest != {}
      invariant rest <= s
      invariant forall x: U8 :: bits.Contains(x) <==> x in s - rest
      decreases |rest|
    {
      var item :| item in rest;
      bits := bits.Insert(item);
      rest := rest - {item};
    }
    EqualIffSameMembers(bits, FromSet(s));
  }

  // ---------------------------------------------------------------------------
  // Folds

  /** The fold behind `new_sum`: OR every input into the accumulator `acc`. */
  function SumFold(acc: Bits256Set, sets: seq<Bits256Set>): (r: Bits256Set)
    ensures forall x: U8 :: r.Contains(x) <==> acc.Contains(x) || exists i :: 0 <= i < |sets| && sets[i].Contains(x)
    decreases |sets|
  {
    if sets == [] then acc
    else
      var r := SumFold(Bits256Set(Or(acc.first, sets[0].first), Or(acc.second, sets[0].second)), sets[1..]);
      assert forall x: U8 :: r.Contains(x) <==> acc.Contains(x) || exists i :: 0 <= i < |sets| && sets[i].Contains(x) by {
        forall x: U8 | exists i :: 0 <= i < |sets| && sets[i].Contains(x)
          ensures r.Contains(x)
        {
          var i :| 0 <= i < |sets| && sets[i].Contains(x);
          if i > 0 {
            assert sets[1..][i - 1] == sets[i];
          }
        }
      }
      r
  }

  /** The fold behind `new_intersection`: AND every input into the accumulator `acc`. */
  function IntersectionFold(acc: Bits256Set, sets: seq<Bits256Set>): (r: Bits256Set)
    ensures forall x: U8 :: r.Contains(x) <==> acc.Contains(x) && forall i :: 0 <= i < |sets| ==> sets[i].Contains(x)
    decreases |sets|
  {
    if sets == [] then acc
    else
      var r := IntersectionFold(Bits256Set(And(acc.first, sets[0].first), And(acc.second, sets[0].second)), sets[1..]);
      assert forall x: U8 :: r.Contains(x) <==> acc.Contains(x) && forall i :: 0 <= i < |sets| ==> sets[i].Contains(x) by {
        forall x: U8 | r.Contains(x)
          ensures forall i :: 0 <= i < |sets| ==> sets[i].Contains(x)
        {
          forall i | 0 <= i < |sets| ensures sets[i].Contains(x) {
            if i > 0 {
              assert sets[1..][i - 1] == sets[i];
            }
          }
        }
      }
      r
  }

  /** `new_sum`: an id is a member iff some input holds it; no inputs give the empty set. */
  function NewSum(sets: seq<Bits256Set>): (r: Bits256Set)
    ensures forall x: U8 :: r.Contains(x) <==> exists i :: 0 <= i < |sets| && sets[i].Contains(x)
  {
    SumFold(NewEmpty(), sets)
  }

  /** `new_intersection`: an id is a member iff every input holds it; no inputs give the FULL set. */
  function NewIntersection(sets: seq<Bits256Set>): (r: Bits256Set)
    ensures forall x: U8 :: r.Contains(x) <==> forall i :: 0 <= i < |sets| ==> sets[i].Contains(x)
  {
    IntersectionFold(NewAny(), sets)
  }

  // ---------------------------------------------------------------------------
  // Equality

  /** The derived `PartialEq` compares both words; two sets are equal exactly when they have the
    * same members. */
  lemma EqualIffSameMembers(a: Bits256Set, b: Bits256Set)
    ensures a == b <==> forall x: U8 :: a.Contains(x) == b.Contains(x)
  {
    if forall x: U8 :: a.Contains(x) == b.Contains(x) {
      forall k | 0 <= k < 128 ensures a.first[k] == b.first[k] {
        assert a.Contains(k) == b.Contains(k);
      }
      forall k | 0 <= k < 128 ensures a.second[k] == b.second[k] {
        assert a.Contains(k + 128) == b.Contains(k + 128);
      }
    }
  }

  /** A set whose members are those of `s` stands for `s`. */
  lemma ElemsOf(b: Bits256Set, s: set<U8>)
    requires forall x: U8 :: b.Contains(x) <==> x in s
    ensures b.Elems() == s
  {
  }

  /** Two sets are equal exactly when they stand for the same ids. */
  lemma EqualIffSameElems(a: Bits256Set, b: Bits256Set)
    ensures a == b <==> a.Elems() == b.Elems()
  {
    EqualIffSameMembers(a, b);
    if a.Elems() == b.Elems() {
      forall x: U8 ensures a.Contains(x) == b.Contains(x) {
        assert a.Contains(x) <==> x in a.Elems();
      }
    }
  }

  /** Inserting and then removing `x` empties the whole half that holds `x`, so it restores the set
    * only when that half held nothing else. */
  lemma RemoveAfterInsert(b: Bits256Set, x: U8)
    ensures forall y: U8 :: b.Insert(x).Remove(x).Contains(y) <==> (y < 128) != (x < 128) && b.Contains(y)
  {
  }

  /** A set without `x` comes back unchanged from inserting and then removing `x`, when removal
    * clears only the bit of `x`. */
  lemma RemoveIntendedAfterInsert(b: Bits256Set, x: U8)
    requires !b.Contains(x)
    ensures b.Insert(x).RemoveIntended(x) == b
  {
    EqualIffSameMembers(b.Insert(x).RemoveIntended(x), b);
  }

  /** The set `{2}`: inserting and removing 1 loses 2, and removing the absent 5 from the empty
    * set adds 5. */
  lemma RemoveCounterexample()
    ensures NewEmpty().Insert(2).Contains(2)
    ensures !NewEmpty().Insert(2).Insert(1).Remove(1).Contains(2)
    ensures NewEmpty().Remove(5).Contains(5)
  {
  }
}
