/** src/wfc/direction_mapping.rs: six values, one per direction, kept in a vector. */
module DirectionMappings {

  /** The backing vector `repr` holds, in order: up, down, right, left, front, back. */
  datatype DirectionMapping<T> = DirectionMapping(repr: seq<T>) {

    /** The vector built by `new` always has six slots and is never changed afterwards. */
    predicate Valid() { |repr| == 6 }

    function Up(): T requires Valid() { repr[0] }
    function Down(): T requires Valid() { repr[1] }
    function Right(): T requires Valid() { repr[2] }
    function Left(): T requires Valid() { repr[3] }
    function Front(): T requires Valid() { repr[4] }
    function Back(): T requires Valid() { repr[5] }
  }

  /** `DirectionMapping::new(up, down, right, left, front, back)`. */
  function New<T>(up: T, down: T, right: T, left: T, front: T, back: T): (m: DirectionMapping<T>)
    ensures m.Valid()
    ensures m.Up() == up && m.Down() == down
    ensures m.Right() == right && m.Left() == left
    ensures m.Front() == front && m.Back() == back
  {
    DirectionMapping([up, down, right, left, front, back])
  }

  /** Applying `f` to every slot keeps the slot order (the shape of every `prepare_rules`). */
  function MapSlots<T, U>(m: DirectionMapping<T>, f: T -> U): (r: DirectionMapping<U>)
    requires m.Valid()
    ensures r.Valid()
    ensures forall k :: 0 <= k < 6 ==> r.repr[k] == f(m.repr[k])
  {
    New(f(m.Up()), f(m.Down()), f(m.Right()), f(m.Left()), f(m.Front()), f(m.Back()))
  }
}
