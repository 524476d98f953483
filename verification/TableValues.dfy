/** Lua values as table keys and contents (lobject.h), and the position functions of ltable.c.

    A number is known only by what the table code can observe of it: a whole number is the
    integer it equals, any other number is an opaque identity, and NaN is separate because it
    is not equal to itself. Strings, light userdata and collectable objects are identities. */
module TableValues {

  datatype Result<+T, +E> = Ok(value: T) | Err(error: E) {
    predicate IsFailure() {
      Err?
    }
    function PropagateFailure<U>(): Result<U, E>
      requires Err?
    {
      Err(error)
    }
    function Extract(): T
      requires Ok?
    {
      value
    }
  }

  datatype Number = Whole(i: int) | Other(id: nat) | NaN

  datatype Value =
    | Nil
    | Boolean(b: bool)
    | Num(n: Number)
    | Str(id: nat)
    | Light(id: nat)
    | Object(id: nat)

  const MIN_INT := -0x8000_0000
  const INT_MAX := 0x7fff_ffff
  const MAXBITS := 26
  const MAXASIZE := 0x400_0000

  function KeyOf(i: int): Value {
    Num(Whole(i))
  }

  /** luaO_rawequalObj: equality of values, false for NaN. */
  predicate RawEqual(a: Value, b: Value) {
    a == b && a != Num(NaN)
  }

  predicate IsCollectable(v: Value) {
    v.Str? || v.Object?
  }

  /** A value that may be stored as a key. */
  predicate IsKey(k: Value) {
    k != Nil && k != Num(NaN)
  }

  /** arrayindex: the int a whole number in int range converts to, -1 for anything else. */
  function ArrayIndex(key: Value): int {
    if key.Num? && key.n.Whole? && MIN_INT <= key.n.i <= INT_MAX then key.n.i else -1
  }

  predicate InArray(key: Value, size: nat) {
    0 < ArrayIndex(key) <= size
  }

  /** mainposition for a node vector of the given size (a power of two in use). Strings and
      booleans reduce the hash by lmod; everything else by hashmod, modulo (size-1)|1; the
      number zero always goes to node 0. */
  function MainPosition(hash: Value -> nat, key: Value, size: nat): (m: nat)
    requires size > 0
    ensures m < size
  {
    if key == KeyOf(0) then 0
    else if key.Str? || key.Boolean? then hash(key) % size
    else hash(key) % (if size == 1 then 1 else size - 1)
  }
}
