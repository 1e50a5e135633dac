/** The vector's iterators, whose index is a machine word that starts one before the first position. */
module StlVector {

  /** The number of values of `size_t`. */
  const WORD: nat := 0x1_0000_0000_0000_0000

  class Iterator<E> {
    var index: nat
    var val: E
    var it: nat
    const elems: seq<E>

    /** The index is one behind the position, modulo the word size. */
    ghost predicate Valid()
      reads this
    {
      |elems| < WORD && it <= |elems| && index == if it == 0 then WORD - 1 else it - 1
    }

    constructor (elems: seq<E>, any: E)
      requires |elems| < WORD
      ensures Valid() && this.elems == elems && it == 0
    {
      this.elems, val := elems, any;
      index := WORD - 1;
      it := 0;
    }

    method Next() returns (more: bool)
      requires Valid()
      modifies this
      ensures Valid() && (more <==> old(it) < |elems|)
      ensures more ==> it == old(it) + 1 && index == old(it) && val == elems[old(it)]
      ensures !more ==> it == old(it)
    {
      if it == |elems| {
        return false;
      }
      index := (index + 1) % WORD;
      val := elems[it];
      it := it + 1;
      return true;
    }
  }

  class ReverseIterator<E> {
    var index: nat
    var val: E
    /** How many elements have been passed, from the last one on. */
    var it: nat
    const elems: seq<E>

    ghost predicate Valid()
      reads this
    {
      |elems| < WORD && it <= |elems| && index == |elems| - it
    }

    constructor (elems: seq<E>, any: E)
      requires |elems| < WORD
      ensures Valid() && this.elems == elems && it == 0
    {
      this.elems, val := elems, any;
      index := |elems|;
      it := 0;
    }

    method Next() returns (more: bool)
      requires Valid()
      modifies this
      ensures Valid() && (more <==> old(it) < |elems|)
      ensures more ==> it == old(it) + 1 && index == |elems| - 1 - old(it) && val == elems[index]
      ensures !more ==> it == old(it)
    {
      if it == |elems| {
        return false;
      }
      index := (index + WORD - 1) % WORD;
      val := elems[|elems| - 1 - it];
      it := it + 1;
      return true;
    }
  }
}
