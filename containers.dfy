/**
 * Values and caller-owned containers shared by the ContainerUtil model.
 *
 * Iterators, enumerations and the collections the utility only reads are
 * finite sequences. Lists the utility creates and returns are sequence
 * values (they are fresh and nobody else holds them). A collection that the
 * CALLER owns and that the utility changes in place is a `MutableList`.
 */
module Containers {

  /** A found element, or the `null` the Java code returns when nothing matches. */
  datatype Option<+T> = None | Some(value: T)

  /** The exception a `java.util.List` throws for an index outside `[0, size)`. */
  datatype ListError = IndexOutOfBounds(index: int)

  /** Normal completion, or the exception that ended a call. */
  datatype Outcome<+E> = Pass | Fail(error: E)

  /** A caller-owned `java.util.List`: the utility's mutations are visible to every holder. */
  class MutableList<T> {
    var elements: seq<T>

    constructor (init: seq<T>)
      ensures elements == init
    {
      elements := init;
    }

    /** `List.add`: appends at the end. */
    method Add(x: T)
      modifies this
      ensures elements == old(elements) + [x]
    {
      elements := elements + [x];
    }

    /** `List.set` on an index the caller has already checked. */
    method Set(index: nat, x: T)
      requires index < |elements|
      modifies this
      ensures elements == old(elements)[index := x]
    {
      elements := elements[index := x];
    }

    /** `Iterator.remove` on the element at `index`, the one `next()` returned last. */
    method RemoveAt(index: nat)
      requires index < |elements|
      modifies this
      ensures elements == old(elements)[..index] + old(elements)[index + 1..]
    {
      elements := elements[..index] + elements[index + 1..];
    }
  }
}
