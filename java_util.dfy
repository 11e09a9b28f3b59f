/**
 * The fragment of java.lang and java.util that the list descriptor relies on:
 * nullable references, the unchecked exceptions a cast or a dereference raises,
 * a mutable java.util.List, and the documented meaning of List.contains.
 */
module JavaUtil {

  datatype Option<+T> = None | Some(value: T)

  datatype Result<+R, +E> = Success(value: R) | Failure(error: E)

  /** The unchecked exceptions that a checked cast and a null dereference throw. */
  datatype JavaException = ClassCastException | NullPointerException

  /**
   * A java.util.List instance: an object whose state is an ordered sequence
   * of nullable references. Position i holds what `get(i)` returns and
   * `size()` is the length of the sequence.
   */
  class JavaList {
    var elements: seq<object?>
  }

  /** The element test of List.contains(o): `o == null ? e == null : o.equals(e)`. */
  predicate ContainsMatch(o: object?, e: object?, equals: (object, object?) -> bool)
  {
    if o == null then e == null else equals(o, e)
  }

  /**
   * java.util.List.contains(o): true iff some element e satisfies the element
   * test above. This is the interface's documented meaning; which List class
   * implements it is not part of this model.
   */
  predicate ListContains(s: seq<object?>, o: object?, equals: (object, object?) -> bool)
  {
    exists i :: 0 <= i < |s| && ContainsMatch(o, s[i], equals)
  }
}
