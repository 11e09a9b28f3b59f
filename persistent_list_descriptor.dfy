/**
 * The runtime descriptor of a persistent List attribute: the immutable
 * "index is a formula" flag read from the boot-time mapping, the fixed
 * answer that a list has an index, the membership test (equals semantics),
 * the position lookup (reference identity), and the queued-operation hook,
 * which does nothing.
 */
module ListDescriptor {
  import opened JavaUtil

  /** The boot-time description of a collection's index; only its formula flag is read. */
  datatype BootIndex = BootIndex(hasFormula: bool)

  /**
   * What a boot-time Property's getValue() may return: null, an IndexedCollection
   * mapping (whose getIndex() may itself be null), or a mapping of another class.
   */
  datatype BootValue = NullValue | IndexedCollection(index: Option<BootIndex>) | OtherValue

  /** A boot-time Property; only its value is consulted. */
  datatype BootProperty = BootProperty(value: BootValue)

  /**
   * The constructor's read of the boot mapping: cast the property's value to
   * IndexedCollection and ask its index whether it has a formula. A value of
   * another class fails the cast; a null value or a null index fails the
   * dereference.
   */
  function ReadHasFormula(bootProperty: BootProperty): (r: Result<bool, JavaException>)
    ensures r == Failure(ClassCastException) <==> bootProperty.value.OtherValue?
    ensures r == Failure(NullPointerException) <==>
              bootProperty.value.NullValue? ||
              (bootProperty.value.IndexedCollection? && bootProperty.value.index.None?)
    ensures r.Success? ==>
              bootProperty.value.IndexedCollection? &&
              bootProperty.value.index == Some(BootIndex(r.value))
  {
    match bootProperty.value
    case NullValue => Failure(NullPointerException)
    case OtherValue => Failure(ClassCastException)
    case IndexedCollection(index) =>
      if index.None? then Failure(NullPointerException) else Success(index.value.hasFormula)
  }

  /**
   * The first position of `s` that holds the very reference `e` (compared with
   * `==`, never with equals), or None when no position does.
   */
  function FirstIdentical(s: seq<object?>, e: object?): (r: Option<nat>)
    ensures r.Some? ==> r.value < |s| && s[r.value] == e
    ensures r.Some? ==> forall j :: 0 <= j < r.value ==> s[j] != e
    ensures r.None? <==> forall j :: 0 <= j < |s| ==> s[j] != e
  {
    if |s| == 0 then None
    else if s[0] == e then Some(0)
    else
      match FirstIdentical(s[1..], e)
      case None => None
      case Some(k) => Some(k + 1)
  }

  class PersistentListDescriptor {
    /** Whether the list's index column is computed by a formula; set once, never written again. */
    const hasFormula: bool

    constructor (bootProperty: BootProperty)
      requires ReadHasFormula(bootProperty).Success?
      ensures hasFormula == bootProperty.value.index.value.hasFormula
      ensures HasIndex() && IndexContainsFormula() == bootProperty.value.index.value.hasFormula
    {
      hasFormula := ReadHasFormula(bootProperty).value;
    }

    /** A list always has an index. */
    function HasIndex(): (r: bool)
      ensures r
    {
      true
    }

    /** The formula flag captured from the boot mapping at construction. */
    function IndexContainsFormula(): (r: bool)
      ensures r == hasFormula
    {
      hasFormula
    }

    /**
     * Membership by List.contains, that is by equals: casting a non-List fails,
     * a null collection fails on the call, and otherwise the answer is the list's.
     */
    function Contains(collection: object?, childObject: object?, equals: (object, object?) -> bool)
      : (r: Result<bool, JavaException>)
      reads if collection is JavaList then {collection} else {}
      ensures collection == null ==> r == Failure(NullPointerException)
      ensures collection != null && !(collection is JavaList) ==> r == Failure(ClassCastException)
      ensures collection is JavaList ==>
                r == Success(ListContains((collection as JavaList).elements, childObject, equals))
    {
      if collection == null then Failure(NullPointerException)
      else if !(collection is JavaList) then Failure(ClassCastException)
      else Success(ListContains((collection as JavaList).elements, childObject, equals))
    }

    /**
     * Position lookup by reference identity: scans the list from position 0 and
     * answers the first position holding `element` itself, or None. Compares
     * with `==`, so an equal but distinct object is not found, and a proxy
     * standing in for `element` is not unwrapped.
     */
    method IndexOf(collection: object?, element: object?) returns (r: Result<Option<nat>, JavaException>)
      ensures collection == null ==> r == Failure(NullPointerException)
      ensures collection != null && !(collection is JavaList) ==> r == Failure(ClassCastException)
      ensures collection is JavaList ==> r.Success?
      ensures collection is JavaList && r.Success? && r.value.Some? ==>
                var s, i := (collection as JavaList).elements, r.value.value;
                i < |s| && s[i] == element && forall j :: 0 <= j < i ==> s[j] != element
      ensures collection is JavaList && r.Success? ==>
                var s := (collection as JavaList).elements;
                (r.value.None? <==> forall j :: 0 <= j < |s| ==> s[j] != element)
      ensures collection is JavaList ==>
                r == Success(FirstIdentical((collection as JavaList).elements, element))
    {
      if collection == null {
        return Failure(NullPointerException);
      }
      if !(collection is JavaList) {
        return Failure(ClassCastException);
      }
      var list := collection as JavaList;
      var i := 0;
      while i < |list.elements|
        invariant 0 <= i <= |list.elements|
        invariant forall j :: 0 <= j < i ==> list.elements[j] != element
      {
        if list.elements[i] == element {
          return Success(Some(i));
        }
        i := i + 1;
      }
      return Success(None);
    }

    /** Replaying queued operations is not implemented for lists: the hook does nothing. */
    method DoProcessQueuedOps(collection: JavaList?, id: object?, session: object?)
      ensures collection != null ==> unchanged(collection)
    {
    }
  }

  /**
   * Whenever the identity scan finds `e`, List.contains(e) holds too, for any
   * equals that is reflexive, as the Object.equals contract demands.
   */
  lemma IdentityFoundImpliesContains(s: seq<object?>, e: object?, equals: (object, object?) -> bool)
    requires forall x: object :: equals(x, x)
    requires FirstIdentical(s, e).Some?
    ensures ListContains(s, e, equals)
  {
  }

  /**
   * The converse fails: a list holding one object `a` contains a distinct
   * object `b` that equals it, yet the identity scan does not find `b`. The
   * equals used keeps the Object.equals contract: reflexive, and false on null.
   */
  lemma ContainsDoesNotImplyIdentityFound(a: object, b: object)
    requires a != b
    ensures var equals := (x: object, y: object?) => y != null;
            (forall x: object :: equals(x, x) && !equals(x, null)) &&
            ListContains([a], b, equals) && FirstIdentical([a], b).None?
  {
    var equals := (x: object, y: object?) => y != null;
    assert ContainsMatch(b, [a][0], equals);
  }

  /**
   * For the null reference the two lookups agree: List.contains(null) tests
   * `e == null`, which is exactly the identity test against null.
   */
  lemma NullContainsIffIdentityFound(s: seq<object?>, equals: (object, object?) -> bool)
    ensures ListContains(s, null, equals) <==> FirstIdentical(s, null).Some?
  {
  }

  /**
   * A list holding `a, b, c` (distinct references): `b` is at position 1, an
   * absent `z` has no position, and `c` is contained.
   */
  lemma ThreeElementScenario(a: object, b: object, c: object, z: object, equals: (object, object?) -> bool)
    requires a != b && b != c && a != c
    requires z != a && z != b && z != c
    requires equals(c, c)
    ensures FirstIdentical([a, b, c], b) == Some(1)
    ensures FirstIdentical([a, b, c], z) == None
    ensures ListContains([a, b, c], c, equals)
  {
    assert [a, b, c][1..] == [b, c];
    assert ContainsMatch(c, [a, b, c][2], equals);
  }

  /** When `e` occurs more than once, the scan answers its earliest position. */
  lemma FirstOfRepeated(a: object?, e: object?)
    requires a != e
    ensures FirstIdentical([a, e, a, e], e) == Some(1)
  {
  }
}
