# Persistent List descriptor

A model of Hibernate's runtime descriptor for List-valued persistent
attributes, `PersistentListDescriptorImpl`. The descriptor is built once from
the boot-time mapping of the attribute and is immutable afterwards. Its
list-specific behaviour:

- it reads, once, whether the list index is computed by a SQL formula, and
  reports that flag from then on (`indexContainsFormula`);
- it always reports that the collection has an index (`hasIndex`);
- `contains` is membership by `List.contains`, which compares with `equals`;
- `indexOf` is a linear scan that answers the first position holding the
  very reference asked for (`==`, not `equals`), or `null`;
- `doProcessQueuedOps`, the replay of operations queued while the collection
  was detached, does nothing.

Files:

- `java_util.dfy` (module `JavaUtil`): Option/Result, the two unchecked
  exceptions the descriptor can raise (`ClassCastException` from a cast,
  `NullPointerException` from a dereference), a mutable `JavaList` class
  and the documented meaning of `List.contains`. Arguments of static type
  `Object` are `object?`, and the cast `(List) collection` is the type test
  `collection is JavaList`.
- `persistent_list_descriptor.dfy` (module `ListDescriptor`): the boot
  mapping as values, the read of the formula flag, the identity scan as a
  specification function, the descriptor class and the lemmas relating
  `contains` to `indexOf`.

Modelling choices:

- List elements are `seq<object?>`, so Dafny's `==` on them is Java's
  reference identity. The list is an object (`JavaList`) with a mutable
  `elements` field. `IndexOf` has no `modifies` clause and `Contains`
  only `reads` the list, so the model proves neither of them changes it.
- Java's `equals` is a parameter `equals: (object, object?) -> bool`.
  `ListContains(s, o, equals)` holds iff some element `e` satisfies
  `o == null ? e == null : o.equals(e)`. Lemmas that need the
  `Object.equals` contract state it as a requires (reflexivity).
- The casts `(List) collection` and `(IndexedCollection) bootProperty.getValue()`
  are modelled as error results, not preconditions. A non-List argument gives
  `ClassCastException`. A null collection passes the cast and then fails on
  the call, giving `NullPointerException`. A null value or a null index in
  the boot mapping gives `NullPointerException` too.
- The `final` field `hasFormula` is a Dafny `const`. So every call of
  `IndexContainsFormula` on one descriptor gives the same answer, namely the
  flag read by the constructor.
- `indexOf` returns a boxed `Integer` or `null`. The model returns
  `Option<nat>`. The Java loop counter cannot overflow, because it stays below
  `size()`, which is an `int`. So the model uses unbounded `nat`, and
  `size()` is the length of `elements`.

One might expect `contains(C, e)` to agree with `indexOf(C, e)` being
present. It does not: `contains` compares with `equals` and `indexOf` with
`==`, so only one direction holds. `IdentityFoundImpliesContains` proves that
direction. `ContainsDoesNotImplyIdentityFound` exhibits two distinct, equal
objects for which the other direction fails. For the null reference the two
agree (`NullContainsIffIdentityFound`).

## Model

| member | source | states |
|---|---|---|
| `ListDescriptor.ReadHasFormula` | hibernate-core/src/main/java/org/hibernate/metamodel/model/domain/internal/PersistentListDescriptorImpl.java:45-46 | The constructor's read of the boot mapping. A value that is not an IndexedCollection fails with ClassCastException. A null value or a null index fails with NullPointerException. Otherwise the result is the index's hasFormula. |
| `ListDescriptor.PersistentListDescriptor.constructor` | hibernate-core/src/main/java/org/hibernate/metamodel/model/domain/internal/PersistentListDescriptorImpl.java:38-47 | The descriptor keeps, in its final field, the hasFormula flag of the boot mapping's index. Right after construction it reports hasIndex and that flag. |
| `ListDescriptor.PersistentListDescriptor.HasIndex` | hibernate-core/src/main/java/org/hibernate/metamodel/model/domain/internal/PersistentListDescriptorImpl.java:100-103 | A list descriptor always has an index: the answer is true for every descriptor. |
| `ListDescriptor.PersistentListDescriptor.IndexContainsFormula` | hibernate-core/src/main/java/org/hibernate/metamodel/model/domain/internal/PersistentListDescriptorImpl.java:105-108 | The answer is the final flag captured at construction; being a const, it is the same on every call. |
| `ListDescriptor.PersistentListDescriptor.Contains` | hibernate-core/src/main/java/org/hibernate/metamodel/model/domain/internal/PersistentListDescriptorImpl.java:87-90 | Null collection: NullPointerException. Non-List collection: ClassCastException. Otherwise the answer is List.contains: some element e with (child == null ? e == null : child.equals(e)). Reads the list and changes nothing. |
| `ListDescriptor.FirstIdentical` | hibernate-core/src/main/java/org/hibernate/metamodel/model/domain/internal/PersistentListDescriptorImpl.java:113-119 | The identity scan's meaning. If it answers i, then i < the list's size, position i holds the very reference, and no earlier position does. It answers None exactly when no position holds that reference. |
| `ListDescriptor.PersistentListDescriptor.IndexOf` | hibernate-core/src/main/java/org/hibernate/metamodel/model/domain/internal/PersistentListDescriptorImpl.java:110-120 | Null collection: NullPointerException. Non-List collection: ClassCastException. Otherwise it answers the first position holding the same reference (==), bounded by the size, or None exactly when no position does. Equals that result of FirstIdentical. Has no modifies clause, so it changes nothing. |
| `ListDescriptor.PersistentListDescriptor.DoProcessQueuedOps` | hibernate-core/src/main/java/org/hibernate/metamodel/model/domain/internal/PersistentListDescriptorImpl.java:92-98 | Does nothing: the collection is unchanged, and the descriptor is too, because it has no modifies clause. |
| `ListDescriptor.IdentityFoundImpliesContains` | hibernate-core/src/main/java/org/hibernate/metamodel/model/domain/internal/PersistentListDescriptorImpl.java:88-90 | When equals is reflexive and indexOf finds e by identity, contains(e) is true. |
| `ListDescriptor.ContainsDoesNotImplyIdentityFound` | hibernate-core/src/main/java/org/hibernate/metamodel/model/domain/internal/PersistentListDescriptorImpl.java:115 | The converse fails. A list holding one object a contains a distinct object b under an equals that keeps the Object.equals contract, yet indexOf does not find b. Value equality is not identity. |
| `ListDescriptor.NullContainsIffIdentityFound` | hibernate-core/src/main/java/org/hibernate/metamodel/model/domain/internal/PersistentListDescriptorImpl.java:113-116 | Searching for null: contains(null) holds exactly when indexOf(null) finds a position, which is the first null slot. |
| `ListDescriptor.ThreeElementScenario` | hibernate-core/src/main/java/org/hibernate/metamodel/model/domain/internal/PersistentListDescriptorImpl.java:111-119 | For distinct a, b, c, indexOf finds b at position 1 and finds no absent z, and contains(c) holds for a reflexive equals. |
| `ListDescriptor.FirstOfRepeated` | hibernate-core/src/main/java/org/hibernate/metamodel/model/domain/internal/PersistentListDescriptorImpl.java:113-116 | With e at positions 1 and 3, indexOf answers 1: the earliest match. |

## Left out

- `createInitializerProducer` (lines 49-77): it only wires together collaborators that are not part of this model (the SQL AST helper, the list initializer producer, navigable-path appending). It passes `null` in place of its `resultVariable` and `lockMode` arguments.
- `createAttribute` (lines 79-85): a single constructor call into `ListAttributeImpl`, which is not part of this model.
- The superclass constructor `super(...)` (line 44) and the index and element descriptors it sets up: `AbstractPersistentCollectionDescriptor` is not part of this model.
- `ListDescriptor.PersistentListDescriptor.constructor`: requires the boot read to succeed, because a Dafny constructor cannot throw. The throwing paths of lines 45-46 are stated by `ReadHasFormula` instead.
- Proxy unwrapping: the source marks it as not done (line 114). The model keeps plain reference identity, so a proxy standing in for the element is not found.
- Queued-mutation replay: the source's hook is an empty stub (line 97). No log of pending operations is modelled.
- `SqmStar`, the wildcard query-expression node: its only behaviour is a one-line visitor dispatch and a constructor that passes a null type. No logic there is modelled.
- Which concrete `java.util.List` class backs the collection: `Contains` uses the documented meaning of `List.contains`, not any one implementation. Java's `equals` is a parameter, free of side effects.
- The `id` and `session` arguments of `doProcessQueuedOps` are opaque references. Sessions, transactions, concurrency and the shared descriptor registry are outside this model.
- `ListDescriptor.PersistentListDescriptor.IndexOf`: assumes a list holds at most `Integer.MAX_VALUE` elements. `Collection.size()` saturates at `Integer.MAX_VALUE`, so on a larger list the Java loop stops before position `Integer.MAX_VALUE` and returns null, whereas the model scans every element.
