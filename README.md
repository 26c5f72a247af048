# Phone-number set as a digit tree

This project models the core of a small Java library. It stores a set of nine-digit phone
numbers as a fixed-depth decimal tree. Each node holds an array of ten child slots, one per digit.
The number with digits d1 .. d9 is in the set when the path d1 .. d9 exists from the root.
`add` walks the digits and creates each missing child. `contains` walks the digits and answers
false at the first missing child. `size` counts the nodes at depth nine.
The `PhoneNumber` record checks its value when it is built and turns the value into an array of
digit values.

Three files:

- `phone_number.dfy` (module `PhoneNumbers`) models the record. It covers the `LENGTH`
  constant, the validating constructor and `digits()`. The constructor's regular-expression
  `find()` becomes a leftmost search for a run of nine ASCII digits. A null value is `None`.
  The thrown `IllegalArgumentException` is a `Failure` that carries the same message.
- `tree_set.dfy` (module `DigitTree`) models the tree.
  - `Node` is a class with the `links` array. It has `CreateLink`, `Traverse` and the
    heap-reading count `CountLinks`/`SumLinks`.
  - `TreePhoneNumberMutableSet` is a class with the `root` node.
  - The abstract state is ghost: `Contents` is the set of digit sequences added, `Nodes` maps
    each existing path to its node, and `Repr` holds the nodes and their arrays.
  - `Valid` says three things: the map follows the links exactly, no two paths share a node,
    and the paths are exactly the prefixes of the keys added.
  - `Size` is proved equal to `|Contents|`, by counting the paths at each level below a node,
    slot by slot.
- `scenarios.dfy` (module `SetScenarios`) holds the behaviours of the library's test
  specification. Each one runs on a new set, and its results are proved.

## Model

| member | source | states |
|---|---|---|
| PhoneNumbers.FindFrom | src/main/java/here/contest/PhoneNumber.java:9-12 | the search finds the leftmost start, at or after `from`, where nine ASCII digits follow; None means there is no such start |
| PhoneNumbers.Create | src/main/java/here/contest/PhoneNumber.java:11-15 | construction succeeds exactly when the value is non-null and contains a run of nine digits; a successful result keeps the value unchanged; a failure carries "Invalid phone number value: " followed by the value, or "null" |
| PhoneNumbers.DigitStringAccepted | src/main/java/here/contest/PhoneNumber.java:9-15 | every value of exactly nine ASCII digits is accepted as it is |
| PhoneNumbers.ShortValueRejected | src/main/java/here/contest/PhoneNumber.java:9-15 | a value shorter than nine characters is always rejected |
| PhoneNumbers.EmbeddedRunAccepted | src/main/java/here/contest/PhoneNumber.java:12 | because the check uses `find()`, nine digits anywhere inside a longer value are enough |
| PhoneNumbers.NumericValue | src/main/java/here/contest/PhoneNumber.java:19 | a character is an ASCII digit exactly when its numeric value is in 0..9, and that value is the character minus '0'; any other character gives -1 or a letter value 10..35 |
| PhoneNumbers.Digits | src/main/java/here/contest/PhoneNumber.java:17-21 | `digits()` has one entry per character, and each entry is that character's numeric value |
| PhoneNumbers.DigitString | src/main/java/here/contest/PhoneNumber.java:17-21 | maps each digit value back to its ASCII character, the inverse of `digits()` |
| PhoneNumbers.DigitsAreKey | src/main/java/here/contest/PhoneNumber.java:17-21 | the digits of a nine-digit value are nine values, each in 0..9 |
| PhoneNumbers.DigitsRoundTrip | src/main/java/here/contest/PhoneNumber.java:17-21 | re-encoding the digits of a nine-digit value gives the value back |
| PhoneNumbers.KeyRoundTrip | src/main/java/here/contest/PhoneNumber.java:17-21 | every sequence of nine digit values is the `digits()` of exactly the nine-digit string built from it |
| PhoneNumbers.DigitsInjective | src/main/java/here/contest/PhoneNumber.java:17-21 | two nine-digit phone numbers have equal digits if and only if they are equal |
| DigitTree.Node.constructor | src/main/java/here/contest/TreePhoneNumberMutableSet.java:39 | a new node has a fresh array of ten empty slots |
| DigitTree.Node.CreateLink | src/main/java/here/contest/TreePhoneNumberMutableSet.java:41-52 | a filled slot is returned as it is and nothing changes; an empty slot receives a fresh node with ten empty slots, and no other slot changes |
| DigitTree.Node.Traverse | src/main/java/here/contest/TreePhoneNumberMutableSet.java:54-62 | returns the child in the slot, or null, and changes nothing |
| DigitTree.Node.CountLinks | src/main/java/here/contest/TreePhoneNumberMutableSet.java:64-77 | 1 at the sought depth; otherwise at most 10 to the power of the remaining depth, since each node has ten slots (its exact value is stated by `CountLinksCountsLevel`) |
| DigitTree.Node.SumLinks | src/main/java/here/contest/TreePhoneNumberMutableSet.java:68-76 | the sum over the non-null children of slots `slot`..9 is 0 past the last slot and at most one child's bound per remaining slot (its exact value is stated by `SumLinksCountsSlots`) |
| DigitTree.TreePhoneNumberMutableSet.CountLinksCountsLevel | src/main/java/here/contest/TreePhoneNumberMutableSet.java:64-77 | `countLinks` from the node at path s counts the paths that lie `seekedDepth - currentDepth` levels below s |
| DigitTree.TreePhoneNumberMutableSet.SumLinksCountsSlots | src/main/java/here/contest/TreePhoneNumberMutableSet.java:68-76 | the sum over the non-null children in slots `slot`..9 counts the paths below the node whose first step is at least `slot` |
| DigitTree.LevelFromSplit | src/main/java/here/contest/TreePhoneNumberMutableSet.java:74-76 | the paths through one child and those through the later slots are disjoint, and together they make up the paths through slots `slot`..9, so their counts add |
| DigitTree.KeysAtFullDepth | src/main/java/here/contest/TreePhoneNumberMutableSet.java:33-35 | the paths nine levels below the root are exactly the keys added |
| DigitTree.PathsWellFormed | src/main/java/here/contest/TreePhoneNumberMutableSet.java:13-18 | the paths of a set of keys are prefix-closed, every step is a digit, and no path is longer than nine |
| DigitTree.PathsInsert | src/main/java/here/contest/TreePhoneNumberMutableSet.java:13-18 | adding one key adds exactly the chain of its prefixes to the paths of the tree |
| DigitTree.TreePhoneNumberMutableSet.constructor | src/main/java/here/contest/TreePhoneNumberMutableSet.java:10 | a new set is valid and empty, and its root has ten empty slots |
| DigitTree.TreePhoneNumberMutableSet.Add | src/main/java/here/contest/TreePhoneNumberMutableSet.java:13-18 | the contents become the old contents plus the number's digits; the tree stays valid; every existing node stays at its path |
| DigitTree.TreePhoneNumberMutableSet.LinkPath | src/main/java/here/contest/TreePhoneNumberMutableSet.java:14-17 | the loop adds exactly the prefixes of the digit sequence to the paths, keeps the tree well formed, and moves no existing node |
| DigitTree.TreePhoneNumberMutableSet.LinkChild | src/main/java/here/contest/TreePhoneNumberMutableSet.java:16 | one `createLink` step extends the path map by one child path; if the path existed, its node is returned |
| DigitTree.TreePhoneNumberMutableSet.Contains | src/main/java/here/contest/TreePhoneNumberMutableSet.java:21-30 | returns true if and only if the number's digits were added; it modifies nothing |
| DigitTree.TreePhoneNumberMutableSet.Size | src/main/java/here/contest/TreePhoneNumberMutableSet.java:33-35 | the count at depth nine equals the number of distinct numbers added, and is at most 10^9 |
| SetScenarios.EmptySetHasSizeZero | src/test/kotlin/here/contest/TreePhoneNumberMutableSetSpec.kt:19-21 | a new set has size 0 |
| SetScenarios.AddThenContains | src/test/kotlin/here/contest/TreePhoneNumberMutableSetSpec.kt:23-31 | after adding p, p is present, any other number is absent, and the size is 1 |
| SetScenarios.AddTwice | src/test/kotlin/here/contest/TreePhoneNumberMutableSetSpec.kt:33-41 | adding the same number twice leaves it present, and the size is 1 |
| SetScenarios.AddDifferent | src/test/kotlin/here/contest/TreePhoneNumberMutableSetSpec.kt:43-50 | two different numbers give size 2 |
| SetScenarios.AddAll | src/test/kotlin/here/contest/TreePhoneNumberMutableSetSpec.kt:52-100 | adding a list with duplicates, one number after another, leaves every number present, and the size is the number of distinct numbers |
| SetScenarios.DistinctDigits | src/test/kotlin/here/contest/TreePhoneNumberMutableSetSpec.kt:61 | distinct nine-digit numbers have distinct digit sequences, so a set of numbers and its set of digits have the same size |

## Left out

- Concurrency is not modelled. The `synchronized` blocks and the double-checked reads in
  `createLink`, `traverse` and `countLinks` become plain sequential reads and writes. The
  concurrent test (several add and check workers) is modelled as `AddAll`, which runs the same
  adds one after another.
- `countLinks` snapshots the non-null links and then sums over the snapshot. Here the sum goes
  slot by slot over the array. Without concurrency the two give the same value.
- The regular-expression engine is not modelled. `Pattern.compile("[0-9]{9}").matcher(v).find()`
  is stated directly as a leftmost search for nine consecutive ASCII digits.
- `Character.getNumericValue` is modelled for ASCII only: digits give 0..9, letters 10..35, and
  anything else -1. Other Unicode characters with numeric values are not modelled. Java strings
  are UTF-16; here a string is a sequence of characters.
- Add: the source accepts any value the constructor accepts. This includes values
  longer than nine characters and values with non-digits around a nine-digit run, whose
  `digits()` may be negative, above 9 or longer than nine entries. Those would index outside the
  ten-slot array or build paths deeper than `size` counts. The model requires the value to be
  exactly nine ASCII digits.
- Contains: requires the same exactly-nine-digit value as `Add`, for the same reason.
- Size: modelled as a function. Java's 32-bit `int` is not modelled as such, but `Size` is proved to be at
  most 10^9, which is below 2^31, so the Java count cannot overflow.
- `CountLinks` requires `currentDepth <= seekedDepth`. `size()` calls it with (0, 9). The
  recursion raises `currentDepth` one level at a time and stops at `seekedDepth`, so
  `currentDepth` never exceeds `seekedDepth`.
- The `PhoneNumberMutableSet` interface is not part of this model. The set is modelled on its
  own class.
- The test helpers are not modelled: random generation, `next()` (the following number, wrapping
  to zero) and the barriers. The scenarios take arbitrary distinct numbers instead.
