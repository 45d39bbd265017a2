# Osmium object comparisons in Dafny

This project models the comparator suite of libosmium's
`osmium/osm/object_comparisons.hpp` and proves its ordering laws. An OSM
object is seen through four fields: its item type, a signed 64-bit id, a
version and a timestamp that may be invalid. The suite has six predicates:

- `id_order` orders ids: 0 first, then negative ids, then positive ids, each
  class by absolute value.
- `object_equal_type_id` and `object_equal_type_id_version` are the two
  equalities.
- `object_order_type_id_version`, `object_order_type_id_version_without_timestamp`
  and `object_order_type_id_reverse_version` are the three orders.

Each predicate is one comparison of fields or of `const_tie` tuples, so the
model is made of functions and lemmas:

- `tuples.dfy` (module `Tuples`) is `const_tie(...) < const_tie(...)`:
  lexicographic comparison of equal-length tuples, written the way std::tuple's
  `operator<` is defined. Each component is encoded as an integer with the
  same order (`false` < `true`, an enumerator by its value).
- `osm_object.dfy` (module `OsmObject`) holds the object as the comparators
  see it: `Obj`, `Timestamp`, the int64 id range and `positive_id()`.
- `object_comparisons.dfy` (module `ObjectComparisons`) holds the six
  predicates and the lemmas about them.

`OSMObject::operator==` and `operator<` are defined in `object.hpp`, which is
not part of this model. `object_equal_type_id_version` and
`object_order_type_id_version` call them, so the model follows the doc
comments of those two structs. Equality compares type, id and version.
The doc comment of the order says only "by type, id, version, and
timestamp". The model assumes that it compares ids the way the other two
object orders in this file do, by `(id > 0, |id|)`. So the order compares
`(type, id > 0, |id|, version, timestamp)` lexicographically, with the
timestamp ascending.
The `Timestamp` class is not part of this model either. A timestamp is
`Unset` (the default, invalid) or `At(seconds)`. `Unset` orders before every
valid timestamp, and valid timestamps order by their seconds.

## Model

| member | source | states |
|---|---|---|
| `Tuples.LexLess` | contrib/libosmium/osmium/osm/object_comparisons.hpp:90-91 | The definition: `const_tie(...) < const_tie(...)`, lexicographic comparison as std::tuple's operator< defines it (its laws are in the lemmas below). |
| `OsmObject.PositiveId` | contrib/libosmium/osmium/osm/object_comparisons.hpp:123-124 | The definition of `positive_id()`: the absolute value of the id. |
| `OsmObject.TimestampKey` | contrib/libosmium/osmium/osm/object_comparisons.hpp:146-149 | The definition of a timestamp's place inside a key tuple: invalid first, valid ones by seconds. |
| `ObjectComparisons.IdKey` | contrib/libosmium/osmium/osm/object_comparisons.hpp:90-91 | The `const_tie(id > 0, std::abs(id))` key that id_order compares. |
| `ObjectComparisons.EntityKey` | contrib/libosmium/osmium/osm/object_comparisons.hpp:146-148 | The `const_tie(type(), id() > 0, positive_id())` prefix shared by the object orders. |
| `ObjectComparisons.VersionKey` | contrib/libosmium/osmium/osm/object_comparisons.hpp:123-124 | The `const_tie(type(), id() > 0, positive_id(), version())` key of the timestamp-insensitive order. |
| `ObjectComparisons.EqualTypeId` | contrib/libosmium/osmium/osm/object_comparisons.hpp:68-73 | The definition of object_equal_type_id: equal type and equal id. |
| `ObjectComparisons.EqualTypeIdVersion` | contrib/libosmium/osmium/osm/object_comparisons.hpp:50-54 | The definition of object_equal_type_id_version: OSMObject's `==`, by type, id and version. |
| `ObjectComparisons.OrderTypeIdVersion` | contrib/libosmium/osmium/osm/object_comparisons.hpp:100-104 | The definition of object_order_type_id_version: OSMObject's `<`, lexicographic by type, id > 0, positive id, version and timestamp. |
| `ObjectComparisons.OrderTypeIdVersionWithoutTimestamp` | contrib/libosmium/osmium/osm/object_comparisons.hpp:120-125 | The definition: the tuple `(type, id > 0, positive_id, version)` compared lexicographically. |
| `ObjectComparisons.TieTimestamps` | contrib/libosmium/osmium/osm/object_comparisons.hpp:146-149 | The timestamps the reverse-version tuples carry: both objects' timestamps if both are valid, else two default timestamps. |
| `ObjectComparisons.OrderTypeIdReverseVersion` | contrib/libosmium/osmium/osm/object_comparisons.hpp:143-150 | The definition: the entity tuple of each side, then the other side's version and tie timestamp. |
| `Tuples.LexLessIrreflexive` | contrib/libosmium/osmium/osm/object_comparisons.hpp:90-91 | No tuple is less than itself. |
| `Tuples.LexLessAsymmetric` | contrib/libosmium/osmium/osm/object_comparisons.hpp:90-91 | If a < b then not b < a. |
| `Tuples.LexLessTransitive` | contrib/libosmium/osmium/osm/object_comparisons.hpp:90-91 | a < b and b < c give a < c. |
| `Tuples.LexLessConnected` | contrib/libosmium/osmium/osm/object_comparisons.hpp:90-91 | Distinct tuples are ordered one way or the other. |
| `Tuples.LexNotGreaterTransitive` | contrib/libosmium/osmium/osm/object_comparisons.hpp:90-91 | "Not greater" is transitive. |
| `Tuples.LexNotGreaterAntisymmetric` | contrib/libosmium/osmium/osm/object_comparisons.hpp:90-91 | Tuples that are each not greater than the other are equal. |
| `Tuples.LexLessConcat` | contrib/libosmium/osmium/osm/object_comparisons.hpp:123-124 | For a prefix+suffix tuple, the prefixes decide; only equal prefixes let the suffixes decide. |
| `Tuples.LexLessFirstDifference` | contrib/libosmium/osmium/osm/object_comparisons.hpp:90-91 | a < b iff the tuples agree up to some position and a is smaller there (the reference definition of lexicographic order). |
| `Tuples.LexLessPair` | contrib/libosmium/osmium/osm/object_comparisons.hpp:90-91 | A pair compares by its first components, then by its second when the first are equal. |
| `ObjectComparisons.IdOrder` | contrib/libosmium/osmium/osm/object_comparisons.hpp:83-94 | Non-positive ids come before positive ones; positives ascend; non-positives go 0, -1, -2, and so on. Both ids must not be the smallest int64. |
| `ObjectComparisons.IdKeyInjective` | contrib/libosmium/osmium/osm/object_comparisons.hpp:90-91 | The key `(id > 0, abs(id))` determines the id. |
| `ObjectComparisons.IdOrderStrictTotal` | contrib/libosmium/osmium/osm/object_comparisons.hpp:89-92 | id_order is irreflexive and transitive, and for distinct ids exactly one direction holds. |
| `ObjectComparisons.IdOrderExample` | contrib/libosmium/osmium/osm/object_comparisons.hpp:83-92 | [0, -1, -2, 1, 2] is strictly increasing under id_order. |
| `ObjectComparisons.EqualTypeIdEquivalence` | contrib/libosmium/osmium/osm/object_comparisons.hpp:64-81 | object_equal_type_id is reflexive, symmetric and transitive, and changing version or timestamp does not change its result. |
| `ObjectComparisons.EqualTypeIdByEntityKey` | contrib/libosmium/osmium/osm/object_comparisons.hpp:70-72 | Equal type and id iff equal tuple `(type, id > 0, positive_id)`. |
| `ObjectComparisons.EqualTypeIdVersionEquivalence` | contrib/libosmium/osmium/osm/object_comparisons.hpp:46-62 | object_equal_type_id_version is an equivalence, ignores the timestamp, and implies object_equal_type_id. |
| `ObjectComparisons.VersionSeparatesEqualities` | contrib/libosmium/osmium/osm/object_comparisons.hpp:46-73 | Two objects that differ only in version are equal by type and id but not by type, id and version. |
| `ObjectComparisons.EqualTypeIdVersionByVersionKey` | contrib/libosmium/osmium/osm/object_comparisons.hpp:46-53 | Equal by type, id and version iff the tuples `(type, id > 0, positive_id, version)` are equal. |
| `ObjectComparisons.WithoutTimestampStrict` | contrib/libosmium/osmium/osm/object_comparisons.hpp:120-125 | The timestamp-insensitive order is irreflexive, asymmetric and transitive. |
| `ObjectComparisons.WithoutTimestampIncomparable` | contrib/libosmium/osmium/osm/object_comparisons.hpp:120-125 | Neither object precedes the other iff they are equal by type, id and version. |
| `ObjectComparisons.WithoutTimestampIgnoresTimestamps` | contrib/libosmium/osmium/osm/object_comparisons.hpp:114-125 | Its result does not depend on either timestamp. |
| `ObjectComparisons.WithoutTimestampFields` | contrib/libosmium/osmium/osm/object_comparisons.hpp:123-124 | A smaller type comes first. With equal types and distinct ids it agrees with id_order. For the same object it orders by ascending version. |
| `ObjectComparisons.OrderStrict` | contrib/libosmium/osmium/osm/object_comparisons.hpp:96-104 | object_order_type_id_version is irreflexive, asymmetric and transitive. |
| `ObjectComparisons.OrderIncomparable` | contrib/libosmium/osmium/osm/object_comparisons.hpp:96-104 | Neither object precedes the other iff they are the same object, so the order is a strict total order. This rests on the assumed timestamp order. |
| `ObjectComparisons.OrderTimestampTieBreak` | contrib/libosmium/osmium/osm/object_comparisons.hpp:96-104 | For objects equal by type, id and version, the earlier timestamp sorts first; two valid timestamps compare by seconds. |
| `ObjectComparisons.OrderRefinesWithoutTimestamp` | contrib/libosmium/osmium/osm/object_comparisons.hpp:96-125 | The timestamp-insensitive order implies the timestamp-sensitive one. The two agree when the timestamps are equal. They differ only on objects equal by type, id and version with different timestamps. |
| `ObjectComparisons.ReverseVersionUnfold` | contrib/libosmium/osmium/osm/object_comparisons.hpp:145-150 | Reverse-version order: the entity tuple first; then the higher version; then, only if both timestamps are valid, the later timestamp. |
| `ObjectComparisons.ReverseVersionStrict` | contrib/libosmium/osmium/osm/object_comparisons.hpp:143-158 | The reverse-version order is irreflexive, asymmetric and transitive. |
| `ObjectComparisons.ReverseVersionNewerFirst` | contrib/libosmium/osmium/osm/object_comparisons.hpp:135-149 | Same type and id: the higher version sorts strictly before the lower one. |
| `ObjectComparisons.ReverseVersionTimestampTieBreak` | contrib/libosmium/osmium/osm/object_comparisons.hpp:146-149 | Same type, id and version: with both timestamps valid, the later one sorts first; if either is invalid, neither object precedes the other. |
| `ObjectComparisons.ReverseVersionAcrossObjects` | contrib/libosmium/osmium/osm/object_comparisons.hpp:120-158 | For objects that differ in type or id, it orders exactly like the timestamp-insensitive order. |
| `ObjectComparisons.ReverseVersionIncomparabilityNotTransitive` | contrib/libosmium/osmium/osm/object_comparisons.hpp:146-149 | A valid, an invalid and a later valid timestamp give A ~ B and B ~ C, yet C sorts before A, so this is not a strict weak ordering. |
| `ObjectComparisons.ReverseVersionEntityMonotone` | contrib/libosmium/osmium/osm/object_comparisons.hpp:146-149 | If b does not sort before a, a's entity tuple is not greater than b's. |
| `ObjectComparisons.LatestVersionFirst` | contrib/libosmium/osmium/osm/object_comparisons.hpp:135-142 | In a sequence sorted by the reverse-version order, the first element of each object's run has that object's highest version. |

## Left out

- The pointer overloads and their `assert(lhs && rhs)` (lines 56-60, 75-79, 106-110, 127-131, 152-156) only dereference and forward; only the reference form is modelled.
- `OSMObject::operator==`, `operator<`, `positive_id()`, the `Timestamp` class and `const_tie` are defined in files that are not part of this model. They are modelled from the doc comments and as lexicographic tuple comparison.
- `positive_id()` is modelled as the mathematical absolute value, so the smallest int64 id gets 2^63 in the object orders. Only `id_order`, which calls `std::abs` on `int64_t`, excludes that id, because `std::abs` is undefined behaviour there.
- `LatestVersionFirst` assumes an arrangement with no inversions (no later element sorts before an earlier one). Such an arrangement always exists, because the order is a strict partial order, but it is not necessarily what an arbitrary sort produces: std::sort promises it only for a strict weak ordering, and `ReverseVersionIncomparabilityNotTransitive` shows this order is not one.
- The item type is modelled as its enumerator value (a natural number), and the version as an unbounded natural number. The fixed widths of these fields do not change any comparison.
- `operator<` is assumed to compare ids by the key `(id > 0, |id|)`, like object_order_type_id_version_without_timestamp, and not by raw signed value. The doc comment at lines 96-98 does not say which. `OrderRefinesWithoutTimestamp` rests on this assumption: with raw ids its first clause would be false.
- How an invalid timestamp compares with a valid one matters only for `object_order_type_id_version` (through `OSMObject::operator<`). The choice "invalid first" is an assumption of this model, and `OrderIncomparable` (only equal objects are incomparable) rests on it.
- `noexcept`, the function-object struct packaging, include guards and the licence header have no counterpart here.
