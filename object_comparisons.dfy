/**
 * The comparator suite of osmium/osm/object_comparisons.hpp: two equality
 * predicates and four orderings over OSM objects and their ids, each a
 * single comparison of fields or of `const_tie` key tuples.
 */
module ObjectComparisons {
  import opened Tuples
  import opened OsmObject

  // ---------------------------------------------------------------------
  // Key tuples
  // ---------------------------------------------------------------------

  /** `const_tie(id > 0, std::abs(id))`. */
  function IdKey(id: int): seq<int> {
    [Flag(id > 0), Abs(id)]
  }

  /** `const_tie(type(), id() > 0, positive_id())`: the logical entity. */
  function EntityKey(o: Obj): seq<int> {
    [o.ty, Flag(o.id > 0), PositiveId(o)]
  }

  /** `const_tie(type(), id() > 0, positive_id(), version())`. */
  function VersionKey(o: Obj): seq<int> {
    EntityKey(o) + [o.version]
  }

  /** The timestamps the reverse-version order ties on: both, or two defaults. */
  function TieTimestamps(lhs: Obj, rhs: Obj): (Timestamp, Timestamp) {
    if lhs.timestamp.Valid() && rhs.timestamp.Valid() then
      (lhs.timestamp, rhs.timestamp)
    else
      (Timestamp.Unset, Timestamp.Unset)
  }

  // ---------------------------------------------------------------------
  // The comparators
  // ---------------------------------------------------------------------

  /**
   * id_order: 0 first, then negative ids, then positive ids, each class by
   * absolute value. std::abs is undefined on the smallest int64, so that id
   * is excluded.
   */
  function IdOrder(lhs: ObjectId, rhs: ObjectId): (r: bool)
    requires lhs != MinObjectId && rhs != MinObjectId
    ensures lhs <= 0 && rhs > 0 ==> r
    ensures lhs > 0 && rhs <= 0 ==> !r
    ensures lhs > 0 && rhs > 0 ==> (r <==> lhs < rhs)
    ensures lhs <= 0 && rhs <= 0 ==> (r <==> rhs < lhs)
  {
    LexLessPair(Flag(lhs > 0), Abs(lhs), Flag(rhs > 0), Abs(rhs));
    LexLess(IdKey(lhs), IdKey(rhs))
  }

  /** object_equal_type_id: same type and same id, whatever the rest. */
  predicate EqualTypeId(lhs: Obj, rhs: Obj) {
    lhs.ty == rhs.ty && lhs.id == rhs.id
  }

  /** object_equal_type_id_version: OSMObject's operator==, by type, id and version. */
  predicate EqualTypeIdVersion(lhs: Obj, rhs: Obj) {
    lhs.ty == rhs.ty && lhs.id == rhs.id && lhs.version == rhs.version
  }

  /**
   * object_order_type_id_version: OSMObject's operator<, lexicographic by
   * type, id, version and timestamp. Ids are assumed to compare by the key
   * `(id > 0, |id|)`, as in the other object orders.
   */
  predicate OrderTypeIdVersion(lhs: Obj, rhs: Obj) {
    LexLess(VersionKey(lhs) + [TimestampKey(lhs.timestamp)],
            VersionKey(rhs) + [TimestampKey(rhs.timestamp)])
  }

  /** object_order_type_id_version_without_timestamp. */
  predicate OrderTypeIdVersionWithoutTimestamp(lhs: Obj, rhs: Obj) {
    LexLess(VersionKey(lhs), VersionKey(rhs))
  }

  /**
   * object_order_type_id_reverse_version: type and id as above, then the
   * versions with the sides swapped, then (only when both are valid) the
   * timestamps with the sides swapped.
   */
  predicate OrderTypeIdReverseVersion(lhs: Obj, rhs: Obj) {
    var (lt, rt) := TieTimestamps(lhs, rhs);
    LexLess(EntityKey(lhs) + [rhs.version, TimestampKey(rt)],
            EntityKey(rhs) + [lhs.version, TimestampKey(lt)])
  }

  // ---------------------------------------------------------------------
  // id_order
  // ---------------------------------------------------------------------

  /** The key `(id > 0, |id|)` determines the id. */
  lemma IdKeyInjective(x: int, y: int)
    ensures IdKey(x) == IdKey(y) <==> x == y
  {
  }

  /** id_order is a strict total order on int64 without its smallest value. */
  lemma IdOrderStrictTotal(x: ObjectId, y: ObjectId, z: ObjectId)
    requires x != MinObjectId && y != MinObjectId && z != MinObjectId
    ensures !IdOrder(x, x)
    ensures IdOrder(x, y) && IdOrder(y, z) ==> IdOrder(x, z)
    ensures x != y ==> (IdOrder(x, y) <==> !IdOrder(y, x))
  {
  }

  /** {-2, -1, 0, 1, 2} sorts as [0, -1, -2, 1, 2]. */
  lemma IdOrderExample()
    ensures var s: seq<ObjectId> := [0, -1, -2, 1, 2];
      forall i, j :: 0 <= i < j < |s| ==> IdOrder(s[i], s[j])
  {
  }

  // ---------------------------------------------------------------------
  // Equality predicates
  // ---------------------------------------------------------------------

  /** object_equal_type_id is an equivalence that ignores version and timestamp. */
  lemma EqualTypeIdEquivalence(a: Obj, b: Obj, c: Obj, v: nat, t: Timestamp)
    ensures EqualTypeId(a, a)
    ensures EqualTypeId(a, b) ==> EqualTypeId(b, a)
    ensures EqualTypeId(a, b) && EqualTypeId(b, c) ==> EqualTypeId(a, c)
    ensures EqualTypeId(a.(version := v, timestamp := t), b) == EqualTypeId(a, b)
  {
  }

  /** The same logical entity is exactly the same entity key. */
  lemma EqualTypeIdByEntityKey(a: Obj, b: Obj)
    ensures EqualTypeId(a, b) <==> EntityKey(a) == EntityKey(b)
  {
  }

  /**
   * object_equal_type_id_version is an equivalence that ignores the
   * timestamp and is finer than object_equal_type_id; a version change
   * separates the two.
   */
  lemma EqualTypeIdVersionEquivalence(a: Obj, b: Obj, c: Obj, t: Timestamp)
    ensures EqualTypeIdVersion(a, a)
    ensures EqualTypeIdVersion(a, b) ==> EqualTypeIdVersion(b, a)
    ensures EqualTypeIdVersion(a, b) && EqualTypeIdVersion(b, c) ==> EqualTypeIdVersion(a, c)
    ensures EqualTypeIdVersion(a.(timestamp := t), b) == EqualTypeIdVersion(a, b)
    ensures EqualTypeIdVersion(a, b) ==> EqualTypeId(a, b)
  {
  }

  lemma VersionSeparatesEqualities(a: Obj, v: nat)
    requires v != a.version
    ensures EqualTypeId(a, a.(version := v))
    ensures !EqualTypeIdVersion(a, a.(version := v))
  {
  }

  /** Same version key is exactly object_equal_type_id_version. */
  lemma EqualTypeIdVersionByVersionKey(a: Obj, b: Obj)
    ensures EqualTypeIdVersion(a, b) <==> VersionKey(a) == VersionKey(b)
  {
    EqualTypeIdByEntityKey(a, b);
    if VersionKey(a) == VersionKey(b) {
      assert VersionKey(a)[..3] == EntityKey(a) && VersionKey(b)[..3] == EntityKey(b);
      assert VersionKey(a)[3] == a.version && VersionKey(b)[3] == b.version;
    }
  }

  // ---------------------------------------------------------------------
  // object_order_type_id_version_without_timestamp
  // ---------------------------------------------------------------------

  lemma WithoutTimestampStrict(a: Obj, b: Obj, c: Obj)
    ensures !OrderTypeIdVersionWithoutTimestamp(a, a)
    ensures OrderTypeIdVersionWithoutTimestamp(a, b) ==> !OrderTypeIdVersionWithoutTimestamp(b, a)
    ensures OrderTypeIdVersionWithoutTimestamp(a, b) && OrderTypeIdVersionWithoutTimestamp(b, c)
      ==> OrderTypeIdVersionWithoutTimestamp(a, c)
  {
    LexLessIrreflexive(VersionKey(a));
    LexLessAsymmetric(VersionKey(a), VersionKey(b));
    if OrderTypeIdVersionWithoutTimestamp(a, b) && OrderTypeIdVersionWithoutTimestamp(b, c) {
      LexLessTransitive(VersionKey(a), VersionKey(b), VersionKey(c));
    }
  }

  /** Neither precedes the other exactly when type, id and version agree. */
  lemma WithoutTimestampIncomparable(a: Obj, b: Obj)
    ensures !OrderTypeIdVersionWithoutTimestamp(a, b) && !OrderTypeIdVersionWithoutTimestamp(b, a)
      <==> EqualTypeIdVersion(a, b)
  {
    EqualTypeIdVersionByVersionKey(a, b);
    LexLessConnected(VersionKey(a), VersionKey(b));
    LexLessIrreflexive(VersionKey(a));
  }

  lemma WithoutTimestampIgnoresTimestamps(a: Obj, b: Obj, s: Timestamp, t: Timestamp)
    ensures OrderTypeIdVersionWithoutTimestamp(a.(timestamp := s), b.(timestamp := t))
      == OrderTypeIdVersionWithoutTimestamp(a, b)
  {
  }

  /** Type first; within a type, distinct ids in id_order; same object, by version. */
  lemma WithoutTimestampFields(a: Obj, b: Obj)
    ensures a.ty < b.ty ==> OrderTypeIdVersionWithoutTimestamp(a, b)
    ensures a.ty == b.ty && a.id != b.id && a.id != MinObjectId && b.id != MinObjectId
      ==> OrderTypeIdVersionWithoutTimestamp(a, b) == IdOrder(a.id, b.id)
    ensures EqualTypeId(a, b) ==> (OrderTypeIdVersionWithoutTimestamp(a, b) <==> a.version < b.version)
  {
    assert VersionKey(a) == [a.ty] + (IdKey(a.id) + [a.version]);
    assert VersionKey(b) == [b.ty] + (IdKey(b.id) + [b.version]);
    LexLessConcat([a.ty], [b.ty], IdKey(a.id) + [a.version], IdKey(b.id) + [b.version]);
    LexLessConcat(IdKey(a.id), IdKey(b.id), [a.version], [b.version]);
    LexLessSingle(a.version, b.version);
    IdKeyInjective(a.id, b.id);
  }

  // ---------------------------------------------------------------------
  // object_order_type_id_version (OSMObject's operator<)
  // ---------------------------------------------------------------------

  lemma OrderStrict(a: Obj, b: Obj, c: Obj)
    ensures !OrderTypeIdVersion(a, a)
    ensures OrderTypeIdVersion(a, b) ==> !OrderTypeIdVersion(b, a)
    ensures OrderTypeIdVersion(a, b) && OrderTypeIdVersion(b, c) ==> OrderTypeIdVersion(a, c)
  {
    var ka := VersionKey(a) + [TimestampKey(a.timestamp)];
    var kb := VersionKey(b) + [TimestampKey(b.timestamp)];
    var kc := VersionKey(c) + [TimestampKey(c.timestamp)];
    LexLessIrreflexive(ka);
    LexLessAsymmetric(ka, kb);
    if OrderTypeIdVersion(a, b) && OrderTypeIdVersion(b, c) {
      LexLessTransitive(ka, kb, kc);
    }
  }

  /**
   * Only equal objects are incomparable, so the order is a strict total
   * order on objects (this rests on the total order assumed for timestamps).
   */
  lemma OrderIncomparable(a: Obj, b: Obj)
    ensures !OrderTypeIdVersion(a, b) && !OrderTypeIdVersion(b, a) <==> a == b
  {
    var ka := VersionKey(a) + [TimestampKey(a.timestamp)];
    var kb := VersionKey(b) + [TimestampKey(b.timestamp)];
    LexLessIrreflexive(ka);
    LexLessConnected(ka, kb);
    if ka == kb {
      assert ka[..4] == VersionKey(a) && kb[..4] == VersionKey(b);
      EqualTypeIdVersionByVersionKey(a, b);
      assert TimestampKey(a.timestamp) == ka[4] == kb[4] == TimestampKey(b.timestamp);
      match a.timestamp
      case Unset =>
      case At(_) =>
    }
  }

  /**
   * Objects equal by type, id and version are ordered by ascending
   * timestamp; two valid timestamps compare by their seconds.
   */
  lemma OrderTimestampTieBreak(a: Obj, b: Obj)
    requires EqualTypeIdVersion(a, b)
    ensures OrderTypeIdVersion(a, b) <==> TimestampKey(a.timestamp) < TimestampKey(b.timestamp)
    ensures a.timestamp.Valid() && b.timestamp.Valid()
      ==> (OrderTypeIdVersion(a, b) <==> a.timestamp.seconds < b.timestamp.seconds)
  {
    EqualTypeIdVersionByVersionKey(a, b);
    LexLessConcat(VersionKey(a), VersionKey(b), [TimestampKey(a.timestamp)], [TimestampKey(b.timestamp)]);
    LexLessIrreflexive(VersionKey(a));
    LexLessSingle(TimestampKey(a.timestamp), TimestampKey(b.timestamp));
  }

  /**
   * The timestamp-sensitive order refines the timestamp-insensitive one:
   * they agree when the timestamps agree, and differ only on objects equal by
   * type, id and version whose timestamps differ.
   */
  lemma OrderRefinesWithoutTimestamp(a: Obj, b: Obj)
    ensures OrderTypeIdVersionWithoutTimestamp(a, b) ==> OrderTypeIdVersion(a, b)
    ensures a.timestamp == b.timestamp
      ==> OrderTypeIdVersion(a, b) == OrderTypeIdVersionWithoutTimestamp(a, b)
    ensures OrderTypeIdVersion(a, b) != OrderTypeIdVersionWithoutTimestamp(a, b)
      ==> EqualTypeIdVersion(a, b) && a.timestamp != b.timestamp
  {
    LexLessConcat(VersionKey(a), VersionKey(b), [TimestampKey(a.timestamp)], [TimestampKey(b.timestamp)]);
    EqualTypeIdVersionByVersionKey(a, b);
  }

  // ---------------------------------------------------------------------
  // object_order_type_id_reverse_version
  // ---------------------------------------------------------------------

  /** Unfolds the reverse-version order into its entity part and its tie part. */
  lemma ReverseVersionUnfold(a: Obj, b: Obj)
    ensures OrderTypeIdReverseVersion(a, b) ==
      (LexLess(EntityKey(a), EntityKey(b)) ||
       (EntityKey(a) == EntityKey(b) &&
        (b.version < a.version ||
         (b.version == a.version && a.timestamp.Valid() && b.timestamp.Valid() &&
          b.timestamp.seconds < a.timestamp.seconds))))
  {
    var (lt, rt) := TieTimestamps(a, b);
    LexLessConcat(EntityKey(a), EntityKey(b), [b.version, TimestampKey(rt)], [a.version, TimestampKey(lt)]);
    LexLessPair(b.version, TimestampKey(rt), a.version, TimestampKey(lt));
  }

  lemma ReverseVersionStrict(a: Obj, b: Obj, c: Obj)
    ensures !OrderTypeIdReverseVersion(a, a)
    ensures OrderTypeIdReverseVersion(a, b) ==> !OrderTypeIdReverseVersion(b, a)
    ensures OrderTypeIdReverseVersion(a, b) && OrderTypeIdReverseVersion(b, c)
      ==> OrderTypeIdReverseVersion(a, c)
  {
    ReverseVersionUnfold(a, a);
    ReverseVersionUnfold(a, b);
    ReverseVersionUnfold(b, a);
    ReverseVersionUnfold(b, c);
    ReverseVersionUnfold(a, c);
    LexLessIrreflexive(EntityKey(a));
    LexLessAsymmetric(EntityKey(a), EntityKey(b));
    if OrderTypeIdReverseVersion(a, b) && OrderTypeIdReverseVersion(b, c) {
      if LexLess(EntityKey(a), EntityKey(b)) && LexLess(EntityKey(b), EntityKey(c)) {
        LexLessTransitive(EntityKey(a), EntityKey(b), EntityKey(c));
      }
    }
  }

  /** For the same object, the higher version sorts strictly first. */
  lemma ReverseVersionNewerFirst(a: Obj, b: Obj)
    requires EqualTypeId(a, b) && a.version < b.version
    ensures OrderTypeIdReverseVersion(b, a)
    ensures !OrderTypeIdReverseVersion(a, b)
  {
    ReverseVersionUnfold(a, b);
    ReverseVersionUnfold(b, a);
    EqualTypeIdByEntityKey(a, b);
    LexLessIrreflexive(EntityKey(a));
  }

  /**
   * Same type, id and version: with both timestamps valid the later one sorts
   * first; with either invalid neither object precedes the other.
   */
  lemma ReverseVersionTimestampTieBreak(a: Obj, b: Obj)
    requires EqualTypeIdVersion(a, b)
    ensures a.timestamp.Valid() && b.timestamp.Valid() && a.timestamp.seconds < b.timestamp.seconds
      ==> OrderTypeIdReverseVersion(b, a) && !OrderTypeIdReverseVersion(a, b)
    ensures !a.timestamp.Valid() || !b.timestamp.Valid()
      ==> !OrderTypeIdReverseVersion(a, b) && !OrderTypeIdReverseVersion(b, a)
  {
    ReverseVersionUnfold(a, b);
    ReverseVersionUnfold(b, a);
    EqualTypeIdByEntityKey(a, b);
    LexLessIrreflexive(EntityKey(a));
  }

  /** Between different objects it orders exactly like the timestamp-insensitive order. */
  lemma ReverseVersionAcrossObjects(a: Obj, b: Obj)
    requires !EqualTypeId(a, b)
    ensures OrderTypeIdReverseVersion(a, b) == OrderTypeIdVersionWithoutTimestamp(a, b)
  {
    ReverseVersionUnfold(a, b);
    EqualTypeIdByEntityKey(a, b);
    LexLessConcat(EntityKey(a), EntityKey(b), [a.version], [b.version]);
  }

  /**
   * Incomparability under the reverse-version order is not transitive once
   * valid and invalid timestamps are mixed, so the order is not a strict
   * weak ordering.
   */
  lemma ReverseVersionIncomparabilityNotTransitive()
    ensures var a, b, c := Obj(1, 7, 3, At(1)), Obj(1, 7, 3, Unset), Obj(1, 7, 3, At(2));
      && !OrderTypeIdReverseVersion(a, b) && !OrderTypeIdReverseVersion(b, a)
      && !OrderTypeIdReverseVersion(b, c) && !OrderTypeIdReverseVersion(c, b)
      && OrderTypeIdReverseVersion(c, a)
  {
    var a, b, c := Obj(1, 7, 3, At(1)), Obj(1, 7, 3, Unset), Obj(1, 7, 3, At(2));
    ReverseVersionTimestampTieBreak(a, b);
    ReverseVersionTimestampTieBreak(b, c);
    ReverseVersionTimestampTieBreak(a, c);
  }

  /** If b does not sort before a, a's entity key is not greater than b's. */
  lemma ReverseVersionEntityMonotone(a: Obj, b: Obj)
    requires !OrderTypeIdReverseVersion(b, a)
    ensures LexNotGreater(EntityKey(a), EntityKey(b))
  {
    ReverseVersionUnfold(b, a);
  }

  /**
   * A sequence without inversions under the reverse-version order: no later
   * element sorts before an earlier one. Such an arrangement always exists,
   * as the order is a strict partial order; std::sort promises one only for
   * a strict weak ordering, which this order is not.
   */
  ghost predicate SortedByReverseVersion(s: seq<Obj>) {
    forall i, j :: 0 <= i < j < |s| ==> !OrderTypeIdReverseVersion(s[j], s[i])
  }

  /**
   * In such a sequence the first element of each object's run holds that
   * object's highest version: what makes "take the first of each group"
   * yield the latest versions.
   */
  lemma LatestVersionFirst(s: seq<Obj>, i: nat, j: nat)
    requires SortedByReverseVersion(s)
    requires i < |s| && j < |s|
    requires i == 0 || !EqualTypeId(s[i - 1], s[i])
    requires EqualTypeId(s[i], s[j])
    ensures s[j].version <= s[i].version
  {
    EqualTypeIdByEntityKey(s[i], s[j]);
    if j > i {
      ReverseVersionUnfold(s[j], s[i]);
      LexLessIrreflexive(EntityKey(s[i]));
    } else if j < i {
      // s[i] would not start its run: s[i - 1] lies between s[j] and s[i].
      var p := i - 1;
      if j < p {
        ReverseVersionEntityMonotone(s[j], s[p]);
        ReverseVersionEntityMonotone(s[p], s[i]);
        LexNotGreaterAntisymmetric(EntityKey(s[p]), EntityKey(s[i]));
        EqualTypeIdByEntityKey(s[p], s[i]);
      }
      assert false;
    }
  }
}
