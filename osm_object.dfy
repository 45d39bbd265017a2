/**
 * The OSM object as the comparators see it: four read-only accessors
 * (type, id, version, timestamp) and `positive_id()`. The object's storage,
 * the Timestamp class and the item_type enumeration are not part of this
 * model; only the facts the comparators rely on are stated here.
 */
module OsmObject {

  /** `object_id_type` is a signed 64-bit integer. */
  const MinObjectId: int := -0x8000_0000_0000_0000
  const MaxObjectId: int := 0x7FFF_FFFF_FFFF_FFFF

  type ObjectId = x: int | MinObjectId <= x <= MaxObjectId

  /**
   * A timestamp that may be invalid. `Timestamp()` (the default) is invalid;
   * an invalid timestamp is ordered before every valid one, and valid ones
   * by their seconds.
   */
  datatype Timestamp = Unset | At(seconds: nat) {
    predicate Valid() {
      At?
    }
  }

  /** The integer standing for a timestamp inside a key tuple. */
  function TimestampKey(t: Timestamp): int {
    match t
    case Unset => 0
    case At(s) => s + 1
  }

  /**
   * `ty` is the value of the object's item_type enumerator: enumerators are
   * compared by that value.
   */
  datatype Obj = Obj(ty: nat, id: ObjectId, version: nat, timestamp: Timestamp)

  function Abs(x: int): nat {
    if x < 0 then -x else x
  }

  /** `positive_id()`: the absolute value of the id, as an unsigned number. */
  function PositiveId(o: Obj): nat {
    Abs(o.id)
  }

  /** A bool inside a key tuple: false orders before true. */
  function Flag(b: bool): int {
    if b then 1 else 0
  }
}
