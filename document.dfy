/**
 * Firestore document snapshots as plain values: a document body is a map from
 * field name to value, and a snapshot is either absent (the document does not
 * exist) or present with its body and the time of its last update, in
 * integer milliseconds.
 */
module Document {
  import opened Wrappers

  /** A field value of a document body: a primitive, an array or a nested map. */
  datatype Value =
    | Null
    | Boolean(b: bool)
    | Number(x: real)
    | Text(s: string)
    | List(items: seq<Value>)
    | Object(fields: map<string, Value>)

  /** A document body: field name to value. */
  type Body = map<string, Value>

  /** One state of a document as an event delivers it. */
  datatype Snapshot =
    | Absent
    | Present(updateTime: int, fields: Body)
  {
    /** The snapshot's `exists` flag. */
    predicate Exists() { Present? }

    /** What `data()` gives: the body when the document exists, `undefined` otherwise. */
    function Data(): (r: Option<Body>)
      ensures r.Some? <==> Exists()
      ensures r.Some? ==> r.value == fields
    {
      match this
      case Absent => None
      case Present(_, body) => Some(body)
    }
  }

  /** A document mutation: the snapshots immediately before and after it. */
  datatype Change = Change(before: Snapshot, after: Snapshot)
  {
    /** Every change the event source delivers has at least one existing side. */
    predicate Valid() { before.Exists() || after.Exists() }
  }
}
