/**
 * The change classifier and history-record builder: what kind of mutation a
 * change is, which time its history entry carries, and the body written to
 * the history log (the new document plus its diff under `__diff`).
 */
module ChangeTracker {
  import opened Wrappers
  import opened Document

  /** The kind of a document mutation. */
  datatype ChangeType = Create | Delete | Update

  /** The numeric value TypeScript gives each member of the enum: CREATE = 0, DELETE = 1, UPDATE = 2. */
  function Ordinal(t: ChangeType): (code: nat)
    ensures code < 3
  {
    match t
    case Create => 0
    case Delete => 1
    case Update => 2
  }

  /** Distinct change types have distinct numeric values. */
  lemma OrdinalInjective(t: ChangeType, u: ChangeType)
    ensures Ordinal(t) == Ordinal(u) <==> t == u
  {
  }

  /**
   * Classifies a change. The after side is checked first, so a change whose
   * after side is missing is a deletion whatever its before side is.
   */
  function GetChangeType(c: Change): (t: ChangeType)
    ensures t == Delete <==> !c.after.Exists()
    ensures t == Create <==> c.after.Exists() && !c.before.Exists()
    ensures t == Update <==> c.after.Exists() && c.before.Exists()
  {
    if !c.after.Exists() then Delete
    else if !c.before.Exists() then Create
    else Update
  }

  /** The (before exists, after exists) pattern a change type stands for. */
  function Shape(t: ChangeType): (s: (bool, bool))
    ensures s.0 || s.1
    ensures s.1 <==> t != Delete
  {
    match t
    case Create => (false, true)
    case Delete => (true, false)
    case Update => (true, true)
  }

  /** On a valid change the classification gives back the existence pattern ... */
  lemma ShapeOfChangeType(c: Change)
    requires c.Valid()
    ensures Shape(GetChangeType(c)) == (c.before.Exists(), c.after.Exists())
  {
  }

  /** ... and every change with the pattern of `t` is classified as `t`. */
  lemma ChangeTypeOfShape(t: ChangeType, c: Change)
    requires (c.before.Exists(), c.after.Exists()) == Shape(t)
    ensures c.Valid()
    ensures GetChangeType(c) == t
  {
  }

  /** The error thrown by the default branch of the timestamp switch. */
  datatype TimestampError = InvalidChangeType(code: int)

  /**
   * The switch over the numeric change type: creations and updates take the
   * after side's update time, deletions the before side's update time plus
   * one millisecond, and any other number is an error carrying that number.
   */
  function TimestampOfCode(code: int, c: Change): (r: Result<int, TimestampError>)
    requires code == Ordinal(Create) || code == Ordinal(Update) ==> c.after.Exists()
    requires code == Ordinal(Delete) ==> c.before.Exists()
    ensures code == Ordinal(Create) || code == Ordinal(Update) ==> r == Ok(c.after.updateTime)
    ensures code == Ordinal(Delete) ==> r == Ok(c.before.updateTime + 1)
    ensures r.Err? <==> code != Ordinal(Create) && code != Ordinal(Delete) && code != Ordinal(Update)
    ensures r.Err? ==> r.error == InvalidChangeType(code)
  {
    if code == Ordinal(Create) then Ok(c.after.updateTime)
    else if code == Ordinal(Delete) then Ok(c.before.updateTime + 1)
    else if code == Ordinal(Update) then Ok(c.after.updateTime)
    else Err(InvalidChangeType(code))
  }

  /**
   * The time of the history entry for a change. The switch never reaches its
   * error branch, and a deletion's entry lies strictly after the deleted
   * state's last update.
   */
  function GetTimestamp(c: Change): (r: Result<int, TimestampError>)
    requires c.Valid()
    ensures r.Ok?
    ensures c.after.Exists() ==> r.value == c.after.updateTime
    ensures !c.after.Exists() ==> r.value == c.before.updateTime + 1
    ensures !c.after.Exists() ==> r.value > c.before.updateTime
  {
    TimestampOfCode(Ordinal(GetChangeType(c)), c)
  }

  /** The reserved field that holds the diff in a history body. */
  const DiffKey: string := "__diff"

  /** The diff engine: change type, before body (or null), after body (or null) to a diff value. */
  type HistoryDiffs = (ChangeType, Option<Body>, Option<Body>) -> Value

  /** The before-argument of the diff engine: null for a creation, the before body otherwise. */
  function DiffBefore(c: Change): (r: Option<Body>)
    ensures GetChangeType(c) == Create ==> r == None
    ensures c.Valid() && GetChangeType(c) != Create ==> r == Some(c.before.fields)
    ensures c.Valid() ==> (r.None? <==> GetChangeType(c) == Create)
  {
    if GetChangeType(c) == Create then None else c.before.Data()
  }

  /** The after-argument of the diff engine: null for a deletion, the after body otherwise. */
  function DiffAfter(c: Change): (r: Option<Body>)
    ensures r.None? <==> GetChangeType(c) == Delete
    ensures r.Some? ==> r.value == c.after.fields
  {
    if GetChangeType(c) == Delete then None else c.after.Data()
  }

  /**
   * The history body: empty for a deletion, the after body otherwise, with the
   * diff written under the reserved key. Every other field of the after body
   * is kept as it is; a field already named `__diff` is overwritten.
   */
  function GetData(c: Change, diffs: HistoryDiffs): (data: Body)
    ensures DiffKey in data && data[DiffKey] == diffs(GetChangeType(c), DiffBefore(c), DiffAfter(c))
    ensures GetChangeType(c) == Delete ==> data.Keys == {DiffKey}
    ensures GetChangeType(c) != Delete ==> data.Keys == c.after.fields.Keys + {DiffKey}
    ensures GetChangeType(c) != Delete ==>
      forall k :: k in c.after.fields && k != DiffKey ==> data[k] == c.after.fields[k]
  {
    var changeType := GetChangeType(c);
    var base := if changeType == Delete then map[] else c.after.fields;
    base[DiffKey := diffs(changeType, DiffBefore(c), DiffAfter(c))]
  }

  /**
   * A history body splits back into the document it recorded and the diff:
   * nothing for a deletion, the after body for a creation or an update whose
   * body has no field of the reserved name.
   */
  lemma GetDataSplits(c: Change, diffs: HistoryDiffs)
    ensures GetChangeType(c) == Delete ==> GetData(c, diffs) - {DiffKey} == map[]
    ensures GetChangeType(c) != Delete && DiffKey !in c.after.fields ==>
      GetData(c, diffs) - {DiffKey} == c.after.fields
    ensures GetChangeType(c) != Delete ==>
      GetData(c, diffs) - {DiffKey} == c.after.fields - {DiffKey}
  {
  }

  /**
   * The reserved key collides with application fields: a body that already has
   * `__diff` loses that value in its history entry unless it equals the diff.
   */
  lemma ExistingDiffFieldLost(c: Change, diffs: HistoryDiffs)
    requires GetChangeType(c) != Delete
    requires DiffKey in c.after.fields
    requires c.after.fields[DiffKey] != diffs(GetChangeType(c), DiffBefore(c), DiffAfter(c))
    ensures GetData(c, diffs) != c.after.fields
    ensures GetData(c, diffs)[DiffKey] != c.after.fields[DiffKey]
  {
  }

  /** A creation of {name: "Alice"} at T1: entry at T1, body is the new document plus its diff. */
  lemma CreateScenario(t1: int, diffs: HistoryDiffs)
    ensures var after := Present(t1, map["name" := Text("Alice")]);
      var c := Change(Absent, after);
      && GetChangeType(c) == Create
      && GetTimestamp(c) == Ok(t1)
      && GetData(c, diffs) == map["name" := Text("Alice"), DiffKey := diffs(Create, None, Some(after.fields))]
  {
  }

  /** A deletion of {name: "Alice"} last updated at T1: entry at T1 + 1, body holds only the diff. */
  lemma DeleteScenario(t1: int, diffs: HistoryDiffs)
    ensures var before := Present(t1, map["name" := Text("Alice")]);
      var c := Change(before, Absent);
      && GetChangeType(c) == Delete
      && GetTimestamp(c) == Ok(t1 + 1)
      && GetData(c, diffs) == map[DiffKey := diffs(Delete, Some(before.fields), None)]
  {
  }

  /** An update of {n: 1} at T1 to {n: 2} at T2: entry at T2, body is the new document plus its diff. */
  lemma UpdateScenario(t1: int, t2: int, diffs: HistoryDiffs)
    ensures var before := Present(t1, map["n" := Number(1.0)]);
      var after := Present(t2, map["n" := Number(2.0)]);
      var c := Change(before, after);
      && GetChangeType(c) == Update
      && GetTimestamp(c) == Ok(t2)
      && GetData(c, diffs) == map["n" := Number(2.0), DiffKey := diffs(Update, Some(before.fields), Some(after.fields))]
  {
  }
}
