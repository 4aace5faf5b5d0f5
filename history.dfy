/**
 * The ordering of history timestamps over the successive changes of one
 * document. Each change carries its own pair of snapshots, as the event
 * source delivers it; `commits[i]` is the commit time of change `i`.
 *
 * Entry times never go down. They strictly increase unless a re-creation
 * commits within one millisecond of the entry time of the deletion before
 * it, which can happen when a deletion's before side reports the deletion's
 * own commit time (the reading of the bug 129264426 note in the source).
 */
module History {
  import opened Document
  import opened ChangeTracker

  /**
   * The premise about the event source: every change is valid; changes
   * commit at strictly increasing times; a change's after side exists exactly
   * when the next change's before side does; an existing after side reports
   * its change's commit time; and a deletion's before side reports a time no
   * earlier than the previous change's commit and no later than the
   * deletion's own commit.
   */
  ghost predicate Committed(changes: seq<Change>, commits: seq<int>)
  {
    && |changes| == |commits|
    && (forall i :: 0 <= i < |changes| ==> changes[i].Valid())
    && (forall i, j :: 0 <= i < j < |commits| ==> commits[i] < commits[j])
    && (forall i :: 0 <= i < |changes| - 1 ==> changes[i].after.Exists() == changes[i + 1].before.Exists())
    && (forall i :: 0 <= i < |changes| && changes[i].after.Present? ==> changes[i].after.updateTime == commits[i])
    && (forall i :: 0 <= i < |changes| && changes[i].before.Present? && !changes[i].after.Exists() ==>
          changes[i].before.updateTime <= commits[i])
    && (forall i :: 0 < i < |changes| && changes[i].before.Present? && !changes[i].after.Exists() ==>
          commits[i - 1] <= changes[i].before.updateTime)
  }

  /** After every deletion, the next change commits later than the deletion's entry time. */
  ghost predicate GapAfterDeletion(changes: seq<Change>, commits: seq<int>)
    requires |changes| == |commits|
  {
    forall i :: 0 <= i < |changes| - 1 && changes[i].before.Present? && !changes[i].after.Exists() ==>
      changes[i].before.updateTime + 1 < commits[i + 1]
  }

  /** Every change of the sequence is valid. */
  predicate AllValid(changes: seq<Change>)
  {
    forall i :: 0 <= i < |changes| ==> changes[i].Valid()
  }

  /** The times of the history entries for a document's successive changes. */
  function HistoryTimes(changes: seq<Change>): (times: seq<int>)
    requires AllValid(changes)
    ensures |times| == |changes|
  {
    if changes == [] then []
    else [GetTimestamp(changes[0]).value] + HistoryTimes(changes[1..])
  }

  /** The `i`-th entry time is the timestamp of the `i`-th change. */
  lemma {:induction false} HistoryTimesAt(changes: seq<Change>, i: nat)
    requires AllValid(changes)
    requires i < |changes|
    ensures HistoryTimes(changes)[i] == GetTimestamp(changes[i]).value
  {
    if i > 0 {
      assert AllValid(changes[1..]) by {
        forall k | 0 <= k < |changes| - 1 ensures changes[1..][k].Valid() {
          assert changes[1..][k] == changes[k + 1];
        }
      }
      HistoryTimesAt(changes[1..], i - 1);
    }
  }

  /**
   * A creation's or update's entry is at its own commit; a deletion's entry
   * is after the previous change's commit and at most one millisecond after
   * its own.
   */
  lemma EntryTime(changes: seq<Change>, commits: seq<int>, i: nat)
    requires Committed(changes, commits)
    requires i < |changes|
    ensures changes[i].after.Exists() ==> HistoryTimes(changes)[i] == commits[i]
    ensures HistoryTimes(changes)[i] <= commits[i] + 1
    ensures i > 0 ==> commits[i - 1] < HistoryTimes(changes)[i]
  {
    HistoryTimesAt(changes, i);
    if i > 0 {
      assert commits[i - 1] < commits[i];
    }
  }

  /** Entry times never go down. */
  lemma HistoryTimesNonDecreasing(changes: seq<Change>, commits: seq<int>)
    requires Committed(changes, commits)
    ensures forall i, j :: 0 <= i < j < |changes| ==> HistoryTimes(changes)[i] <= HistoryTimes(changes)[j]
  {
    forall i, j | 0 <= i < j < |changes| ensures HistoryTimes(changes)[i] <= HistoryTimes(changes)[j] {
      EntryTime(changes, commits, i);
      EntryTime(changes, commits, j);
      if j > i + 1 {
        assert commits[i] < commits[j - 1];
      }
    }
  }

  /** With a gap after every deletion, entry times strictly increase. */
  lemma HistoryTimesIncrease(changes: seq<Change>, commits: seq<int>)
    requires Committed(changes, commits)
    requires GapAfterDeletion(changes, commits)
    ensures forall i, j :: 0 <= i < j < |changes| ==> HistoryTimes(changes)[i] < HistoryTimes(changes)[j]
  {
    forall i, j | 0 <= i < j < |changes| ensures HistoryTimes(changes)[i] < HistoryTimes(changes)[j] {
      EntryTime(changes, commits, i);
      EntryTime(changes, commits, j);
      HistoryTimesAt(changes, i);
      if j > i + 1 {
        assert commits[i] < commits[j - 1];
      } else if !changes[i].after.Exists() {
        assert !changes[j].before.Exists();
      }
    }
  }

  /**
   * When every deletion's before side reports a time earlier than the
   * deletion's own commit (the deleted state's last update), the gap holds,
   * so entry times strictly increase.
   */
  lemma EarlierReportGivesGap(changes: seq<Change>, commits: seq<int>)
    requires Committed(changes, commits)
    requires forall i :: 0 <= i < |changes| && changes[i].before.Present? && !changes[i].after.Exists() ==>
      changes[i].before.updateTime < commits[i]
    ensures GapAfterDeletion(changes, commits)
  {
  }

  /**
   * When a deletion's before side reports the deletion's own commit time,
   * a re-creation one millisecond later gets the same entry time.
   */
  lemma DeleteRecreateTie(c0: int, body: Body)
    ensures var changes := [Change(Present(c0, body), Absent), Change(Absent, Present(c0 + 1, body))];
      && Committed(changes, [c0, c0 + 1])
      && HistoryTimes(changes)[0] == HistoryTimes(changes)[1] == c0 + 1
  {
  }
}
