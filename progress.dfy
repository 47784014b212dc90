/** The progress notifications the comparator raises (DirComparatorStatus). */
module Progress {
  import opened Options
  import opened Files

  datatype Action = Listing | Filtering | Hashing | Comparing

  datatype Side = LeftFolder | RightFolder | BothFolders

  /** One StatusChanged notification; a phase marker has no current file and zero counters. */
  datatype Status = Status(action: Action, side: Side, currentFile: Option<FileEntry>,
                           currentOperation: int, totalOperations: int)

  /** The notification raised once per file of `files`, numbered from `first` up, out of `total`. */
  function ProgressLog(action: Action, side: Side, files: seq<FileEntry>, first: int, total: int): (r: seq<Status>)
    ensures |r| == |files|
    decreases |files|
  {
    if files == [] then []
    else
      ProgressLog(action, side, files[..|files| - 1], first, total)
        + [Status(action, side, Some(files[|files| - 1]), first + |files| - 1, total)]
  }

  /**
   * Notification `i` names file `i`, carries the action and side, and counts
   * `first + i` out of `total`.
   */
  lemma {:induction false} ProgressLogEntries(action: Action, side: Side, files: seq<FileEntry>, first: int, total: int)
    ensures var r := ProgressLog(action, side, files, first, total);
      forall i :: 0 <= i < |r| ==>
        r[i].action == action && r[i].side == side && r[i].currentFile == Some(files[i])
        && r[i].currentOperation == first + i && r[i].totalOperations == total
    decreases |files|
  {
    if files != [] {
      var init := files[..|files| - 1];
      ProgressLogEntries(action, side, init, first, total);
      assert forall i :: 0 <= i < |init| ==> init[i] == files[i];
    }
  }

  /** Notifying for one more file appends one notification. */
  lemma ProgressLogSnoc(action: Action, side: Side, files: seq<FileEntry>, i: int, first: int, total: int)
    requires 0 <= i < |files|
    ensures ProgressLog(action, side, files[..i + 1], first, total)
         == ProgressLog(action, side, files[..i], first, total) + [Status(action, side, Some(files[i]), first + i, total)]
  {
    assert files[..i + 1][..i] == files[..i];
  }

  /** Raising the notification for the next file extends the raised notifications by that file's. */
  lemma ProgressLogExtend(log: seq<Status>, action: Action, side: Side, files: seq<FileEntry>, i: int, first: int, total: int)
    requires 0 <= i < |files|
    ensures log + ProgressLog(action, side, files[..i], first, total) + [Status(action, side, Some(files[i]), first + i, total)]
         == log + ProgressLog(action, side, files[..i + 1], first, total)
  {
    ProgressLogSnoc(action, side, files, i, first, total);
    AppendBatch(log, ProgressLog(action, side, files[..i], first, total), [Status(action, side, Some(files[i]), first + i, total)]);
  }

  /** Raising a batch of notifications after earlier ones extends what was raised. */
  lemma AppendBatch(log: seq<Status>, raised: seq<Status>, batch: seq<Status>)
    ensures log + raised + batch == log + (raised + batch)
  {
  }
}
