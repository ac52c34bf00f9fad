/**
 * The timed correction sweeper: it lists the tasks still running and hands those
 * created at least the configured number of minutes ago to the task proxy to be
 * marked as failed. The clock reading and the configured threshold are parameters.
 */
module Sweeper {
  import opened Types
  import opened Wrappers

  /** One row of get_task_create_time: a running task, its type and its creation time in seconds. */
  datatype RunningTask = RunningTask(taskId: TaskId, taskType: TaskType, createTime: int)

  /** A task has been running too long once `thresholdMin` minutes have passed since it was created (inclusive). */
  predicate Abnormal(t: RunningTask, now: int, thresholdMin: int)
  {
    now - t.createTime >= thresholdMin * 60
  }

  /** The ids of the abnormal tasks, in the order the running tasks are listed. */
  function AbnormalIds(tasks: seq<RunningTask>, now: int, thresholdMin: int): seq<TaskId>
  {
    if tasks == [] then []
    else
      var n := |tasks| - 1;
      AbnormalIds(tasks[..n], now, thresholdMin) + (if Abnormal(tasks[n], now, thresholdMin) then [tasks[n].taskId] else [])
  }

  /** get_abnormal_task: one pass over the running tasks, appending every abnormal one. */
  method GetAbnormalTask(running: seq<RunningTask>, now: int, thresholdMin: int) returns (abnormal: seq<TaskId>)
    ensures abnormal == AbnormalIds(running, now, thresholdMin)
  {
    abnormal := [];
    for i := 0 to |running|
      invariant abnormal == AbnormalIds(running[..i], now, thresholdMin)
    {
      assert running[..i + 1][..i] == running[..i];
      var t := running[i];
      if now - t.createTime >= thresholdMin * 60 {
        abnormal := abnormal + [t.taskId];
      }
    }
    assert running[..|running|] == running;
  }

  /**
   * The abnormal ids are a subsequence of the running tasks' ids: they come from
   * strictly increasing positions, and a position is picked exactly when the task
   * there is abnormal.
   */
  lemma {:induction false} AbnormalIdsSubsequence(tasks: seq<RunningTask>, now: int, thresholdMin: int) returns (idx: seq<int>)
    ensures |idx| == |AbnormalIds(tasks, now, thresholdMin)|
    ensures forall k :: 0 <= k < |idx| ==> 0 <= idx[k] < |tasks| && AbnormalIds(tasks, now, thresholdMin)[k] == tasks[idx[k]].taskId
    ensures forall k, l :: 0 <= k < l < |idx| ==> idx[k] < idx[l]
    ensures forall i :: 0 <= i < |tasks| ==> (i in idx <==> Abnormal(tasks[i], now, thresholdMin))
  {
    if tasks == [] {
      idx := [];
    } else {
      var n := |tasks| - 1;
      var init := tasks[..n];
      var prev := AbnormalIdsSubsequence(init, now, thresholdMin);
      var ids, prevIds := AbnormalIds(tasks, now, thresholdMin), AbnormalIds(init, now, thresholdMin);
      forall i | 0 <= i < n ensures init[i] == tasks[i] { }
      if Abnormal(tasks[n], now, thresholdMin) {
        assert ids == prevIds + [tasks[n].taskId];
        idx := prev + [n];
        forall k | 0 <= k < |idx| ensures 0 <= idx[k] < |tasks| && ids[k] == tasks[idx[k]].taskId {
          if k < |prev| {
            assert ids[k] == prevIds[k];
          }
        }
      } else {
        assert ids == prevIds;
        idx := prev;
      }
    }
  }

  /** The task type plays no part: tasks with the same ids and creation times give the same list. */
  lemma {:induction false} AbnormalIgnoresType(a: seq<RunningTask>, b: seq<RunningTask>, now: int, thresholdMin: int)
    requires |a| == |b|
    requires forall i :: 0 <= i < |a| ==> a[i].taskId == b[i].taskId && a[i].createTime == b[i].createTime
    ensures AbnormalIds(a, now, thresholdMin) == AbnormalIds(b, now, thresholdMin)
  {
    if a != [] {
      var n := |a| - 1;
      AbnormalIgnoresType(a[..n], b[..n], now, thresholdMin);
    }
  }

  /** A later sweep over the same tasks picks at least as many of them. */
  lemma {:induction false} AbnormalGrowsWithTime(tasks: seq<RunningTask>, now: int, later: int, thresholdMin: int)
    requires now <= later
    ensures |AbnormalIds(tasks, now, thresholdMin)| <= |AbnormalIds(tasks, later, thresholdMin)|
  {
    if tasks != [] {
      AbnormalGrowsWithTime(tasks[..|tasks| - 1], now, later, thresholdMin);
    }
  }

  /**
   * task_enter: the ids handed to update_task_status, if it is called at all; it
   * is called exactly when some running task is abnormal.
   */
  method TaskEnter(running: seq<RunningTask>, now: int, thresholdMin: int) returns (update: Option<seq<TaskId>>)
    ensures update.Some? <==> exists i :: 0 <= i < |running| && Abnormal(running[i], now, thresholdMin)
    ensures update.Some? ==> update.value == AbnormalIds(running, now, thresholdMin)
  {
    var abnormal := GetAbnormalTask(running, now, thresholdMin);
    ghost var idx := AbnormalIdsSubsequence(running, now, thresholdMin);
    if abnormal != [] {
      update := Some(abnormal);
      assert 0 <= idx[0] < |running| && idx[0] in idx;
    } else {
      update := None;
    }
  }
}
