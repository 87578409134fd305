/**
 * The store of bot.py: `add_task`, `get_user_tasks` and `mark_task_done`
 * over the `tasks` table, held in memory instead of in SQLite.
 */
module TaskStore {
  import opened Options
  import opened TaskTable

  /** The `tasks` table (rows in insertion order) and its AUTOINCREMENT counter. */
  class Store {
    var rows: seq<Task>
    var nextId: int

    /** Ids start at 1, are issued in increasing order and are never reused. */
    ghost predicate Valid()
      reads this
    {
      1 <= nextId
      && StrictlyAscending(rows)
      && forall i :: 0 <= i < |rows| ==> 1 <= rows[i].id < nextId
    }

    /** `init_db`: the table exists and is empty. */
    constructor ()
      ensures Valid() && rows == [] && nextId == 1
    {
      rows := [];
      nextId := 1;
    }

    /** `add_task`: appends one open row under a fresh id above every id issued
        before, and reports success. */
    method AddTask(userId: int, text: string, reminder: Option<string>) returns (ok: bool)
      requires Valid()
      modifies this
      ensures Valid()
      ensures rows == old(rows) + [Task(old(nextId), userId, text, reminder, false)]
      ensures forall i :: 0 <= i < |old(rows)| ==> old(rows)[i].id < old(nextId)
      ensures nextId == old(nextId) + 1
      ensures ok
    {
      rows := rows + [Task(nextId, userId, text, reminder, false)];
      nextId := nextId + 1;
      ok := true;
    }

    /** `get_user_tasks`: exactly the open rows of `userId`, as `(id, text,
        reminder)`, in ascending id order. */
    function GetUserTasks(userId: int): (r: seq<Listed>)
      reads this
      requires Valid()
      ensures ListedAscending(r)
      ensures forall k :: 0 <= k < |r| ==> FromOpenRow(rows, userId, r[k])
      ensures forall i :: 0 <= i < |rows| && IsOpenOf(rows[i], userId) ==> View(rows[i]) in r
    {
      OpenOfExact(rows, userId);
      OpenOfAscending(rows, userId);
      OpenOf(rows, userId)
    }

    /** `mark_task_done`: the UPDATE visits every row and flips `is_done` on the
        ones whose id is `taskId`, whoever owns them; it reports success. */
    method MarkTaskDone(taskId: int) returns (ok: bool)
      requires Valid()
      modifies this
      ensures Valid()
      ensures rows == MarkDone(old(rows), taskId)
      ensures nextId == old(nextId)
      ensures ok
    {
      var i := 0;
      while i < |rows|
        invariant 0 <= i <= |rows| == |old(rows)|
        invariant forall k :: 0 <= k < i ==> rows[k] == MarkDone(old(rows), taskId)[k]
        invariant forall k :: i <= k < |rows| ==> rows[k] == old(rows)[k]
        invariant nextId == old(nextId)
      {
        if rows[i].id == taskId {
          rows := rows[i := rows[i].(isDone := true)];
        }
        i := i + 1;
      }
      assert forall k :: 0 <= k < |rows| ==> rows[k].id == old(rows)[k].id;
      ok := true;
    }
  }
}
