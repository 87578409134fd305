/**
 * The `tasks` table as a value: the rows in insertion order, and the two
 * queries the store runs on it, `SELECT ... WHERE user_id=? AND is_done=FALSE
 * ORDER BY id` and `UPDATE tasks SET is_done=TRUE WHERE id=?`.
 */
module TaskTable {
  import opened Options

  /** One row: `(id, user_id, task_text, reminder_time, is_done)`. */
  datatype Task = Task(id: int, userId: int, text: string, reminder: Option<string>, isDone: bool)

  /** One row of the listing query: `(id, task_text, reminder_time)`. */
  datatype Listed = Listed(id: int, text: string, reminder: Option<string>)

  function View(t: Task): Listed {
    Listed(t.id, t.text, t.reminder)
  }

  /** The row is an open task of user `u`. */
  predicate IsOpenOf(t: Task, u: int) {
    t.userId == u && !t.isDone
  }

  /** `x` is the listing view of some open row of `u`. */
  ghost predicate FromOpenRow(rows: seq<Task>, u: int, x: Listed) {
    exists i :: 0 <= i < |rows| && IsOpenOf(rows[i], u) && View(rows[i]) == x
  }

  /** Ids strictly increase along the table (AUTOINCREMENT, append-only). */
  predicate StrictlyAscending(rows: seq<Task>) {
    forall i, j :: 0 <= i < j < |rows| ==> rows[i].id < rows[j].id
  }

  predicate ListedAscending(ls: seq<Listed>) {
    forall i, j :: 0 <= i < j < |ls| ==> ls[i].id < ls[j].id
  }

  /** The listing query on a table kept in id order: the open rows of `u`, in order. */
  function OpenOf(rows: seq<Task>, u: int): (r: seq<Listed>)
    ensures |r| <= |rows|
  {
    if rows == [] then []
    else (if IsOpenOf(rows[0], u) then [View(rows[0])] else []) + OpenOf(rows[1..], u)
  }

  /** The UPDATE: every row whose id is `id` becomes done; nothing else changes. */
  function MarkDone(rows: seq<Task>, id: int): (r: seq<Task>)
    ensures |r| == |rows|
  {
    seq(|rows|, i requires 0 <= i < |rows| =>
      if rows[i].id == id then rows[i].(isDone := true) else rows[i])
  }

  /** Every listed entry comes from an open row of `u`: no other user's task and
      no finished task is ever listed. */
  lemma {:induction false} OpenOfSound(rows: seq<Task>, u: int, k: int)
    requires 0 <= k < |OpenOf(rows, u)|
    ensures FromOpenRow(rows, u, OpenOf(rows, u)[k])
  {
    var head := if IsOpenOf(rows[0], u) then [View(rows[0])] else [];
    if k < |head| {
      assert View(rows[0]) == OpenOf(rows, u)[k];
    } else {
      OpenOfSound(rows[1..], u, k - |head|);
      var i :| 0 <= i < |rows[1..]| && IsOpenOf(rows[1..][i], u)
               && View(rows[1..][i]) == OpenOf(rows[1..], u)[k - |head|];
      assert rows[i + 1] == rows[1..][i];
    }
  }

  /** Every open row of `u` is listed. */
  lemma {:induction false} OpenOfComplete(rows: seq<Task>, u: int, i: int)
    requires 0 <= i < |rows| && IsOpenOf(rows[i], u)
    ensures View(rows[i]) in OpenOf(rows, u)
  {
    if i > 0 {
      OpenOfComplete(rows[1..], u, i - 1);
    }
  }

  /** The listing holds exactly the open rows of `u`: both directions at once. */
  lemma OpenOfExact(rows: seq<Task>, u: int)
    ensures forall k :: 0 <= k < |OpenOf(rows, u)| ==> FromOpenRow(rows, u, OpenOf(rows, u)[k])
    ensures forall i :: 0 <= i < |rows| && IsOpenOf(rows[i], u) ==> View(rows[i]) in OpenOf(rows, u)
  {
    forall k | 0 <= k < |OpenOf(rows, u)| ensures FromOpenRow(rows, u, OpenOf(rows, u)[k]) {
      OpenOfSound(rows, u, k);
    }
    forall i | 0 <= i < |rows| && IsOpenOf(rows[i], u) ensures View(rows[i]) in OpenOf(rows, u) {
      OpenOfComplete(rows, u, i);
    }
  }

  /** ORDER BY id: the listing of an id-ordered table is strictly ascending by id. */
  lemma {:induction false} OpenOfAscending(rows: seq<Task>, u: int)
    requires StrictlyAscending(rows)
    ensures ListedAscending(OpenOf(rows, u))
  {
    if rows != [] {
      var tail := rows[1..];
      OpenOfAscending(tail, u);
      if IsOpenOf(rows[0], u) {
        var r := OpenOf(rows, u);
        assert r == [View(rows[0])] + OpenOf(tail, u);
        forall k | 0 <= k < |OpenOf(tail, u)| ensures rows[0].id < OpenOf(tail, u)[k].id {
          OpenOfSound(tail, u, k);
        }
      }
    }
  }

  /** Appending a row extends the listing by that row exactly when it is an open
      row of `u`. */
  lemma {:induction false} OpenOfAppend(rows: seq<Task>, t: Task, u: int)
    ensures OpenOf(rows + [t], u) == OpenOf(rows, u) + (if IsOpenOf(t, u) then [View(t)] else [])
  {
    if rows == [] {
      assert [] + [t] == [t];
    } else {
      var x := rows + [t];
      assert x[0] == rows[0] && x[1..] == rows[1..] + [t];
      OpenOfAppend(rows[1..], t, u);
      AppendAfterHead(OpenOf(x, u), OpenOf(rows, u), OpenOf(x[1..], u), OpenOf(rows[1..], u),
                      if IsOpenOf(rows[0], u) then [View(rows[0])] else [],
                      if IsOpenOf(t, u) then [View(t)] else []);
    }
  }

  /** `h + (m + e) == (h + m) + e`, stated for the two listings in `OpenOfAppend`:
      with the step inline, that proof costs several times more. */
  lemma AppendAfterHead<T>(l: seq<T>, r: seq<T>, ls: seq<T>, rs: seq<T>, h: seq<T>, e: seq<T>)
    requires l == h + ls && r == h + rs && ls == rs + e
    ensures l == r + e
  {
  }

  /** The UPDATE leaves the listing of every user alone when no row with that id
      is theirs (in particular when no row has that id at all). */
  lemma {:induction false} MarkDoneOtherOwner(rows: seq<Task>, id: int, v: int)
    requires forall i :: 0 <= i < |rows| && rows[i].id == id ==> rows[i].userId != v
    ensures OpenOf(MarkDone(rows, id), v) == OpenOf(rows, v)
  {
    if rows != [] {
      assert MarkDone(rows, id)[1..] == MarkDone(rows[1..], id);
      MarkDoneOtherOwner(rows[1..], id, v);
    }
  }

  /** The UPDATE row by row: each row keeps its id, owner, text and reminder, and
      is done afterwards exactly when it was done before or carries the id. */
  lemma MarkDoneAt(rows: seq<Task>, id: int, i: int)
    requires 0 <= i < |rows|
    ensures var t, r := rows[i], MarkDone(rows, id)[i];
            r.id == t.id && r.userId == t.userId && r.text == t.text && r.reminder == t.reminder
            && (r.isDone <==> t.isDone || t.id == id)
  {
  }

  /** The UPDATE on an id that is in no row changes nothing. */
  lemma MarkDoneAbsent(rows: seq<Task>, id: int)
    requires forall i :: 0 <= i < |rows| ==> rows[i].id != id
    ensures MarkDone(rows, id) == rows
  {
  }

  /** The UPDATE is idempotent. */
  lemma MarkDoneIdempotent(rows: seq<Task>, id: int)
    ensures MarkDone(MarkDone(rows, id), id) == MarkDone(rows, id)
  {
  }

  /** In an id-ordered table the first row's id is below every id listed from the rest. */
  lemma HeadBelowListedTail(rows: seq<Task>, u: int)
    requires StrictlyAscending(rows) && rows != []
    ensures forall j :: 0 <= j < |OpenOf(rows[1..], u)| ==> rows[0].id < OpenOf(rows[1..], u)[j].id
  {
    forall j | 0 <= j < |OpenOf(rows[1..], u)| ensures rows[0].id < OpenOf(rows[1..], u)[j].id {
      OpenOfSound(rows[1..], u, j);
    }
  }

  /** Marking the `k`-th listed task of `u` done removes exactly that entry from
      `u`'s listing. */
  lemma {:induction false} MarkDoneRemovesListed(rows: seq<Task>, u: int, k: int)
    requires StrictlyAscending(rows)
    requires 0 <= k < |OpenOf(rows, u)|
    ensures var l := OpenOf(rows, u);
            OpenOf(MarkDone(rows, l[k].id), u) == l[..k] + l[k + 1..]
  {
    var tail := rows[1..];
    if IsOpenOf(rows[0], u) && k == 0 {
      RemoveFirstListed(rows, u);
    } else if IsOpenOf(rows[0], u) {
      AscendingTail(rows);
      MarkDoneRemovesListed(tail, u, k - 1);
      RemoveLaterListed(rows, u, k);
    } else {
      AscendingTail(rows);
      MarkDoneRemovesListed(tail, u, k);
      RemoveListedAfterClosedHead(rows, u, k);
    }
  }

  lemma AscendingTail(rows: seq<Task>)
    requires StrictlyAscending(rows) && rows != []
    ensures StrictlyAscending(rows[1..])
  {
    forall i, j | 0 <= i < j < |rows| - 1 ensures rows[1..][i].id < rows[1..][j].id {
      assert rows[1..][i] == rows[i + 1] && rows[1..][j] == rows[j + 1];
    }
  }

  /** The first listed entry is the first row itself: no later row shares its id. */
  lemma RemoveFirstListed(rows: seq<Task>, u: int)
    requires StrictlyAscending(rows) && rows != [] && IsOpenOf(rows[0], u)
    ensures var l := OpenOf(rows, u);
            OpenOf(MarkDone(rows, l[0].id), u) == l[..0] + l[1..]
  {
    var id := rows[0].id;
    var tail := rows[1..];
    OpenOfKeepHead(rows, u);
    MarkDoneDropHead(rows, id, u);
    forall i | 0 <= i < |tail| ensures tail[i].id != id {
      assert tail[i] == rows[i + 1];
    }
    MarkDoneAbsent(tail, id);
    assert ([View(rows[0])] + OpenOf(tail, u))[..0] + ([View(rows[0])] + OpenOf(tail, u))[1..] == OpenOf(tail, u);
  }

  /** A later entry of a listing that starts with the first row: the first row
      stays, and the rest follows from the tail. */
  lemma RemoveLaterListed(rows: seq<Task>, u: int, k: int)
    requires StrictlyAscending(rows) && rows != [] && IsOpenOf(rows[0], u)
    requires 0 < k < |OpenOf(rows, u)|
    requires var lt := OpenOf(rows[1..], u);
             OpenOf(MarkDone(rows[1..], lt[k - 1].id), u) == lt[..k - 1] + lt[k..]
    ensures var l := OpenOf(rows, u);
            OpenOf(MarkDone(rows, l[k].id), u) == l[..k] + l[k + 1..]
  {
    var lt := OpenOf(rows[1..], u);
    OpenOfKeepHead(rows, u);
    var id := lt[k - 1].id;
    HeadBelowListedTail(rows, u);
    MarkDoneKeepHead(rows, id, u);
    RemoveAfterHead(View(rows[0]), lt, k);
  }

  /** Removing entry `k > 0` of `[x] + xs` keeps `x` and removes entry `k - 1` of `xs`. */
  lemma RemoveAfterHead<T>(x: T, xs: seq<T>, k: int)
    requires 0 < k <= |xs|
    ensures ([x] + xs)[..k] + ([x] + xs)[k + 1..] == [x] + (xs[..k - 1] + xs[k..])
  {
    assert ([x] + xs)[..k] == [x] + xs[..k - 1];
    assert ([x] + xs)[k + 1..] == xs[k..];
  }

  /** An open first row of `u` heads the listing. */
  lemma OpenOfKeepHead(rows: seq<Task>, u: int)
    requires rows != [] && IsOpenOf(rows[0], u)
    ensures OpenOf(rows, u) == [View(rows[0])] + OpenOf(rows[1..], u)
  {
  }

  /** It still heads the listing after an UPDATE on another id. */
  lemma MarkDoneKeepHead(rows: seq<Task>, id: int, u: int)
    requires rows != [] && IsOpenOf(rows[0], u) && rows[0].id != id
    ensures OpenOf(MarkDone(rows, id), u) == [View(rows[0])] + OpenOf(MarkDone(rows[1..], id), u)
  {
    MarkDoneUnfold(rows, id, u);
  }

  /** The UPDATE on the first row's own id drops that row from the listing. */
  lemma MarkDoneDropHead(rows: seq<Task>, id: int, u: int)
    requires rows != [] && rows[0].id == id
    ensures OpenOf(MarkDone(rows, id), u) == OpenOf(MarkDone(rows[1..], id), u)
  {
    MarkDoneUnfold(rows, id, u);
    assert [] + OpenOf(MarkDone(rows[1..], id), u) == OpenOf(MarkDone(rows[1..], id), u);
  }

  /** A listing that skips a first row that is not an open task of `u`. */
  lemma RemoveListedAfterClosedHead(rows: seq<Task>, u: int, k: int)
    requires rows != [] && !IsOpenOf(rows[0], u)
    requires 0 <= k < |OpenOf(rows, u)|
    requires var lt := OpenOf(rows[1..], u);
             OpenOf(MarkDone(rows[1..], lt[k].id), u) == lt[..k] + lt[k + 1..]
    ensures var l := OpenOf(rows, u);
            OpenOf(MarkDone(rows, l[k].id), u) == l[..k] + l[k + 1..]
  {
    var lt := OpenOf(rows[1..], u);
    OpenOfSkipHead(rows, u);
    var id := lt[k].id;
    MarkDoneSkipHead(rows, id, u);
  }

  /** A first row that is not an open task of `u` does not appear in the listing. */
  lemma OpenOfSkipHead(rows: seq<Task>, u: int)
    requires rows != [] && !IsOpenOf(rows[0], u)
    ensures OpenOf(rows, u) == OpenOf(rows[1..], u)
  {
    assert OpenOf(rows, u) == [] + OpenOf(rows[1..], u);
  }

  /** Nor does it after the UPDATE. */
  lemma MarkDoneSkipHead(rows: seq<Task>, id: int, u: int)
    requires rows != [] && !IsOpenOf(rows[0], u)
    ensures OpenOf(MarkDone(rows, id), u) == OpenOf(MarkDone(rows[1..], id), u)
  {
    MarkDoneUnfold(rows, id, u);
    assert [] + OpenOf(MarkDone(rows[1..], id), u) == OpenOf(MarkDone(rows[1..], id), u);
  }

  /** The UPDATE followed by the listing, one row at a time. */
  lemma MarkDoneUnfold(rows: seq<Task>, id: int, u: int)
    requires rows != []
    ensures OpenOf(MarkDone(rows, id), u)
            == (if IsOpenOf(rows[0], u) && rows[0].id != id then [View(rows[0])] else [])
               + OpenOf(MarkDone(rows[1..], id), u)
  {
    assert MarkDone(rows, id)[1..] == MarkDone(rows[1..], id);
  }

  /** Marking a task of `u` done leaves every other user's listing unchanged. */
  lemma MarkDoneKeepsOtherUsers(rows: seq<Task>, u: int, k: int, v: int)
    requires StrictlyAscending(rows)
    requires 0 <= k < |OpenOf(rows, u)| && v != u
    ensures OpenOf(MarkDone(rows, OpenOf(rows, u)[k].id), v) == OpenOf(rows, v)
  {
    var id := OpenOf(rows, u)[k].id;
    OpenOfSound(rows, u, k);
    MarkDoneOtherOwner(rows, id, v);
  }
}
