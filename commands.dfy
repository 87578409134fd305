/**
 * The command handlers of bot.py that touch the `tasks` table: `/add`, `/list`
 * and `/done`. Each runs as one sequential step on the store and returns the
 * reply the bot would send.
 */
module Commands {
  import opened Options
  import opened Text
  import opened TimeToken
  import opened TaskTable
  import opened TaskStore

  /** The replies of the three handlers. `/list` carries its rendered text; the
      others carry the values their messages are built from (see ReplyText). */
  datatype Reply =
    | AskForTask
    | TaskAdded(text: string, reminder: Option<string>)
    | AddFailed
    | ListText(text: string)
    | AskForNumber
    | UseNumber
    | Completed(n: int)
    | NotFound(n: int)

  const ListHeader: string := "*Ваши задачи:*\n\n"
  const ListFooter: string := "\n*Завершить:* `/done номер`"
  const EmptyListMessage: string := "*Список задач пуст*\n\n" + "Используйте `/add задача`"
  /** The `/add` confirmation: its header, and the label before a reminder. */
  const AddedHeader: string := "*Задача добавлена!*\n\n "
  const ReminderLabel: string := "\n Напоминание: "
  /** The words of the `/done` replies around the number. */
  const TaskWord: string := "*Задача"
  const DoneWord: string := "выполнена!*"
  const NotWord: string := "не"
  const FoundWord: string := "найдена*"

  /** `f"{n}"` for any int: a single word that `int()` reads back as `n`. */
  function IntString(n: int): (s: string)
    ensures s != [] && NoSpace(s)
    ensures ParseInt(s) == Some(n)
  {
    if n < 0 then
      ParseNegative(-n);
      "-" + DecimalString(-n)
    else
      ParseDecimal(n);
      DigitsHaveNoSpace(DecimalString(n));
      DecimalString(n)
  }

  /** What Python's `if reminder_time:` appends: the reminder when it is a
      non-empty string, nothing otherwise. */
  function ReminderSuffix(reminder: Option<string>): string {
    if reminder.Some? && reminder.value != [] then reminder.value else []
  }

  /** The message text each reply stands for. */
  function ReplyText(r: Reply): string {
    match r
    case AskForTask => "Укажите задачу: `/add ваша задача`"
    case TaskAdded(text, reminder) =>
      AddedHeader + text
      + (if ReminderSuffix(reminder) != [] then ReminderLabel + ReminderSuffix(reminder) else [])
    case AddFailed => "Не удалось добавить задачу"
    case ListText(text) => text
    case AskForNumber => "Укажите номер: `/done 1`"
    case UseNumber => "*Используйте номер:* `/done 1`"
    case Completed(n) => TaskWord + " " + IntString(n) + " " + DoneWord
    case NotFound(n) => TaskWord + " " + IntString(n) + " " + NotWord + " " + FoundWord
  }

  /** Line `n` of the listing: number, dot, space, text, the reminder glued on
      with no separator, newline. */
  function Line(n: nat, t: Listed): (s: string)
    ensures |s| > 3 && s[|s| - 1] == '\n'
  {
    DecimalString(n) + ". " + t.text + ReminderSuffix(t.reminder) + "\n"
  }

  /** The lines for `ts`, numbered from `first`. */
  function Lines(ts: seq<Listed>, first: nat): (s: string)
    ensures |s| >= 4 * |ts|
  {
    if ts == [] then [] else Line(first, ts[0]) + Lines(ts[1..], first + 1)
  }

  /** The `/list` reply for a listing. */
  function RenderList(ts: seq<Listed>): string {
    if ts == [] then EmptyListMessage else ListHeader + Lines(ts, 1) + ListFooter
  }

  /** Rendering a concatenation renders the parts, the second numbered on from the first. */
  lemma {:induction false} LinesConcat(a: seq<Listed>, b: seq<Listed>, first: nat)
    ensures Lines(a + b, first) == Lines(a, first) + Lines(b, first + |a|)
  {
    if a == [] {
      assert a + b == b;
    } else {
      assert (a + b)[1..] == a[1..] + b;
      LinesConcat(a[1..], b, first + 1);
      ConcatAssoc(Line(first, a[0]), Lines(a[1..], first + 1), Lines(b, first + |a|));
    }
  }

  /** The lines for one more entry are the lines so far plus its own line. */
  lemma LinesSnoc(ts: seq<Listed>, i: int)
    requires 0 <= i < |ts|
    ensures Lines(ts[..i + 1], 1) == Lines(ts[..i], 1) + Line(i + 1, ts[i])
  {
    assert ts[..i + 1] == ts[..i] + [ts[i]];
    LinesConcat(ts[..i], [ts[i]], 1);
    assert Lines([ts[i]], i + 1) == Line(i + 1, ts[i]) + Lines([], i + 2);
  }

  /** The three appends of one loop iteration of `/list` add `Line(n, t)`. */
  lemma LineAppended(done: string, n: nat, t: Listed)
    ensures var head := done + DecimalString(n) + ". " + t.text;
            var withReminder := if t.reminder.Some? && t.reminder.value != [] then head + t.reminder.value else head;
            withReminder + "\n" == done + Line(n, t)
  {
    var d := DecimalString(n);
    assert done + d + ". " + t.text + [] == done + d + ". " + t.text;
  }

  /** Entry `k` of the listing is shown, in order, as line `k + 1`: the text
      splits into the lines before it, its own line, and the lines after it. */
  lemma ListedEntryIsLine(ts: seq<Listed>, k: int)
    requires 0 <= k < |ts|
    ensures Lines(ts, 1) == Lines(ts[..k], 1) + Line(k + 1, ts[k]) + Lines(ts[k + 1..], k + 2)
  {
    var pre, post := ts[..k], ts[k..];
    SplitAt(ts, k, pre, post);
    LinesConcat(pre, post, 1);
    LinesCons(post, k + 1);
    Regroup(Lines(ts, 1), Lines(pre, 1), Line(k + 1, ts[k]), Lines(ts[k + 1..], k + 2));
  }

  /** The lines of a non-empty listing: the first line, then the rest. */
  lemma LinesCons(ts: seq<Listed>, first: nat)
    requires ts != []
    ensures Lines(ts, first) == Line(first, ts[0]) + Lines(ts[1..], first + 1)
  {
  }

  /** `ts` cut before index `k`: the two halves, and the head and tail of the second.
      This and `Regroup` keep `ListedEntryIsLine` cheap; inline, its proof costs
      several times more. */
  lemma SplitAt<T>(ts: seq<T>, k: int, pre: seq<T>, post: seq<T>)
    requires 0 <= k < |ts| && pre == ts[..k] && post == ts[k..]
    ensures ts == pre + post && |pre| == k
    ensures post != [] && post[0] == ts[k] && post[1..] == ts[k + 1..]
  {
  }

  lemma Regroup<T>(l: seq<T>, a: seq<T>, b: seq<T>, c: seq<T>)
    requires l == a + (b + c)
    ensures l == a + b + c
  {
  }

  /** The empty-list message is sent exactly when there is nothing to list; any
      other listing sits between the header and the footer. */
  lemma RenderListShape(ts: seq<Listed>)
    ensures RenderList(ts) == EmptyListMessage <==> ts == []
    ensures ts != [] ==> RenderList(ts)[..|ListHeader|] == ListHeader
                         && RenderList(ts)[|RenderList(ts)| - |ListFooter|..] == ListFooter
  {
    if ts != [] {
      var r := RenderList(ts);
      Framed(ListHeader, Lines(ts, 1), ListFooter);
      HeaderIsNotEmptyMessage(r);
    }
  }

  /** A text that starts with the header is not the empty-list message. */
  lemma HeaderIsNotEmptyMessage(r: string)
    requires |r| >= |ListHeader| && r[..|ListHeader|] == ListHeader
    ensures r != EmptyListMessage
  {
    assert ListHeader[1] == 'В' && EmptyListMessage[1] == 'С';
    assert r[1] == r[..|ListHeader|][1];
  }

  /** `h + m + f` starts with `h` and ends with `f`. */
  lemma Framed<T>(h: seq<T>, m: seq<T>, f: seq<T>)
    ensures var r := h + m + f;
            |r| >= |h| + |f| && r[..|h|] == h && r[|r| - |f|..] == f
  {
    var r := h + m + f;
    assert r == h + (m + f);
    assert r == (h + m) + f;
  }

  /** The `/add` confirmation repeats the stored text right after its header. It
      ends there when there is no reminder to show, and ends with the reminder
      otherwise. */
  lemma AddReplyEchoes(text: string, reminder: Option<string>)
    ensures var r, m := ReplyText(TaskAdded(text, reminder)), ReminderSuffix(reminder);
            |r| >= |AddedHeader| + |text| && r[..|AddedHeader| + |text|] == AddedHeader + text
            && (m == [] ==> r == AddedHeader + text)
            && (m != [] ==> r[|r| - |m|..] == m)
  {
    var h, m := AddedHeader + text, ReminderSuffix(reminder);
    if m == [] {
      assert h + [] == h;
    } else {
      assert h + (ReminderLabel + m) == h + ReminderLabel + m;
      Framed(h, ReminderLabel, m);
    }
  }

  /** The `/done` confirmation names the number it was given, as a word of its
      own: `split()` of it is `*Задача`, the number and `выполнена!*`. */
  lemma CompletedNamesNumber(n: int)
    ensures Words(ReplyText(Completed(n))) == [TaskWord, IntString(n), DoneWord]
  {
    var d := IntString(n);
    ReplyWordsHaveNoSpace();
    LastWord(DoneWord);
    NumberedPhrase(TaskWord, d, " " + DoneWord, [DoneWord]);
    ConcatAssoc(TaskWord + " " + d, " ", DoneWord);
  }

  /** The not-found reply names the number too: `split()` of it is `*Задача`,
      the number, `не` and `найдена*`. */
  lemma NotFoundNamesNumber(n: int)
    ensures Words(ReplyText(NotFound(n))) == [TaskWord, IntString(n), NotWord, FoundWord]
  {
    var d := IntString(n);
    ReplyWordsHaveNoSpace();
    LastWord(FoundWord);
    assert NotWord != [] && NoSpace(NotWord);
    var x, tail := TaskWord + " " + d, (" " + NotWord) + (" " + FoundWord);
    WordsCons(" ", NotWord, " " + FoundWord);
    assert tail[0] == ' ';
    NumberedPhrase(TaskWord, d, tail, [NotWord, FoundWord]);
    ConcatAssoc(x + " " + NotWord, " ", FoundWord);
    ConcatAssoc(x, " ", NotWord);
    ConcatAssoc(x, " " + NotWord, " " + FoundWord);
  }

  /** `" " + w` is the one word `w`. */
  lemma LastWord(w: string)
    requires w != [] && NoSpace(w)
    ensures Words(" " + w) == [w]
  {
    assert AllSpace(" ") && AllSpace([]);
    WordsCons(" ", w, []);
    assert " " + w + [] == " " + w;
  }

  /** The fixed words of the `/done` replies hold no whitespace. */
  lemma ReplyWordsHaveNoSpace()
    ensures NoSpace(TaskWord) && NoSpace(DoneWord) && NoSpace(NotWord) && NoSpace(FoundWord)
  {
    forall i | 0 <= i < |TaskWord| ensures !IsSpace(TaskWord[i]) { }
    forall i | 0 <= i < |DoneWord| ensures !IsSpace(DoneWord[i]) { }
    forall i | 0 <= i < |FoundWord| ensures !IsSpace(FoundWord[i]) { }
  }

  /** `t + " " + d + tail` splits into the words `t`, `d` and those of `tail`. */
  lemma NumberedPhrase(t: string, d: string, tail: string, ws: seq<string>)
    requires t != [] && NoSpace(t) && d != [] && NoSpace(d)
    requires tail != [] && IsSpace(tail[0]) && Words(tail) == ws
    ensures Words(t + " " + d + tail) == [t, d] + ws
  {
    assert AllSpace(" ") && AllSpace([]);
    WordsCons(" ", d, tail);
    WordsCons([], t, " " + d + tail);
    assert [] + t == t;
    ConcatAssoc(" ", d, tail);
    ConcatAssoc(t, " ", d + tail);
    ConcatAssoc(t + " ", d, tail);
  }

  /** The number shown on a line, sent back as `/done <number>`, is read as that
      number: `"/done " + f"{n}"` splits into two words and `int()` of the second is `n`. */
  lemma DoneNumberRoundTrip(n: nat)
    ensures var args := Words("/done " + DecimalString(n));
            |args| == 2 && ParseInt(args[1]) == Some(n)
  {
    var d := DecimalString(n);
    DigitsHaveNoSpace(d);
    DoneHasNoSpace();
    WordsOfCommand("/done", d);
    assert "/done" + " " == "/done ";
    ParseDecimal(n);
  }

  lemma DoneHasNoSpace()
    ensures "/done" != [] && NoSpace("/done")
  {
    var c := "/done";
    assert c[0] == '/' && c[1] == 'd' && c[2] == 'o' && c[3] == 'n' && c[4] == 'e';
  }

  /** Marking entry `n` (counted from 1) of `u`'s listing done removes that entry
      from it and leaves every other user's listing as it was. */
  lemma DoneOnListing(rows0: seq<Task>, rows1: seq<Task>, u: int, n: int)
    requires StrictlyAscending(rows0) && 1 <= n <= |OpenOf(rows0, u)|
    requires rows1 == MarkDone(rows0, OpenOf(rows0, u)[n - 1].id)
    ensures OpenOf(rows1, u) == OpenOf(rows0, u)[..n - 1] + OpenOf(rows0, u)[n..]
    ensures forall v :: v != u ==> OpenOf(rows1, v) == OpenOf(rows0, v)
  {
    var k := n - 1;
    MarkDoneRemovesListed(rows0, u, k);
    assert k + 1 == n;
    forall v | v != u ensures OpenOf(rows1, v) == OpenOf(rows0, v) {
      MarkDoneKeepsOtherUsers(rows0, u, k, v);
    }
  }

  /** `/add`: without text after the command nothing is stored; otherwise the
      trailing time token is split off and a task is appended for the user. */
  method AddCommand(store: Store, messageText: string, userId: int) returns (reply: Reply)
    requires store.Valid()
    modifies store
    ensures store.Valid()
    ensures |SplitOnce(messageText)| < 2 ==> reply == AskForTask && unchanged(store)
    ensures |SplitOnce(messageText)| == 2 ==>
              var x := ExtractTime(SplitOnce(messageText)[1]);
              reply == TaskAdded(x.text, x.reminder)
              && store.rows == old(store.rows) + [Task(old(store.nextId), userId, x.text, x.reminder, false)]
              && store.nextId == old(store.nextId) + 1
              && store.GetUserTasks(userId) == old(store.GetUserTasks(userId)) + [Listed(old(store.nextId), x.text, x.reminder)]
              && forall v :: v != userId ==> OpenOf(store.rows, v) == OpenOf(old(store.rows), v)
  {
    var args := SplitOnce(messageText);
    if |args| < 2 {
      return AskForTask;
    }
    var x := ExtractTime(args[1]);
    ghost var rows0 := store.rows;
    var ok := store.AddTask(userId, x.text, x.reminder);
    var added := Task(old(store.nextId), userId, x.text, x.reminder, false);
    OpenOfAppend(rows0, added, userId);
    forall v | v != userId ensures OpenOf(store.rows, v) == OpenOf(rows0, v) {
      OpenOfAppend(rows0, added, v);
    }
    reply := if ok then TaskAdded(x.text, x.reminder) else AddFailed;
  }

  /** `/list`: the empty-list message, or the numbered open tasks between the
      header and the footer, built line by line. */
  method ListCommand(store: Store, userId: int) returns (reply: Reply)
    requires store.Valid()
    ensures reply == ListText(RenderList(store.GetUserTasks(userId)))
  {
    var tasks := store.GetUserTasks(userId);
    if |tasks| == 0 {
      return ListText(EmptyListMessage);
    }
    var response := ListHeader;
    for i := 0 to |tasks|
      invariant response == ListHeader + Lines(tasks[..i], 1)
    {
      ghost var done := response;
      response := response + DecimalString(i + 1) + ". " + tasks[i].text;
      if tasks[i].reminder.Some? && tasks[i].reminder.value != [] {
        response := response + tasks[i].reminder.value;
      }
      response := response + "\n";
      LineAppended(done, i + 1, tasks[i]);
      LinesSnoc(tasks, i);
      ConcatAssoc(ListHeader, Lines(tasks[..i], 1), Line(i + 1, tasks[i]));
    }
    assert tasks[..|tasks|] == tasks;
    response := response + ListFooter;
    reply := ListText(response);
  }

  /** `/done n`: `n` is a 1-based position in the user's current listing. A
      missing argument, a non-integer argument and an out-of-range position each
      get their own reply and leave the table alone; otherwise exactly that task
      is marked done and drops out of the user's listing. */
  method DoneCommand(store: Store, messageText: string, userId: int) returns (reply: Reply)
    requires store.Valid()
    modifies store
    ensures store.Valid()
    ensures var args := Words(messageText);
            if |args| < 2 then reply == AskForNumber && unchanged(store)
            else if ParseInt(args[1]).None? then reply == UseNumber && unchanged(store)
            else
              var n := ParseInt(args[1]).value;
              var before := old(store.GetUserTasks(userId));
              if 1 <= n <= |before| then
                reply == Completed(n)
                && store.rows == MarkDone(old(store.rows), before[n - 1].id)
                && store.nextId == old(store.nextId)
                && store.GetUserTasks(userId) == before[..n - 1] + before[n..]
                && forall v :: v != userId ==> OpenOf(store.rows, v) == OpenOf(old(store.rows), v)
              else reply == NotFound(n) && unchanged(store)
  {
    var args := Words(messageText);
    if |args| < 2 {
      return AskForNumber;
    }
    var parsed := ParseInt(args[1]);
    if parsed.None? {
      return UseNumber;
    }
    var taskNum := parsed.value;
    var tasks := store.GetUserTasks(userId);
    if 1 <= taskNum <= |tasks| {
      var taskId := tasks[taskNum - 1].id;
      ghost var rows0 := store.rows;
      var _ := store.MarkTaskDone(taskId);
      DoneOnListing(rows0, store.rows, userId, taskNum);
      reply := Completed(taskNum);
    } else {
      reply := NotFound(taskNum);
    }
  }
}
