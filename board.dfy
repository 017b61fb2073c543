/** Classifying columns and splitting the board into tasks still to do and
    tasks done (burndown.py:82-115). */
module Board {
  import opened Common
  import opened Text
  import opened Cards

  /** A project column: its name and its cards, in board order. */
  datatype Column = Column(name: string, cards: seq<Card>)

  /** The two task lists of the board. */
  datatype Partition = Partition(todo: seq<Task>, done: seq<Task>)

  /** DONE_KEYWORDS */
  const DoneKeywords: seq<string> := ["Done"]

  /** is_done_column: some keyword is a (case-sensitive) substring of the name. */
  function IsDoneColumn(column: Column, keywords: seq<string>): (r: bool)
    ensures r <==> exists k :: 0 <= k < |keywords| && Occurs(keywords[k], column.name)
  {
    if keywords == [] then false
    else
      var rest := IsDoneColumn(column, keywords[1..]);
      assert forall k :: 1 <= k < |keywords| ==> keywords[k] == keywords[1..][k - 1];
      Contains(column.name, keywords[0]) || rest
  }

  /** Every card of the column has a title. */
  predicate ColumnOk(column: Column) {
    forall k :: 0 <= k < |column.cards| ==> CardTitle(column.cards[k]).Ok?
  }

  /** Every card of the board has a title: the board can be read without failing. */
  predicate BoardOk(columns: seq<Column>) {
    forall column :: column in columns ==> ColumnOk(column)
  }

  /** The list comprehension of one column: a task per card, in card order;
      it fails as soon as one card has no title. */
  function ColumnTasks(cards: seq<Card>, inDone: bool): (r: Result<seq<Task>>)
    ensures r.Ok? <==> forall k :: 0 <= k < |cards| ==> CardTitle(cards[k]).Ok?
    ensures r.Err? ==> r.error == MissingContent
    ensures r.Ok? ==> |r.value| == |cards|
    ensures r.Ok? ==> forall k :: 0 <= k < |cards| ==> MakeTask(cards[k], inDone) == Ok(r.value[k])
  {
    if cards == [] then Ok([])
    else
      match MakeTask(cards[0], inDone)
      case Err(e) => Err(e)
      case Ok(t) =>
        assert forall k :: 1 <= k < |cards| ==> cards[k] == cards[1..][k - 1];
        match ColumnTasks(cards[1..], inDone)
        case Err(e) => Err(e)
        case Ok(ts) => Ok([t] + ts)
  }

  /** All tasks of the board, column after column, each marked done exactly
      when its column is a done column. */
  function BoardTasks(columns: seq<Column>, keywords: seq<string>): seq<Task>
    requires BoardOk(columns)
  {
    if columns == [] then []
    else
      var last := columns[|columns| - 1];
      assert last in columns;
      BoardTasks(columns[..|columns| - 1], keywords) + ColumnTasks(last.cards, IsDoneColumn(last, keywords)).value
  }

  /** The tasks of `tasks` that are done (`done`) or still to do (`!done`), in order. */
  function Where(tasks: seq<Task>, done: bool): (r: seq<Task>)
    ensures |r| <= |tasks|
    ensures forall k :: 0 <= k < |r| ==> r[k].doneAt.Some? == done
  {
    if tasks == [] then []
    else
      var last := tasks[|tasks| - 1];
      Where(tasks[..|tasks| - 1], done) + (if last.doneAt.Some? == done then [last] else [])
  }

  lemma {:induction false} WhereAppend(a: seq<Task>, b: seq<Task>, done: bool)
    ensures Where(a + b, done) == Where(a, done) + Where(b, done)
    decreases |b|
  {
    if b != [] {
      assert (a + b)[..|a + b| - 1] == a + b[..|b| - 1];
      WhereAppend(a, b[..|b| - 1], done);
    } else {
      assert a + b == a;
    }
  }

  /** Filtering keeps every task of the right kind and drops every other one. */
  lemma {:induction false} WhereUniform(tasks: seq<Task>, done: bool)
    requires forall k :: 0 <= k < |tasks| ==> tasks[k].doneAt.Some? == done
    ensures Where(tasks, done) == tasks
    ensures Where(tasks, !done) == []
  {
    if tasks != [] {
      var init := tasks[..|tasks| - 1];
      var last := tasks[|tasks| - 1];
      WhereUniform(init, done);
      assert Where(tasks, done) == init + [last];
      assert Where(tasks, !done) == [];
      assert init + [last] == tasks;
    }
  }

  /** Reading one more column extends the board's task list by that column's tasks. */
  lemma BoardTasksStep(columns: seq<Column>, i: nat, keywords: seq<string>)
    requires i < |columns| && BoardOk(columns[..i]) && ColumnOk(columns[i])
    ensures BoardOk(columns[..i + 1])
    ensures BoardTasks(columns[..i + 1], keywords)
            == BoardTasks(columns[..i], keywords) + ColumnTasks(columns[i].cards, IsDoneColumn(columns[i], keywords)).value
  {
    assert columns[..i + 1][..i] == columns[..i];
    assert columns[..i + 1] == columns[..i] + [columns[i]];
  }

  /** Every task read from a done column is done and every other task is not. */
  lemma ColumnTasksKind(cards: seq<Card>, inDone: bool)
    requires ColumnTasks(cards, inDone).Ok?
    ensures forall k :: 0 <= k < |ColumnTasks(cards, inDone).value| ==> ColumnTasks(cards, inDone).value[k].doneAt.Some? == inDone
  {
    var tasks := ColumnTasks(cards, inDone).value;
    forall k | 0 <= k < |tasks| ensures tasks[k].doneAt.Some? == inDone {
      assert MakeTask(cards[k], inDone) == Ok(tasks[k]);
    }
  }

  /** Appending the tasks of one column to the board extends exactly one of the two lists. */
  lemma WhereExtend(before: seq<Task>, tasks: seq<Task>, isDone: bool)
    requires forall k :: 0 <= k < |tasks| ==> tasks[k].doneAt.Some? == isDone
    ensures Where(before + tasks, isDone) == Where(before, isDone) + tasks
    ensures Where(before + tasks, !isDone) == Where(before, !isDone)
  {
    WhereAppend(before, tasks, isDone);
    WhereAppend(before, tasks, !isDone);
    WhereUniform(tasks, isDone);
    assert Where(before, !isDone) + [] == Where(before, !isDone);
  }

  /** get_todo_done_tasks: walks the columns in order and extends the done list
      with the tasks of each done column and the todo list with the tasks of
      every other column. */
  method GetTodoDoneTasks(columns: seq<Column>, keywords: seq<string>) returns (r: Result<Partition>)
    ensures r.Ok? <==> BoardOk(columns)
    ensures r.Err? ==> r.error == MissingContent
    ensures r.Ok? ==> r.value.todo == Where(BoardTasks(columns, keywords), false)
    ensures r.Ok? ==> r.value.done == Where(BoardTasks(columns, keywords), true)
  {
    var todo: seq<Task> := [];
    var done: seq<Task> := [];
    for i := 0 to |columns|
      invariant BoardOk(columns[..i])
      invariant todo == Where(BoardTasks(columns[..i], keywords), false)
      invariant done == Where(BoardTasks(columns[..i], keywords), true)
    {
      var column := columns[i];
      var isDone := IsDoneColumn(column, keywords);
      var tasks := ColumnTasks(column.cards, isDone);
      if tasks.Err? {
        assert column in columns && !ColumnOk(column);
        return Err(tasks.error);
      }
      ColumnTasksKind(column.cards, isDone);
      BoardTasksStep(columns, i, keywords);
      WhereExtend(BoardTasks(columns[..i], keywords), tasks.value, isDone);
      if isDone {
        done := done + tasks.value;
      } else {
        todo := todo + tasks.value;
      }
    }
    assert columns[..|columns|] == columns;
    return Ok(Partition(todo, done));
  }

  // ---------------------------------------------------------------------------
  // What the split promises

  /** The number of cards on the board. */
  function CardCount(columns: seq<Column>): nat {
    if columns == [] then 0 else CardCount(columns[..|columns| - 1]) + |columns[|columns| - 1].cards|
  }

  /** The columns whose done-ness is `done`, in board order. */
  function ColumnsWhere(columns: seq<Column>, keywords: seq<string>, done: bool): (r: seq<Column>)
    ensures forall column :: column in r ==> column in columns && IsDoneColumn(column, keywords) == done
  {
    if columns == [] then []
    else
      var last := columns[|columns| - 1];
      ColumnsWhere(columns[..|columns| - 1], keywords, done) + (if IsDoneColumn(last, keywords) == done then [last] else [])
  }

  lemma {:induction false} WhereCounts(tasks: seq<Task>)
    ensures |Where(tasks, true)| + |Where(tasks, false)| == |tasks|
  {
    if tasks != [] {
      WhereCounts(tasks[..|tasks| - 1]);
    }
  }

  lemma {:induction false} BoardTasksCount(columns: seq<Column>, keywords: seq<string>)
    requires BoardOk(columns)
    ensures |BoardTasks(columns, keywords)| == CardCount(columns)
  {
    if columns != [] {
      var init := columns[..|columns| - 1];
      var last := columns[|columns| - 1];
      assert forall column :: column in init ==> column in columns;
      assert last in columns && ColumnOk(last);
      BoardTasksCount(init, keywords);
      assert |ColumnTasks(last.cards, IsDoneColumn(last, keywords)).value| == |last.cards|;
    }
  }

  /** Every card ends up in exactly one of the two lists: the lists together
      hold as many tasks as the board has cards. */
  lemma PartitionComplete(columns: seq<Column>, keywords: seq<string>)
    requires BoardOk(columns)
    ensures |Where(BoardTasks(columns, keywords), false)| + |Where(BoardTasks(columns, keywords), true)| == CardCount(columns)
  {
    WhereCounts(BoardTasks(columns, keywords));
    BoardTasksCount(columns, keywords);
  }

  /** The done list is the tasks of the done columns and the todo list the
      tasks of the other columns, each in column order and card order. */
  lemma {:induction false} ListsFollowColumns(columns: seq<Column>, keywords: seq<string>, done: bool)
    requires BoardOk(columns)
    ensures BoardOk(ColumnsWhere(columns, keywords, done))
    ensures Where(BoardTasks(columns, keywords), done) == BoardTasks(ColumnsWhere(columns, keywords, done), keywords)
  {
    if columns != [] {
      var init := columns[..|columns| - 1];
      var last := columns[|columns| - 1];
      assert last in columns;
      assert forall column :: column in init ==> column in columns;
      ListsFollowColumns(init, keywords, done);
      var isDone := IsDoneColumn(last, keywords);
      var tasks := ColumnTasks(last.cards, isDone).value;
      ColumnTasksKind(last.cards, isDone);
      WhereExtend(BoardTasks(init, keywords), tasks, isDone);
      var sel := ColumnsWhere(init, keywords, done);
      if isDone == done {
        assert ColumnsWhere(columns, keywords, done) == sel + [last];
        assert (sel + [last])[..|sel|] == sel;
      } else {
        assert ColumnsWhere(columns, keywords, done) == sel;
      }
    }
  }
}
