/** Worked examples of the burndown engine on small boards. */
module Scenarios {
  import opened Common
  import opened Text
  import opened Points
  import opened Cards
  import opened Board
  import opened Burndown

  /** A mixed pair of brackets still delimits the points. */
  lemma MixedBracketExample()
    ensures TitlePoints("Fix login (5]") == 5.0
  {
    assert "Fix login (5]" == "Fix login " + ['('] + NumeralText(Numeral("5", [])) + "" + [']'] + "";
    LeadingBracketWins("Fix login ", '(', Numeral("5", []), "", ']', "");
  }

  /** The bracket pattern wins over an earlier `weight:` marker. */
  lemma BracketOverWeightExample()
    ensures TitlePoints("weight: 2 then [13P]") == 13.0
  {
    assert "weight: 2 then [13P]" == "weight: 2 then " + ['['] + NumeralText(Numeral("13", [])) + "P" + [']'] + "";
    LeadingBracketWins("weight: 2 then ", '[', Numeral("13", []), "P", ']', "");
  }

  /** When no word boundary follows the fraction, the engine gives the
      fraction back: `weight: 5.5x` is worth 5, and so is every title of that
      shape. */
  lemma FractionFallbackExample(d: char, e: char, x: char)
    requires IsDigit(d) && IsDigit(e) && IsWordChar(x) && !IsDigit(x)
    ensures TitlePoints("weight: " + [d, '.', e, x]) == DigitValue(d) as real
  {
    var s := "weight: " + [d, '.', e, x];
    var n := Numeral([d], []);
    FallbackTitle(d, e, x);
    InlineFractionGivenBack(s, 0, 8, n);
    WeightWhenNoBracket(s, 0, 8, n);
    assert DigitsValue([d]) == DigitValue(d) by {
      assert [d][..0] == [];
    }
  }

  /** What the patterns see in `weight: d.ex`. */
  lemma FallbackTitle(d: char, e: char, x: char)
    requires IsDigit(d) && IsDigit(e) && IsWordChar(x) && !IsDigit(x)
    ensures var s := "weight: " + [d, '.', e, x];
      && InlineMatches(s, 0, 8, Numeral([d], []))
      && FractionAt(s, 9)
      && RunEnd(s, 10, IsDigit) == 11
      && (forall k, m :: !ParenMatches(s, k, m))
  {
    var s := "weight: " + [d, '.', e, x];
    assert NumeralText(Numeral([d], [])) == [d] == s[8..9];
    RunEndUnique(s, 10, 11, IsDigit);
    assert forall k :: 0 <= k < |s| ==> !IsOpen(s[k]) by {
      assert forall k :: 0 <= k < 8 ==> !IsOpen(s[k]);
      assert forall k :: 8 <= k < |s| ==> IsWordChar(s[k]) || s[k] == '.';
    }
  }

  /** `weight:` with no whitespace after the colon is not a weight. */
  lemma WeightWithoutSpaceExample()
    ensures TitlePoints("weight:5") == 1.0
  {
    var s := "weight:5";
    forall k, w, m ensures !InlineMatches(s, k, w, m) {
    }
    DefaultWhenNoMatch(s);
  }

  /** Column names containing the keyword `Done`, case-sensitively, are done columns. */
  lemma ColumnExamples(cards: seq<Card>)
    ensures IsDoneColumn(Column("Done", cards), DoneKeywords)
    ensures !IsDoneColumn(Column("In progress", cards), DoneKeywords)
    ensures !IsDoneColumn(Column("done", cards), DoneKeywords)
  {
    assert OccursAt("Done", "Done", 0);
    forall i: nat ensures !OccursAt("Done", "In progress", i) {
      if i + 4 <= 11 {
        assert "In progress"[i..i + 4][0] == "In progress"[i] != 'D';
      }
    }
    forall i: nat ensures !OccursAt("Done", "done", i) {
      if i == 0 {
        assert "done"[0..4][0] == 'd';
      }
    }
  }

  /** 40 points over a 10-day window: 40, 36, ..., 4. */
  lemma IdealExample()
    ensures IdealBurndown(40.0, CourseStart, CourseStart + 10 * SecondsPerDay)
            == Ok([40.0, 36.0, 32.0, 28.0, 24.0, 20.0, 16.0, 12.0, 8.0, 4.0])
  {
    var ideal := IdealBurndown(40.0, CourseStart, CourseStart + 10 * SecondsPerDay);
    assert DayOffset(CourseStart + 10 * SecondsPerDay, CourseStart) == 10;
    assert ideal.Ok? && |ideal.value| == 10;
    forall i | 0 <= i < 10 ensures ideal.value[i] == 4.0 * (10 - i) as real {
    }
    assert ideal.value == [40.0, 36.0, 32.0, 28.0, 24.0, 20.0, 16.0, 12.0, 8.0, 4.0];
  }

  /** 21 points completed after 7 whole days is 3 points a day. */
  lemma VelocityExample(done: seq<Task>)
    requires TotalPoints(done) == 21.0
    ensures Velocity(done, CourseStart, CourseStart + 7 * SecondsPerDay + 5) == Ok(3.0)
  {
    assert DayOffset(CourseStart + 7 * SecondsPerDay + 5, CourseStart) == 7;
  }

  const RefactorCard := Card("Refactor parser (8)", None, CourseStart + 3 * SecondsPerDay + 60)
  const DocsCard := Card("Write docs", None, CourseStart)

  /** One done column holding a note worth 8 points, last moved on day 3, and
      one column in progress holding a note with no points marker. */
  const ExampleBoard := [Column("Done", [RefactorCard]), Column("In progress", [DocsCard])]

  lemma RefactorPoints()
    ensures TitlePoints(RefactorCard.note) == 8.0
  {
    assert RefactorCard.note == "Refactor parser " + ['('] + NumeralText(Numeral("8", [])) + "" + [')'] + "";
    LeadingBracketWins("Refactor parser ", '(', Numeral("8", []), "", ')', "");
  }

  lemma DocsPoints()
    ensures TitlePoints(DocsCard.note) == 1.0
  {
    var docs := DocsCard.note;
    forall i: nat ensures !OccursAt(WeightMarker, docs, i) {
      if i + 7 <= |docs| {
        assert docs[i..i + 7][0] == docs[i] != 'w';
      }
    }
    DefaultWithoutMarkers(docs);
  }

  const RefactorTask := Task(Some(CourseStart + 3 * SecondsPerDay + 60), "Refactor parser (8)", 8.0)
  const DocsTask := Task(None, "Write docs", 1.0)

  lemma SingleCardColumn(card: Card, inDone: bool, t: Task)
    requires MakeTask(card, inDone) == Ok(t)
    ensures ColumnTasks([card], inDone) == Ok([t])
  {
    assert [card][1..] == [];
    assert ColumnTasks([card][1..], inDone) == Ok([]);
    assert [t] + [] == [t];
  }

  lemma RefactorTaskMade()
    ensures MakeTask(RefactorCard, true) == Ok(RefactorTask)
  {
    RefactorPoints();
    var note := RefactorCard.note;
    assert !IsSpace(note[|note| - 1]);
    assert RStrip(note) == note;
    assert CardTitle(RefactorCard) == Ok(note);
    assert CardStoryPoints(RefactorCard) == Ok(8.0);
    assert CardClosedDate(RefactorCard) == RefactorCard.updatedAt;
  }

  lemma DocsTaskMade()
    ensures MakeTask(DocsCard, false) == Ok(DocsTask)
  {
    DocsPoints();
    var note := DocsCard.note;
    assert !IsSpace(note[|note| - 1]);
    assert RStrip(note) == note;
    assert CardTitle(DocsCard) == Ok(note);
    assert CardStoryPoints(DocsCard) == Ok(1.0);
  }

  lemma ExampleBoardOk()
    ensures BoardOk(ExampleBoard)
  {
    assert CardTitle(RefactorCard).Ok? && CardTitle(DocsCard).Ok?;
    assert ColumnOk(ExampleBoard[0]) && ColumnOk(ExampleBoard[1]);
  }

  lemma OneColumnBoard(column: Column, keywords: seq<string>)
    requires ColumnOk(column)
    ensures BoardOk([column])
    ensures BoardTasks([column], keywords) == ColumnTasks(column.cards, IsDoneColumn(column, keywords)).value
  {
    assert [column][..0] == [];
  }

  lemma TwoColumnBoard(first: Column, second: Column, keywords: seq<string>)
    requires ColumnOk(first) && ColumnOk(second)
    ensures BoardOk([first, second])
    ensures BoardTasks([first, second], keywords)
            == ColumnTasks(first.cards, IsDoneColumn(first, keywords)).value
               + ColumnTasks(second.cards, IsDoneColumn(second, keywords)).value
  {
    OneColumnBoard(first, keywords);
    assert [first, second][..1] == [first];
  }

  /** A board with one done column and one column in progress, one card each. */
  lemma TwoCardBoard(done: Column, todo: Column, keywords: seq<string>, doneTask: Task, todoTask: Task)
    requires |done.cards| == 1 && |todo.cards| == 1
    requires IsDoneColumn(done, keywords) && !IsDoneColumn(todo, keywords)
    requires MakeTask(done.cards[0], true) == Ok(doneTask)
    requires MakeTask(todo.cards[0], false) == Ok(todoTask)
    ensures BoardOk([done, todo])
    ensures BoardTasks([done, todo], keywords) == [doneTask, todoTask]
  {
    assert done.cards == [done.cards[0]] && todo.cards == [todo.cards[0]];
    SingleCardColumn(done.cards[0], true, doneTask);
    SingleCardColumn(todo.cards[0], false, todoTask);
    TwoColumnBoard(done, todo, keywords);
    assert [doneTask] + [todoTask] == [doneTask, todoTask];
  }

  lemma ExampleBoardTasks()
    ensures BoardOk(ExampleBoard)
    ensures BoardTasks(ExampleBoard, DoneKeywords) == [RefactorTask, DocsTask]
  {
    RefactorTaskMade();
    DocsTaskMade();
    ColumnExamples([RefactorCard]);
    ColumnExamples([DocsCard]);
    TwoCardBoard(ExampleBoard[0], ExampleBoard[1], DoneKeywords, RefactorTask, DocsTask);
    assert ExampleBoard == [ExampleBoard[0], ExampleBoard[1]];
  }

  lemma ExampleTotal()
    ensures TotalPoints([DocsTask] + [RefactorTask]) == 9.0
  {
    var tasks := [DocsTask] + [RefactorTask];
    assert tasks[..1] == [DocsTask];
    assert tasks[..1][..0] == [];
    assert TotalPoints(tasks[..1]) == 1.0;
  }

  lemma ExampleActual()
    ensures ActualSeries(9.0, [RefactorTask], CourseStart, 5) == [9.0, 9.0, 9.0, 1.0, 1.0]
  {
    var done := [RefactorTask];
    assert Offset(RefactorTask, CourseStart) == 3;
    assert done[..0] == [];
    var actual := ActualSeries(9.0, done, CourseStart, 5);
    forall i | 0 <= i < 5 ensures actual[i] == if i < 3 then 9.0 else 1.0 {
      assert PointsBetween(done, CourseStart, 0, i + 1) == if i < 3 then 0.0 else 8.0;
    }
  }

  lemma ExampleSplit()
    ensures Where([RefactorTask, DocsTask], false) == [DocsTask]
    ensures Where([RefactorTask, DocsTask], true) == [RefactorTask]
  {
    var tasks := [RefactorTask, DocsTask];
    assert tasks[..1] == [RefactorTask];
    assert tasks[..1][..0] == [];
    assert Where(tasks[..1], false) == [];
    assert Where(tasks[..1], true) == [RefactorTask];
  }

  /** The board splits into the 8-point task, done on day 3, and the 1-point
      task still to do; over five days the actual curve is 9, 9, 9, 1, 1. */
  lemma EndToEndExample()
    ensures BoardOk(ExampleBoard)
    ensures var tasks := BoardTasks(ExampleBoard, DoneKeywords);
            var todo := Where(tasks, false);
            var done := Where(tasks, true);
            && todo == [DocsTask]
            && done == [RefactorTask]
            && ActualSeries(TotalPoints(todo + done), done, CourseStart, 5) == [9.0, 9.0, 9.0, 1.0, 1.0]
  {
    ExampleBoardTasks();
    ExampleSplit();
    ExampleTotal();
    ExampleActual();
  }
}
