/** The text helpers of the report (burndown.py:72-79). */
module Report {
  import opened Common
  import opened Cards

  /** heading: the text, then an underline of `=` as long as the text, each
      followed by a newline. */
  function Heading(text: string): (r: string)
    ensures |r| == 2 * |text| + 2
    ensures r[..|text|] == text && r[|text|] == '\n' && r[|r| - 1] == '\n'
    ensures forall i :: |text| < i < |r| - 1 ==> r[i] == '='
  {
    text + "\n" + seq(|text|, _ => '=') + "\n"
  }

  /** fmt_task: the status, the title, the completion date (empty while the
      task is to do) and the points followed by `p`. How a date and a number
      are rendered is passed in. */
  function FmtTask(task: Task, showDate: Instant -> string, showPoints: real -> string): (r: string)
    ensures |r| > 5 + |task.title|
    ensures r[..5] == (if task.doneAt.Some? then "DONE " else "TODO ")
    ensures r[5..5 + |task.title|] == task.title
    ensures r[|r| - 1] == 'p'
    ensures var pts := showPoints(task.storyPoints);
              |r| > |pts| + 1 && r[|r| - 1 - |pts|..|r| - 1] == pts && r[|r| - 2 - |pts|] == ' '
    ensures task.doneAt.Some? ==>
              var date := " Done: " + showDate(task.doneAt.value) + " ";
              |r| == 6 + |task.title| + |date| + |showPoints(task.storyPoints)|
              && r[5 + |task.title|..5 + |task.title| + |date|] == date
    ensures task.doneAt.None? ==>
              |r| == 8 + |task.title| + |showPoints(task.storyPoints)|
              && r[5 + |task.title|..7 + |task.title|] == "  "
  {
    var status := if task.doneAt.None? then "TODO" else "DONE";
    var date := match task.doneAt case Some(t) => "Done: " + showDate(t) case None => "";
    var pts := showPoints(task.storyPoints);
    LineLayout(status, task.title, " " + date + " ", pts);
    assert status + " " + task.title + " " + date + " " + pts + "p"
        == status + " " + task.title + (" " + date + " ") + pts + "p";
    match task.doneAt
    case Some(t) =>
      assert " " + date + " " == " Done: " + showDate(t) + " ";
      status + " " + task.title + " " + date + " " + pts + "p"
    case None =>
      assert " " + date + " " == "  ";
      status + " " + task.title + " " + date + " " + pts + "p"
  }

  /** Where each part of `status title<middle>pointsp` stands. */
  lemma LineLayout(status: string, title: string, middle: string, pts: string)
    requires |status| == 4 && |middle| > 0 && middle[|middle| - 1] == ' '
    ensures var r := status + " " + title + middle + pts + "p";
      && |r| == 6 + |title| + |middle| + |pts|
      && r[..5] == status + " "
      && r[5..5 + |title|] == title
      && r[5 + |title|..5 + |title| + |middle|] == middle
      && r[|r| - 1 - |pts|..|r| - 1] == pts
      && r[|r| - 2 - |pts|] == ' '
      && r[|r| - 1] == 'p'
  {
    var r := status + " " + title + middle + pts + "p";
    assert r == (status + " ") + title + middle + pts + "p";
    assert r[..5] == status + " ";
    assert r[5..5 + |title|] == title;
    assert r[5 + |title|..5 + |title| + |middle|] == middle;
    assert r[|r| - 1 - |pts|..|r| - 1] == pts;
  }
}
