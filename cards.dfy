/** Normalising one board card into a task (burndown.py:23-25, 43-69). */
module Cards {
  import opened Common
  import opened Text
  import opened Points

  /** The issue or pull request a card links to. */
  datatype Content = Content(title: string, closedAt: Option<Instant>)

  /** A project card. A card without a note has the empty string as its note
      (the API's missing note and an empty note are both falsy to the code). */
  datatype Card = Card(note: string, content: Option<Content>, updatedAt: Instant)

  /** A task: when it was done (None while it is still to do), its title and
      its story points. */
  datatype Task = Task(doneAt: Option<Instant>, title: string, storyPoints: real)

  /** card_title: the note without trailing whitespace when there is a note,
      otherwise the linked content's title; a card with neither fails. */
  function CardTitle(card: Card): (r: Result<string>)
    ensures r.Err? <==> card.note == [] && card.content.None?
    ensures r.Err? ==> r.error == MissingContent
    ensures r.Ok? && card.note != [] ==>
              |r.value| <= |card.note| && r.value == card.note[..|r.value|]
              && (r.value == [] || !IsSpace(r.value[|r.value| - 1]))
              && forall i :: |r.value| <= i < |card.note| ==> IsSpace(card.note[i])
    ensures r.Ok? && card.note == [] ==> r.value == card.content.value.title
  {
    if card.note != [] then Ok(RStrip(card.note))
    else match card.content
      case Some(c) => Ok(c.title)
      case None => Err(MissingContent)
  }

  /** card_closed_date: the close time of closed linked content, otherwise the
      time of the card's last update. */
  function CardClosedDate(card: Card): (t: Instant)
    ensures card.content.Some? && card.content.value.closedAt.Some? ==> t == card.content.value.closedAt.value
    ensures card.content.None? || card.content.value.closedAt.None? ==> t == card.updatedAt
  {
    match card.content
    case Some(Content(_, Some(closed))) => closed
    case _ => card.updatedAt
  }

  /** card_story_points: the points read from the card's title. */
  function CardStoryPoints(card: Card): (r: Result<real>)
    ensures r.Ok? <==> CardTitle(card).Ok?
    ensures r.Ok? ==> r.value >= 0.0
  {
    match CardTitle(card)
    case Ok(title) => Ok(TitlePoints(title))
    case Err(e) => Err(e)
  }

  /** The Task record built for a card of a done column (`inDone`) or of any
      other column. */
  function MakeTask(card: Card, inDone: bool): (r: Result<Task>)
    ensures r.Ok? <==> CardTitle(card).Ok?
    ensures r.Ok? ==> r.value.title == CardTitle(card).value
    ensures r.Ok? ==> r.value.storyPoints == CardStoryPoints(card).value
    ensures r.Ok? ==> r.value.doneAt == (if inDone then Some(CardClosedDate(card)) else None)
  {
    match CardTitle(card)
    case Ok(title) =>
      Ok(Task(if inDone then Some(CardClosedDate(card)) else None, title, CardStoryPoints(card).value))
    case Err(e) => Err(e)
  }

  /** A note made only of whitespace is still a note: the title becomes empty
      instead of falling back to the linked content. */
  lemma BlankNoteGivesEmptyTitle(card: Card)
    requires card.note != [] && All(card.note, IsSpace)
    ensures CardTitle(card) == Ok([])
  {
  }
}
