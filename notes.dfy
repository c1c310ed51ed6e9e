/** Rows of the `note` table and the documents sent to the search index. */
module Notes {
  import opened Results
  import opened Aid

  datatype Visibility = Public | Home | Followers | Specified

  /** A row of the `note` table, with the columns the synchroniser reads. */
  datatype Row = Row(
    id: string,
    userId: string,
    userHost: Option<string>,   // None: a local user
    channelId: Option<string>,
    cw: Option<string>,
    text: Option<string>,
    tags: seq<string>,
    visibility: Visibility)

  /** The document shape the index stores, keyed by `id`. */
  datatype Document = Document(
    id: string,
    text: Option<string>,
    createdAt: int,
    userId: string,
    userHost: Option<string>,
    channelId: Option<string>,
    cw: Option<string>,
    tags: seq<string>)

  /** `format_note`: the row's fields and the creation time decoded from its id. */
  function FormatNote(note: Row): Result<Document, AidError> {
    match ParseAid(note.id)
    case Failure(e) => Failure(e)
    case Success(t) =>
      Success(Document(note.id, note.text, t, note.userId, note.userHost,
                       note.channelId, note.cw, note.tags))
  }

  /** Formatting fails exactly when the id does not decode, with the same
      error; otherwise every field is copied verbatim and createdAt is the
      decoded time. */
  lemma FormatNoteFields(note: Row)
    ensures FormatNote(note).Failure? <==> ParseAid(note.id).Failure?
    ensures FormatNote(note).Failure? ==> FormatNote(note).error == ParseAid(note.id).error
    ensures FormatNote(note).Success? ==>
      var d := FormatNote(note).value;
      && d.id == note.id
      && d.text == note.text
      && d.createdAt == ParseAid(note.id).value
      && d.userId == note.userId
      && d.userHost == note.userHost
      && d.channelId == note.channelId
      && d.cw == note.cw
      && d.tags == note.tags
  {
  }

  /** A note whose id was minted at time `t` is indexed with createdAt `t`. */
  lemma FormatNoteCreatedAt(note: Row, t: int, rest: string)
    requires Time2000 <= t < Time2000 + Pow36(TimeWidth)
    requires note.id == AidTimePrefix(t) + rest
    ensures FormatNote(note).Success? && FormatNote(note).value.createdAt == t
  {
    ParseAidRoundTrip(t, rest);
    FormatNoteFields(note);
  }

  /** `[format_note(note) for note in fetched_notes]`. */
  function FormatAll(notes: seq<Row>): Result<seq<Document>, AidError> {
    MapAll(FormatNote, notes)
  }

  /** A batch formats exactly when every id in it decodes. Each document
      keeps its note's id and carries the decoded time. Otherwise the error
      is the literal of the first id that does not decode. */
  lemma FormatAllSpec(notes: seq<Row>)
    ensures FormatAll(notes).Success? <==>
      forall i :: 0 <= i < |notes| ==> ParseAid(notes[i].id).Success?
    ensures FormatAll(notes).Success? ==>
      var docs := FormatAll(notes).value;
      && |docs| == |notes|
      && forall i :: 0 <= i < |notes| ==>
           docs[i].id == notes[i].id && docs[i].createdAt == ParseAid(notes[i].id).value
    ensures FormatAll(notes).Failure? ==>
      exists i :: 0 <= i < |notes| && ParseAid(notes[i].id).Failure? &&
        FormatAll(notes).error == InvalidLiteral(TimePrefix(notes[i].id)) &&
        forall j :: 0 <= j < i ==> ParseAid(notes[j].id).Success?
  {
    forall i | 0 <= i < |notes| {
      FormatNoteFields(notes[i]);
    }
  }
}
