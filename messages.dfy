/**
 * The data the exporter reads from the chat database, reduced to what the
 * rendering and chaptering logic looks at.
 */
module Messages {

  /** One decoded piece of a message body (`BubbleType`): text, an attachment, or anything else. */
  datatype Segment = Text(text: string) | Attachment | Other

  /** The calendar month of a message in local time; its `ch-%Y-%m` name picks the chapter. */
  datatype ChapterKey = ChapterKey(year: int, month: int)

  /**
   * A message row as the exporter sees it. The classification methods of the
   * database library (`is_reaction`, `is_announcement`, `is_shareplay`), the
   * outcome of `gen_text` and the segments of `body()` are recorded as they
   * came out; `date` is the `%B %e, %Y` rendering of its local date.
   */
  datatype Message = Message(
    chatId: int,
    key: ChapterKey,
    date: string,
    isFromMe: bool,
    isReaction: bool,
    isAnnouncement: bool,
    isSharePlay: bool,
    generated: bool,
    parts: seq<Segment>)

  /** A conversation row: its rowid and its `chat_identifier` (a phone number or handle). */
  datatype Chat = Chat(rowid: int, chatIdentifier: string)

  /** Calendar order of months. */
  predicate KeyLe(a: ChapterKey, b: ChapterKey) {
    a.year < b.year || (a.year == b.year && a.month <= b.month)
  }

  /** Messages in date order have non-decreasing months. */
  predicate Chronological(msgs: seq<Message>) {
    forall i, j :: 0 <= i < j < |msgs| ==> KeyLe(msgs[i].key, msgs[j].key)
  }
}
