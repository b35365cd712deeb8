/** A note record of the notes service and the outcomes its handlers report. */
module Notes {

  /** The ISO-8601 text of a wall-clock reading; the clock itself is a caller-supplied parameter. */
  type Timestamp = string

  /** One note, keyed in the store by its filename. */
  datatype Note = Note(
    filename: string,
    subject: string,
    otherInfo: string,
    content: string,
    timestamp: Timestamp)

  /** What a handler reports: the note it produced, or one of the two rejections. */
  datatype Outcome = Ok(note: Note) | Conflict | NotFound

  /** A fresh note carrying the four inputs unchanged, stamped with the current time `now`. */
  function CreateTimestampedNote(filename: string, subject: string, otherInfo: string,
                                 content: string, now: Timestamp): (n: Note)
    ensures n.filename == filename && n.subject == subject && n.otherInfo == otherInfo
    ensures n.content == content && n.timestamp == now
  {
    Note(filename, subject, otherInfo, content, now)
  }

  /** The note after an update: new body and new timestamp, everything else kept. */
  function Revised(n: Note, content: string, now: Timestamp): (m: Note)
    ensures m.content == content && m.timestamp == now
    ensures m.filename == n.filename && m.subject == n.subject && m.otherInfo == n.otherInfo
    ensures m == n <==> n.content == content && n.timestamp == now
  {
    n.(content := content, timestamp := now)
  }

  /** The HTTP status each outcome stands for: 200 for success, 400 for a conflict, 404 for a missing note. */
  function StatusCode(o: Outcome): (code: int)
    ensures code == 200 <==> o.Ok?
    ensures code == 400 <==> o.Conflict?
    ensures code == 404 <==> o.NotFound?
  {
    match o
    case Ok(_) => 200
    case Conflict => 400
    case NotFound => 404
  }
}
