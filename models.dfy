/**
 * The records the note processor passes around: topic and note entries as plain
 * values, the database rows it reads and writes, and what a call into the
 * language model or another collaborator gave back.
 */
module Models {
  /** A topic as held in the in-memory topics dictionary: `{'name', 'description'}`. */
  datatype TopicData = TopicData(name: string, description: string)

  /** A generated note as returned to the caller: `{'name', 'content', 'format'}`. */
  datatype NoteData = NoteData(name: string, content: string, format: string)

  /** A row of the `topic` table: its primary key, the external topic id, name and description. */
  datatype TopicRow = TopicRow(pk: int, topicId: string, name: string, description: string)

  /** A row of the `note` table, keyed by the primary key of its topic and its format. */
  datatype NoteRow = NoteRow(topicPk: int, format: string, content: string)

  /** What a collaborator call produced: a string, or an exception with its message. */
  datatype Reply = Text(text: string) | Raised(message: string)
}
