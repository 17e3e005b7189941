/** A fetched message as the harvesting cycle sees it once the IMAP session
    and the MIME parser have done their work. */
module Mail {
  import opened Types

  /** One part of a parsed body: inline content, or an attachment with the
      filename its header declares (if any) and its bytes (absent when
      reading the part failed). */
  datatype Part =
    | Inline
    | Attachment(filename: Option<string>, payload: Option<Bytes>)

  /** No body section was returned, the body could not be parsed, or the
      parts the parser delivered, in MIME order. */
  datatype Body = Missing | Unparseable | Parsed(parts: seq<Part>)

  /** The envelope: the raw subject, the message date already rendered in the
      two layouts the naming template offers, and the recipient lists, each
      entry being an address rendered as `mailbox@host` or None for a nil
      entry. */
  datatype Envelope = Envelope(
    subject: string,
    date: string,
    dateTime: string,
    to: seq<Option<string>>,
    cc: seq<Option<string>>,
    bcc: seq<Option<string>>)

  datatype Message = Message(uid: Uid, envelope: Option<Envelope>, body: Body)
}
