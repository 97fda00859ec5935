/** The conversation's value types: roles, attachments, citation sources and
    messages, as declared in types.ts, plus the small Option/Result wrappers
    used for the optional fields and for the service's outcome. */
module Types {

  /** An optional value; `None` stands for a field left `undefined`. */
  datatype Option<+T> = None | Some(value: T)

  /** Outcome of a call that either yields a value or fails. The controller
      treats every failure alike, so a failure carries nothing. */
  datatype Result<+T> = Success(value: T) | Failure

  /** Exactly two roles: the person asking and the model answering. */
  datatype Role = USER | MODEL

  /** A picked file: its MIME type and its data-URL text, which may start
      with a `data:<type>;base64,` header. */
  datatype Attachment = Attachment(mimeType: string, data: string)

  /** A web citation attached to a model answer; `uri` is its identity. */
  datatype GroundingSource = GroundingSource(title: string, uri: string)

  /** Message identifiers are opaque; the screens derive them from the clock. */
  type MessageId = string

  /** One conversation turn. `isError == false` stands for the optional flag
      being absent; `groundingSources == None` for the optional list being absent. */
  datatype Message = Message(
    id: MessageId,
    role: Role,
    text: string,
    attachment: Option<Attachment>,
    isError: bool,
    groundingSources: Option<seq<GroundingSource>>)

  /** The identifiers in use in a message list. */
  function Ids(ms: seq<Message>): set<MessageId>
  {
    set m | m in ms :: m.id
  }
}
