/** What the service adapter hands to the model provider: the settled
    history in the provider's role/parts schema and the parts of the new
    turn (services/geminiService.ts). */
module Wire {
  import opened Types
  import JsText

  /** One piece of a turn: plain text, or a file sent inline. */
  datatype Part = TextPart(text: string) | InlineData(mimeType: string, data: string)

  /** One turn of provider history: its role tag and its parts. */
  datatype Content = Content(role: string, parts: seq<Part>)

  /** The request opening a chat: prior history and the new turn's parts.
      The model name, system instruction and generation settings are fixed
      by the adapter and are not part of this model. */
  datatype Request = Request(history: seq<Content>, message: seq<Part>)

  const UserTag: string := "user"
  const ModelTag: string := "model"

  /** `field` is the text between the first comma of `data` and the next
      comma or the end of `data`. */
  predicate FieldAfterFirstComma(data: string, field: string)
  {
    exists k ::
      && 0 <= k < |data| && data[k] == ',' && ',' !in data[..k]
      && k + 1 + |field| <= |data| && data[k + 1 .. k + 1 + |field|] == field
      && (k + 1 + |field| == |data| || data[k + 1 + |field|] == ',')
  }

  /** `data.split(',')[1] || data`: the field after the first comma when it
      exists and is non-empty, otherwise the data unchanged. Which of the
      two applies is settled by `StripWithoutComma`, `StripFirstField` and
      `StripEmptySecondField`, which between them cover every input. */
  function StripDataUrlPrefix(data: string): (payload: string)
    ensures payload == data || (payload != "" && ',' !in payload && FieldAfterFirstComma(data, payload))
  {
    var fields := JsText.Split(data, ',');
    if |fields| > 1 && fields[1] != "" then
      JsText.SecondFieldPosition(data, ',');
      var k := |fields[0]|;
      assert data[k] == ',' && ',' !in data[..k];
      fields[1]
    else data
  }

  /** A `data:<type>;base64,<payload>` URL yields its payload. */
  lemma StripDataUrl(header: string, payload: string)
    requires ',' !in header && ',' !in payload && payload != ""
    ensures StripDataUrlPrefix(header + "," + payload) == payload
  {
    JsText.SplitJoin([header, payload], ',');
    assert JsText.Join([header, payload], ',') == header + "," + payload;
  }

  /** The example the adapter is written for. */
  lemma StripPngDataUrl()
    ensures StripDataUrlPrefix("data:image/png;base64,iVBORw0KGgo=") == "iVBORw0KGgo="
  {
    var header, payload := "data:image/png;base64", "iVBORw0KGgo=";
    assert header + "," + payload == "data:image/png;base64,iVBORw0KGgo=";
    StripDataUrl(header, payload);
  }

  /** Data without a comma is already bare and passes through. */
  lemma StripWithoutComma(data: string)
    requires ',' !in data
    ensures StripDataUrlPrefix(data) == data
  {
    JsText.SplitWithoutSeparator(data, ',');
  }

  /** Data with several commas: the field between the first and the
      second comma is the payload, whatever follows. */
  lemma StripFirstField(h: string, p: string, t: string)
    requires ',' !in h && ',' !in p && p != ""
    requires t == "" || t[0] == ','
    ensures StripDataUrlPrefix(h + "," + p + t) == p
  {
    var data := h + "," + p + t;
    JsText.SplitAfterHead(p, t, ',');
    assert JsText.Split(t, ',')[0] == "";
    assert JsText.Split(p + t, ',')[0] == p;
    assert ("," + (p + t))[1..] == p + t;
    assert JsText.Split("," + (p + t), ',') == [""] + JsText.Split(p + t, ',');
    JsText.SplitAfterHead(h, "," + (p + t), ',');
    assert data == h + ("," + (p + t));
    assert JsText.Split(data, ',')[1] == p;
  }

  /** An empty field after the first comma (`"abc,"`, `"a,,b"`) is falsy,
      so the data passes through. */
  lemma StripEmptySecondField(header: string, rest: string)
    requires ',' !in header
    requires rest == "" || rest[0] == ','
    ensures StripDataUrlPrefix(header + "," + rest) == header + "," + rest
  {
    var fields := JsText.Split(rest, ',');
    JsText.SplitAfterHead(header, "," + rest, ',');
    assert ("," + rest)[1..] == rest;
    assert JsText.Split("," + rest, ',') == [""] + fields;
    assert fields[0] == "";
    assert header + "," + rest == header + ("," + rest);
    assert JsText.Split(header + "," + rest, ',') == [header + ""] + fields;
  }

  /** Stripping twice is stripping once. */
  lemma StripIdempotent(data: string)
    ensures StripDataUrlPrefix(StripDataUrlPrefix(data)) == StripDataUrlPrefix(data)
  {
    var once := StripDataUrlPrefix(data);
    if once != data {
      StripWithoutComma(once);
    }
  }

  /** The provider role tag of a local role. */
  function RoleTag(role: Role): (tag: string)
    ensures tag == UserTag <==> role == USER
    ensures tag == ModelTag <==> role == MODEL
  {
    assert UserTag[0] != ModelTag[0];
    match role
    case USER => UserTag
    case MODEL => ModelTag
  }

  /** The inline part carrying an attachment, prefix stripped. */
  function InlinePart(a: Attachment): (p: Part)
    ensures p.InlineData? && p.mimeType == a.mimeType
    ensures p.data == StripDataUrlPrefix(a.data)
    ensures ',' !in p.data || p.data == a.data
  {
    InlineData(a.mimeType, StripDataUrlPrefix(a.data))
  }

  /** One message in the provider's schema: a text part exactly when the
      text is non-empty, then an inline part exactly when a USER message
      carries an attachment (a MODEL message's attachment is not sent). */
  function FormatMessage(m: Message): (c: Content)
    ensures c.role == RoleTag(m.role)
    ensures |c.parts| == (if m.text != "" then 1 else 0) + (if m.role == USER && m.attachment.Some? then 1 else 0)
    ensures TextPart(m.text) in c.parts <==> m.text != ""
    ensures m.text != "" ==> c.parts[0] == TextPart(m.text)
    ensures (exists p :: p in c.parts && p.InlineData?) <==> (m.role == USER && m.attachment.Some?)
    ensures m.role == USER && m.attachment.Some? ==> c.parts[|c.parts| - 1] == InlinePart(m.attachment.value)
    ensures forall p :: p in c.parts ==> p == TextPart(m.text) || p.InlineData?
  {
    var textParts := if m.text != "" then [TextPart(m.text)] else [];
    var inlineParts := if m.role == USER && m.attachment.Some? then [InlinePart(m.attachment.value)] else [];
    Content(RoleTag(m.role), textParts + inlineParts)
  }

  /** `formatHistory`: message by message, same length, same order. */
  function FormatHistory(ms: seq<Message>): (h: seq<Content>)
    ensures |h| == |ms|
    ensures forall i :: 0 <= i < |ms| ==> h[i] == FormatMessage(ms[i])
  {
    seq(|ms|, i requires 0 <= i < |ms| => FormatMessage(ms[i]))
  }

  /** Formatting distributes over concatenation of histories. */
  lemma {:induction false} FormatHistoryAppend(a: seq<Message>, b: seq<Message>)
    ensures FormatHistory(a + b) == FormatHistory(a) + FormatHistory(b)
  {
    var l, r := FormatHistory(a + b), FormatHistory(a) + FormatHistory(b);
    forall i | 0 <= i < |a + b|
      ensures l[i] == r[i]
    {
      if i < |a| {
        assert (a + b)[i] == a[i];
      } else {
        assert (a + b)[i] == b[i - |a|];
      }
    }
  }

  /** The new turn's parts: the inline part first when a file is attached,
      then the text part, which is present even for empty text. */
  function TurnParts(text: string, attachment: Option<Attachment>): (parts: seq<Part>)
    ensures |parts| == if attachment.Some? then 2 else 1
    ensures parts[|parts| - 1] == TextPart(text)
    ensures attachment.Some? ==> parts[0] == InlinePart(attachment.value)
  {
    if attachment.Some? then [InlinePart(attachment.value), TextPart(text)]
    else [TextPart(text)]
  }

  /** The same USER turn is encoded differently as the new turn and, once
      settled, as history: with text, its two parts swap order (inline
      first now, text first later); with empty text, the text part is sent
      now and dropped later. */
  lemma TurnThenHistory(id: MessageId, text: string, a: Attachment)
    ensures var later := FormatMessage(Message(id, USER, text, Some(a), false, None)).parts;
            var now := TurnParts(text, Some(a));
            && (text != "" ==> later == [now[1], now[0]])
            && (text == "" ==> later == [now[0]] && now[1] == TextPart(""))
  {
  }

  /** The request for a turn: the settled history, formatted, and the new
      turn's parts. */
  function BuildRequest(text: string, history: seq<Message>, attachment: Option<Attachment>): (req: Request)
    ensures |req.history| == |history|
    ensures forall i :: 0 <= i < |history| ==> req.history[i] == FormatMessage(history[i])
    ensures req.message == (if attachment.Some? then [InlineData(attachment.value.mimeType, StripDataUrlPrefix(attachment.value.data))] else [])
                           + [TextPart(text)]
  {
    Request(FormatHistory(history), TurnParts(text, attachment))
  }
}
