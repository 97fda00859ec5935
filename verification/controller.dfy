/** The chat screen's conversation controller (App.tsx and its near twin
    components/LegalAI.tsx): a state record of messages, input text, the
    pending attachment and the loading flag, with one function per
    transition. The asynchronous send handler is split into its
    synchronous start (`Send`), the per-delta callback (`ReceiveChunk`),
    the failure branch (`FailExchange`) and the `finally` (`Settle`). */
module Controller {
  import opened Types
  import JsText
  import Wire
  import Stream

  datatype State = State(
    messages: seq<Message>,
    input: string,
    attachment: Option<Attachment>,
    loading: bool)

  /** The screen's state when it first renders. */
  const Initial: State := State([], "", None, false)

  /** What a started send hands to the service adapter: the placeholder to
      stream into, the user's text and attachment, and the history as it
      was before the send. */
  datatype Exchange = Exchange(
    placeholderId: MessageId,
    text: string,
    history: seq<Message>,
    attachment: Option<Attachment>)

  /** A transition's new state and, for a send that went ahead, its exchange. */
  datatype Step = Step(state: State, exchange: Option<Exchange>)

  /** A file the picker produced: its MIME type and the reader's data URL. */
  datatype PickedFile = PickedFile(mimeType: string, dataUrl: string)

  /** The two ways the controller rewrites the placeholder. */
  datatype Edit = AppendText(delta: string) | ReplaceWithError(errorText: string)

  /** The send guard: some non-blank text or a pending attachment, and no
      exchange in flight. `!text.trim()` is `IsBlank(text)` by
      `JsText.TrimEmptyIffBlank`. */
  predicate CanSend(s: State, text: string)
  {
    !(JsText.IsBlank(text) && s.attachment.None?) && !s.loading
  }

  function UserMessage(id: MessageId, text: string, attachment: Option<Attachment>): Message
  {
    Message(id, USER, text, attachment, false, None)
  }

  function Placeholder(id: MessageId): Message
  {
    Message(id, MODEL, "", None, false, None)
  }

  /** The start of `handleSendMessage`. When the guard fails nothing
      changes. Otherwise exactly two messages are appended, the USER
      message with the raw, untrimmed text and the pending attachment, then
      an empty MODEL placeholder; the input and attachment are cleared,
      loading is set, and the exchange carries the history before the
      append. */
  function Send(s: State, text: string, userId: MessageId, modelId: MessageId): (r: Step)
    ensures !CanSend(s, text) ==> r == Step(s, None)
    ensures CanSend(s, text) ==>
              && r.state.messages == s.messages + [UserMessage(userId, text, s.attachment), Placeholder(modelId)]
              && r.state.input == "" && r.state.attachment.None? && r.state.loading
              && r.exchange == Some(Exchange(modelId, text, s.messages, s.attachment))
  {
    if !CanSend(s, text) then Step(s, None)
    else
      var user := UserMessage(userId, text, s.attachment);
      Step(State(s.messages + [user, Placeholder(modelId)], "", None, true),
           Some(Exchange(modelId, text, s.messages, s.attachment)))
  }

  /** The request the adapter builds for an exchange. */
  function RequestOf(ex: Exchange): Wire.Request
  {
    Wire.BuildRequest(ex.text, ex.history, ex.attachment)
  }

  /** A message after an edit: `{ ...msg, text: msg.text + chunk }` or
      `{ ...msg, text: errorText, isError: true }`. */
  function ApplyEdit(m: Message, e: Edit): (m': Message)
    ensures m'.id == m.id && m'.role == m.role && m'.attachment == m.attachment
    ensures m'.groundingSources == m.groundingSources
    ensures e.AppendText? ==> m'.text == m.text + e.delta && m'.isError == m.isError
    ensures e.ReplaceWithError? ==> m'.text == e.errorText && m'.isError
  {
    match e
    case AppendText(d) => m.(text := m.text + d)
    case ReplaceWithError(t) => m.(text := t, isError := true)
  }

  /** `prev.map(msg => msg.id === id ? edit(msg) : msg)`: same length, same
      order, same ids; only the messages carrying `id` are edited. */
  function UpdateById(ms: seq<Message>, id: MessageId, e: Edit): (r: seq<Message>)
    ensures |r| == |ms|
    ensures forall i :: 0 <= i < |ms| ==> r[i].id == ms[i].id
    ensures forall i :: 0 <= i < |ms| && ms[i].id != id ==> r[i] == ms[i]
    ensures forall i :: 0 <= i < |ms| && ms[i].id == id ==> r[i] == ApplyEdit(ms[i], e)
  {
    seq(|ms|, i requires 0 <= i < |ms| => if ms[i].id == id then ApplyEdit(ms[i], e) else ms[i])
  }

  /** A list without the id, such as the one left by a clear, is untouched. */
  lemma UpdateMissingId(ms: seq<Message>, id: MessageId, e: Edit)
    requires id !in Ids(ms)
    ensures UpdateById(ms, id, e) == ms
  {
    forall i | 0 <= i < |ms|
      ensures ms[i].id != id
    {
      assert ms[i] in ms;
    }
  }

  /** Two appends to the same id are one append of both deltas. */
  lemma UpdateAppendTwice(ms: seq<Message>, id: MessageId, a: string, b: string)
    ensures UpdateById(UpdateById(ms, id, AppendText(a)), id, AppendText(b)) == UpdateById(ms, id, AppendText(a + b))
  {
    var l, r := UpdateById(UpdateById(ms, id, AppendText(a)), id, AppendText(b)), UpdateById(ms, id, AppendText(a + b));
    forall i | 0 <= i < |ms|
      ensures l[i] == r[i]
    {
      if ms[i].id == id {
        assert ms[i].text + a + b == ms[i].text + (a + b);
      }
    }
  }

  /** When only the last message carries the id, an update edits the last
      message and keeps the rest of the list. */
  lemma UpdateLast(ms: seq<Message>, m: Message, e: Edit)
    requires m.id !in Ids(ms)
    ensures UpdateById(ms + [m], m.id, e) == ms + [ApplyEdit(m, e)]
  {
    forall i | 0 <= i < |ms|
      ensures ms[i].id != m.id
    {
      assert ms[i] in ms;
    }
  }

  /** The chunk callback: append the delta to the placeholder. */
  function ReceiveChunk(s: State, id: MessageId, delta: string): (r: State)
    ensures r.input == s.input && r.attachment == s.attachment && r.loading == s.loading
    ensures |r.messages| == |s.messages|
    ensures forall i :: 0 <= i < |s.messages| && s.messages[i].id != id ==> r.messages[i] == s.messages[i]
    ensures forall i :: 0 <= i < |s.messages| && s.messages[i].id == id ==>
              r.messages[i] == s.messages[i].(text := s.messages[i].text + delta)
  {
    s.(messages := UpdateById(s.messages, id, AppendText(delta)))
  }

  /** The callbacks for a whole list of deltas, in order. */
  function ReceiveAll(s: State, id: MessageId, ds: seq<string>): State
    decreases |ds|
  {
    if ds == [] then s else ReceiveChunk(ReceiveAll(s, id, ds[..|ds| - 1]), id, ds[|ds| - 1])
  }

  /** Deltas applied in order append their concatenation to the
      placeholder; nothing else changes. */
  lemma {:induction false} ReceiveAllAppendsConcat(s: State, id: MessageId, ds: seq<string>)
    ensures ReceiveAll(s, id, ds) == s.(messages := UpdateById(s.messages, id, AppendText(Stream.Concat(ds))))
    decreases |ds|
  {
    if ds == [] {
      var r := UpdateById(s.messages, id, AppendText(""));
      forall i | 0 <= i < |s.messages|
        ensures r[i] == s.messages[i]
      {
        assert s.messages[i].text + "" == s.messages[i].text;
      }
    } else {
      var init := ds[..|ds| - 1];
      ReceiveAllAppendsConcat(s, id, init);
      UpdateAppendTwice(s.messages, id, Stream.Concat(init), ds[|ds| - 1]);
    }
  }

  /** The `catch` branch: the placeholder's text is replaced, not extended,
      by the fixed error text and it is flagged as an error. */
  function FailExchange(s: State, id: MessageId, errorText: string): (r: State)
    ensures r.input == s.input && r.attachment == s.attachment && r.loading == s.loading
    ensures |r.messages| == |s.messages|
    ensures forall i :: 0 <= i < |s.messages| && s.messages[i].id != id ==> r.messages[i] == s.messages[i]
    ensures forall i :: 0 <= i < |s.messages| && s.messages[i].id == id ==>
              r.messages[i] == s.messages[i].(text := errorText, isError := true)
  {
    s.(messages := UpdateById(s.messages, id, ReplaceWithError(errorText)))
  }

  /** The `finally`: loading ends, whatever else happened. */
  function Settle(s: State): (r: State)
    ensures !r.loading
    ensures r.messages == s.messages && r.input == s.input && r.attachment == s.attachment
  {
    s.(loading := false)
  }

  /** `handleClearChat`: no messages, no attachment, empty input; an
      exchange in flight keeps the screen loading. */
  function Clear(s: State): (r: State)
    ensures r.messages == [] && r.attachment.None? && r.input == ""
    ensures r.loading == s.loading
  {
    State([], "", None, s.loading)
  }

  /** The `setAttachment` effect of `handleFileUpload`: a picked file
      replaces any pending attachment; no file changes nothing. */
  function UploadFile(s: State, picked: Option<PickedFile>): (r: State)
    ensures picked.None? ==> r == s
    ensures picked.Some? ==> r.attachment == Some(Attachment(picked.value.mimeType, picked.value.dataUrl))
    ensures r.messages == s.messages && r.input == s.input && r.loading == s.loading
  {
    match picked
    case None => s
    case Some(f) => s.(attachment := Some(Attachment(f.mimeType, f.dataUrl)))
  }

  /** `removeAttachment`. */
  function RemoveAttachment(s: State): (r: State)
    ensures r.attachment.None?
    ensures r.messages == s.messages && r.input == s.input && r.loading == s.loading
  {
    s.(attachment := None)
  }

  /** An uploaded file reaches the request with its data URL prefix
      stripped, while the USER message keeps the full data URL. The
      upload alone makes the send go ahead, whatever the text. */
  lemma UploadThenSend(s: State, f: PickedFile, text: string, userId: MessageId, modelId: MessageId)
    requires !s.loading
    ensures var r := Send(UploadFile(s, Some(f)), text, userId, modelId);
            && r.exchange.Some?
            && RequestOf(r.exchange.value).message[0] == Wire.InlineData(f.mimeType, Wire.StripDataUrlPrefix(f.dataUrl))
            && r.state.messages[|s.messages|] == UserMessage(userId, text, Some(Attachment(f.mimeType, f.dataUrl)))
  {
  }

  /** Once the attachment is removed, text that trims to "" sends nothing,
      and any other text is sent as a single text part with no attachment
      on the USER message. */
  lemma RemoveThenSend(s: State, text: string, userId: MessageId, modelId: MessageId)
    ensures var r := Send(RemoveAttachment(s), text, userId, modelId);
            && (JsText.Trim(text) == "" ==> r == Step(RemoveAttachment(s), None))
            && (JsText.Trim(text) != "" && !s.loading ==>
                  && r.exchange.Some?
                  && RequestOf(r.exchange.value).message == [Wire.TextPart(text)]
                  && r.state.messages[|s.messages|].attachment.None?)
  {
    JsText.TrimEmptyIffBlank(text);
  }

  /** The textarea's `onChange`. */
  function Type(s: State, text: string): (r: State)
    ensures r.input == text
    ensures r.messages == s.messages && r.attachment == s.attachment && r.loading == s.loading
  {
    s.(input := text)
  }

  /** The placeholder as it stands when an exchange ends. */
  function Outcome(modelId: MessageId, deltas: seq<string>, succeeded: bool, errorText: string): Message
  {
    if succeeded then Placeholder(modelId).(text := Stream.Concat(deltas))
    else Placeholder(modelId).(text := errorText, isError := true)
  }

  /** Single flight: while an exchange is in flight a second send changes
      nothing, so the message count stays the same. */
  lemma SecondSendIgnored(s: State, text: string, userId: MessageId, modelId: MessageId,
                          text2: string, userId2: MessageId, modelId2: MessageId)
    requires CanSend(s, text)
    ensures var s1 := Send(s, text, userId, modelId).state;
            Send(s1, text2, userId2, modelId2) == Step(s1, None)
  {
  }

  /** The guard as the source writes it: `(!text.trim() && !attachment) ||
      isLoading` returns early, and `CanSend` holds exactly otherwise. */
  lemma SendGuard(s: State, text: string)
    ensures CanSend(s, text) <==> !((JsText.Trim(text) == "" && s.attachment.None?) || s.loading)
  {
    JsText.TrimEmptyIffBlank(text);
  }

  /** Text that trims to "" with no attachment never starts an exchange. */
  lemma BlankTextIgnored(s: State, text: string, userId: MessageId, modelId: MessageId)
    requires s.attachment.None? && JsText.Trim(text) == ""
    ensures Send(s, text, userId, modelId) == Step(s, None)
  {
    JsText.TrimEmptyIffBlank(text);
  }

  /** A whole exchange without interleaved user actions: send, the deltas
      in order, the failure branch if the stream broke, then `finally`.
      With fresh ids the list ends as the old list plus the USER message
      and the placeholder, whose text is the concatenated deltas on success
      and the error text on failure; no citation list is ever attached. */
  lemma {:induction false} ExchangeOutcome(s: State, text: string, userId: MessageId, modelId: MessageId,
                                           deltas: seq<string>, succeeded: bool, errorText: string)
    requires CanSend(s, text)
    requires userId != modelId && modelId !in Ids(s.messages)
    ensures var started := Send(s, text, userId, modelId).state;
            var streamed := ReceiveAll(started, modelId, deltas);
            var final := Settle(if succeeded then streamed else FailExchange(streamed, modelId, errorText));
            && final.messages == s.messages + [UserMessage(userId, text, s.attachment), Outcome(modelId, deltas, succeeded, errorText)]
            && final.input == "" && final.attachment.None? && !final.loading
  {
    var user := UserMessage(userId, text, s.attachment);
    var before := s.messages + [user];
    SendStarts(s, text, userId, modelId);
    IdsAppend(s.messages, user);
    StreamIntoPlaceholder(before, modelId, deltas, succeeded, errorText);
    var done := Outcome(modelId, deltas, succeeded, errorText);
    var started := Send(s, text, userId, modelId).state;
    var streamed := ReceiveAll(started, modelId, deltas);
    var final := Settle(if succeeded then streamed else FailExchange(streamed, modelId, errorText));
    assert final == State(before + [done], "", None, false);
    assert before + [done] == s.messages + [user, done];
  }

  /** The state right after a send that went ahead. */
  lemma SendStarts(s: State, text: string, userId: MessageId, modelId: MessageId)
    requires CanSend(s, text)
    ensures Send(s, text, userId, modelId).state
         == State((s.messages + [UserMessage(userId, text, s.attachment)]) + [Placeholder(modelId)], "", None, true)
  {
    assert (s.messages + [UserMessage(userId, text, s.attachment)]) + [Placeholder(modelId)]
        == s.messages + [UserMessage(userId, text, s.attachment), Placeholder(modelId)];
  }

  lemma IdsAppend(ms: seq<Message>, m: Message)
    ensures Ids(ms + [m]) == Ids(ms) + {m.id}
  {
    assert forall x :: x in ms + [m] <==> x in ms || x == m;
  }

  /** The part of an exchange after the send: deltas into the last message
      of the list, then the failure branch and `finally`. */
  lemma StreamIntoPlaceholder(before: seq<Message>, modelId: MessageId, deltas: seq<string>,
                              succeeded: bool, errorText: string)
    requires modelId !in Ids(before)
    ensures var streamed := ReceiveAll(State(before + [Placeholder(modelId)], "", None, true), modelId, deltas);
            var final := Settle(if succeeded then streamed else FailExchange(streamed, modelId, errorText));
            final == State(before + [Outcome(modelId, deltas, succeeded, errorText)], "", None, false)
  {
    var started := State(before + [Placeholder(modelId)], "", None, true);
    var all := Stream.Concat(deltas);
    var streamedMsg := Placeholder(modelId).(text := all);
    ReceiveAllAppendsConcat(started, modelId, deltas);
    UpdateLast(before, Placeholder(modelId), AppendText(all));
    assert ApplyEdit(Placeholder(modelId), AppendText(all)) == streamedMsg by {
      assert "" + all == all;
    }
    assert ReceiveAll(started, modelId, deltas) == State(before + [streamedMsg], "", None, true);
    if !succeeded {
      UpdateLast(before, streamedMsg, ReplaceWithError(errorText));
    }
  }

  /** Clearing mid-stream: later deltas, the failure branch and `finally`
      leave the list empty, and until `finally` the screen still refuses
      to send. */
  lemma {:induction false} ClearMidStream(s: State, id: MessageId, late: seq<string>, succeeded: bool, errorText: string)
    requires s.loading
    ensures var cleared := Clear(s);
            var streamed := ReceiveAll(cleared, id, late);
            var final := Settle(if succeeded then streamed else FailExchange(streamed, id, errorText));
            && streamed.loading
            && final.messages == [] && !final.loading
  {
    var cleared := Clear(s);
    ReceiveAllAppendsConcat(cleared, id, late);
  }

  /** A stale chunk for an id no longer in the list is a no-op. */
  lemma StaleChunkIgnored(s: State, id: MessageId, delta: string)
    requires id !in Ids(s.messages)
    ensures ReceiveChunk(s, id, delta) == s
  {
    UpdateMissingId(s.messages, id, AppendText(delta));
  }

  /** `handleSendMessage` end to end for a stream given as input, with the
      screen's error text: the adapter's request is built from the history
      before the send, every emitted delta reaches the placeholder in
      order, the adapter's reply is discarded, and `finally` clears loading. */
  method HandleSendMessage(s: State, text: string, userId: MessageId, modelId: MessageId,
                           stream: Stream.ResponseStream, errorText: string)
    returns (final: State, request: Option<Wire.Request>)
    requires userId != modelId && modelId !in Ids(s.messages)
    ensures !CanSend(s, text) ==> final == s && request.None?
    ensures CanSend(s, text) ==>
              && request == Some(Wire.BuildRequest(text, s.messages, s.attachment))
              && final.messages == s.messages + [UserMessage(userId, text, s.attachment),
                   Outcome(modelId, Stream.Deltas(stream.chunks), stream.end == Stream.Exhausted, errorText)]
              && final.input == "" && final.attachment.None? && !final.loading
  {
    var step := Send(s, text, userId, modelId);
    if step.exchange.None? {
      return s, None;
    }
    var ex := step.exchange.value;
    request := Some(RequestOf(ex));
    var outcome, emitted := Stream.ConsumeStream(stream);
    var current := step.state;
    var k := 0;
    while k < |emitted|
      invariant 0 <= k <= |emitted|
      invariant current == ReceiveAll(step.state, ex.placeholderId, emitted[..k])
    {
      assert emitted[..k + 1][..k] == emitted[..k];
      current := ReceiveChunk(current, ex.placeholderId, emitted[k]);
      k := k + 1;
    }
    assert emitted[..k] == emitted;
    if outcome.Failure? {
      current := FailExchange(current, ex.placeholderId, errorText);
    }
    final := Settle(current);
    ExchangeOutcome(s, text, userId, modelId, emitted, outcome.Success?, errorText);
  }
}
