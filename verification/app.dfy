/** The main chat screen (App.tsx): the shared controller with this
    screen's fixed error text. */
module App {
  import opened Types
  import JsText
  import Wire
  import Stream
  import Controller

  /** The message shown in place of a failed answer. */
  const ErrorText: string := "Uzr, texnik xatolik yuz berdi. Iltimos qayta urinib ko'ring."

  /** `handleSendMessage`: a guarded no-op, or the user message and the
      placeholder appended, the placeholder filled with the streamed text
      or replaced by this screen's error text, and loading cleared. */
  method HandleSendMessage(s: Controller.State, text: string, userId: MessageId, modelId: MessageId,
                           stream: Stream.ResponseStream)
    returns (final: Controller.State, request: Option<Wire.Request>)
    requires userId != modelId && modelId !in Ids(s.messages)
    ensures !Controller.CanSend(s, text) ==> final == s && request.None?
    ensures Controller.CanSend(s, text) && stream.end == Stream.Exhausted ==>
              && final.messages == s.messages + [Controller.UserMessage(userId, text, s.attachment),
                   Message(modelId, MODEL, Stream.Concat(Stream.Deltas(stream.chunks)), None, false, None)]
    ensures Controller.CanSend(s, text) && stream.end == Stream.Broken ==>
              && final.messages == s.messages + [Controller.UserMessage(userId, text, s.attachment),
                   Message(modelId, MODEL, ErrorText, None, true, None)]
    ensures Controller.CanSend(s, text) ==>
              && request == Some(Wire.Request(Wire.FormatHistory(s.messages), Wire.TurnParts(text, s.attachment)))
              && final.input == "" && final.attachment.None? && !final.loading
  {
    final, request := Controller.HandleSendMessage(s, text, userId, modelId, stream, ErrorText);
  }

  /** Two deltas on an empty screen: two messages are appended and the
      placeholder ends as the two deltas joined, not flagged as an error. */
  lemma TwoDeltaExchange(q: string, d1: string, d2: string)
    requires !JsText.IsBlank(q)
    ensures var started := Controller.Send(Controller.Initial, q, "1", "2").state;
            var final := Controller.Settle(Controller.ReceiveAll(started, "2", [d1, d2]));
            && |started.messages| == 2
            && final.messages == [Controller.UserMessage("1", q, None), Message("2", MODEL, d1 + d2, None, false, None)]
            && !final.loading
  {
    var deltas := [d1, d2];
    assert "1" != "2" by { assert "1"[0] != "2"[0]; }
    assert Ids([]) == {};
    Controller.ExchangeOutcome(Controller.Initial, q, "1", "2", deltas, true, ErrorText);
    assert deltas[..1] == [d1] && [d1][..0] == [];
    assert Stream.Concat([d1]) == d1 by { assert "" + d1 == d1; }
    assert Stream.Concat(deltas) == d1 + d2;
  }

  /** The worked conversation: a labour question with no attachment, then
      the deltas "Sizning " and "huquqlaringiz...". */
  lemma LabourQuestionScenario(q: string)
    requires q == "Ish beruvchim meni bo'shatdi"
    ensures var started := Controller.Send(Controller.Initial, q, "1", "2").state;
            var final := Controller.Settle(Controller.ReceiveAll(started, "2", ["Sizning ", "huquqlaringiz..."]));
            && |started.messages| == 2
            && final.messages == [Controller.UserMessage("1", q, None),
                                  Message("2", MODEL, "Sizning huquqlaringiz...", None, false, None)]
  {
    assert !JsText.IsWhiteSpace(q[0]);
    TwoDeltaExchange(q, "Sizning ", "huquqlaringiz...");
    assert "Sizning " + "huquqlaringiz..." == "Sizning huquqlaringiz...";
  }

  /** The failure scenario: the stream breaks before any chunk; the
      placeholder shows the error text, is flagged, and the list still has
      exactly the two new messages. */
  lemma FailureBeforeFirstChunk(q: string)
    requires !JsText.IsBlank(q)
    ensures var started := Controller.Send(Controller.Initial, q, "1", "2").state;
            var final := Controller.Settle(Controller.FailExchange(Controller.ReceiveAll(started, "2", []), "2", ErrorText));
            && |final.messages| == 2
            && final.messages[1].text == ErrorText && final.messages[1].isError
            && !final.loading
  {
    assert "1" != "2" by { assert "1"[0] != "2"[0]; }
    assert Ids([]) == {};
    Controller.ExchangeOutcome(Controller.Initial, q, "1", "2", [], false, ErrorText);
  }
}
