/** The second chat screen (components/LegalAI.tsx): the same controller
    with its own error text, plus the demo button that types a canned
    prompt into the input one character at a time. */
module LegalAI {
  import opened Types
  import Wire
  import Stream
  import Controller

  /** The message shown in place of a failed answer on this screen. */
  const ErrorText: string := "Uzr, texnik xatolik yuz berdi. Iltimos qaytadan urinib ko'ring."

  /** `handleSendMessage` on this screen: as on the main screen, with this
      screen's error text replacing a failed answer. */
  method HandleSendMessage(s: Controller.State, text: string, userId: MessageId, modelId: MessageId,
                           stream: Stream.ResponseStream)
    returns (final: Controller.State, request: Option<Wire.Request>)
    requires userId != modelId && modelId !in Ids(s.messages)
    ensures !Controller.CanSend(s, text) ==> final == s && request.None?
    ensures Controller.CanSend(s, text) && stream.end == Stream.Exhausted ==>
              && final.messages == s.messages + [Controller.UserMessage(userId, text, s.attachment),
                   Message(modelId, MODEL, Stream.Concat(Stream.Deltas(stream.chunks)), None, false, None)]
    ensures Controller.CanSend(s, text) && stream.end == Stream.Broken ==>
              && final.messages == s.messages + [Controller.UserMessage(userId, text, s.attachment),
                   Message(modelId, MODEL, ErrorText, None, true, None)]
    ensures Controller.CanSend(s, text) ==>
              && request == Some(Wire.Request(Wire.FormatHistory(s.messages), Wire.TurnParts(text, s.attachment)))
              && final.input == "" && final.attachment.None? && !final.loading
  {
    final, request := Controller.HandleSendMessage(s, text, userId, modelId, stream, ErrorText);
  }

  /** `handleMagicDemo` as evidently intended: ignored while loading;
      otherwise the input is reset to "" and then grows by one character of
      the prompt per step, so `shown[k]` (the input after k steps) is the
      first k characters, and the input ends equal to the prompt. Nothing
      else changes. */
  method MagicDemo(s: Controller.State, prompt: string) returns (r: Controller.State, shown: seq<string>)
    ensures s.loading ==> r == s && shown == []
    ensures !s.loading ==> r == s.(input := prompt)
    ensures !s.loading ==> |shown| == |prompt| + 1 && forall k :: 0 <= k <= |prompt| ==> shown[k] == prompt[..k]
  {
    if s.loading {
      return s, [];
    }
    r := s.(input := "");
    shown := [r.input];
    var i := 0;
    while i < |prompt|
      invariant 0 <= i <= |prompt|
      invariant r == s.(input := prompt[..i])
      invariant |shown| == i + 1
      invariant forall k :: 0 <= k <= i ==> shown[k] == prompt[..k]
    {
      r := r.(input := r.input + [prompt[i]]);
      i := i + 1;
      assert r.input == prompt[..i];
      shown := shown + [r.input];
    }
    assert prompt[..i] == prompt;
  }

  /** `txt.charAt(i)`: the character at `i`, or "" past the end. */
  function CharAt(s: string, i: nat): (c: string)
    ensures |c| == if i < |s| then 1 else 0
    ensures i < |s| ==> c[0] == s[i]
  {
    if i < |s| then [s[i]] else ""
  }

  /** The input after n typewriter steps as the handler is written. Each
      step queues `prev => prev + txt.charAt(i)` and then runs `i++`; the
      queued updater runs at the next render and reads the incremented `i`,
      so step j (from 0) appends `charAt(j + 1)`. */
  function TypedAsWritten(prompt: string, n: nat): string
    decreases n
  {
    if n == 0 then "" else TypedAsWritten(prompt, n - 1) + CharAt(prompt, n)
  }

  /** Before the last step, the as-written input is the prompt from its
      second character up to the current one. */
  lemma {:induction false} TypedAsWrittenIsSlice(prompt: string, n: nat)
    requires n < |prompt|
    ensures TypedAsWritten(prompt, n) == prompt[1..n + 1]
    decreases n
  {
    if n > 0 {
      TypedAsWrittenIsSlice(prompt, n - 1);
      assert prompt[1..n + 1] == prompt[1..n] + [prompt[n]];
    }
  }

  /** The discrepancy: as written, a non-empty prompt ends in the input
      without its first character, never equal to the prompt. */
  lemma MagicDemoAsWrittenDropsFirst(prompt: string)
    requires |prompt| >= 1
    ensures TypedAsWritten(prompt, |prompt|) == prompt[1..]
    ensures TypedAsWritten(prompt, |prompt|) != prompt
  {
    TypedAsWrittenIsSlice(prompt, |prompt| - 1);
    assert prompt[1..|prompt|] == prompt[1..];
  }

  /** `handleMagicDemo` with the late read of `i`: the same loop as
      `MagicDemo`, each step appending `charAt(i + 1)`. */
  method MagicDemoAsWritten(s: Controller.State, prompt: string) returns (r: Controller.State, shown: seq<string>)
    ensures s.loading ==> r == s && shown == []
    ensures !s.loading ==> r == s.(input := if prompt == "" then "" else prompt[1..])
    ensures !s.loading ==> |shown| == |prompt| + 1 && forall k :: 0 <= k <= |prompt| ==> shown[k] == TypedAsWritten(prompt, k)
  {
    if s.loading {
      return s, [];
    }
    r := s.(input := "");
    shown := [r.input];
    var i := 0;
    while i < |prompt|
      invariant 0 <= i <= |prompt|
      invariant r == s.(input := TypedAsWritten(prompt, i))
      invariant |shown| == i + 1
      invariant forall k :: 0 <= k <= i ==> shown[k] == TypedAsWritten(prompt, k)
    {
      r := r.(input := r.input + CharAt(prompt, i + 1));
      i := i + 1;
      shown := shown + [r.input];
    }
    if prompt != "" {
      MagicDemoAsWrittenDropsFirst(prompt);
    }
  }
}
