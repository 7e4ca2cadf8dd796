/**
 * The chat turn of the Harmon Transport agent: the session keeps the list of
 * messages shown so far; each submitted prompt appends the user's message,
 * asks the responder for a reply, shows the reply (and plays its audio when
 * there is any) and appends the assistant's message.
 */
module Chat {
  import opened Optional
  import Responder
  import Speech

  datatype Role = User | Assistant

  /** One entry `{"role": ..., "content": ...}` of the session's messages. */
  datatype Message = Message(role: Role, content: string)

  /**
   * What one turn puts on the page: the user's prompt, the assistant's reply
   * text, and the audio handed to the player, if it was played.
   */
  datatype Shown = Shown(prompt: string, reply: string, played: Option<seq<Speech.byte>>)

  /** The history as turns build it: user and assistant entries alternate, user first, in pairs. */
  ghost predicate Alternating(messages: seq<Message>)
  {
    && |messages| % 2 == 0
    && forall i :: 0 <= i < |messages| ==> messages[i].role == (if i % 2 == 0 then User else Assistant)
  }

  /** A turn appended to an alternating history leaves it alternating. */
  lemma AppendTurnAlternates(messages: seq<Message>, prompt: string, reply: string)
    requires Alternating(messages)
    ensures Alternating(messages + [Message(User, prompt), Message(Assistant, reply)])
  {
  }

  /** The audio handed to the player: the synthesised bytes when they are truthy, nothing otherwise. */
  function Played(audio: Option<seq<Speech.byte>>): Option<seq<Speech.byte>>
  {
    if Speech.Truthy(audio) then audio else None
  }

  /**
   * What a turn plays for its reply, end to end: the joined chunks, when the
   * conversion and the reading of its chunks both succeed and some chunk
   * holds a byte; nothing otherwise.
   */
  lemma PlayedForReply(synth: Speech.Synthesizer, reply: string)
    ensures var conversion := synth(Speech.SpeechRequestFor(reply));
            Played(Speech.TextToSpeech(synth, reply)) ==
              if && conversion.Stream?
                 && !conversion.raisesAfter
                 && exists i :: 0 <= i < |conversion.chunks| && conversion.chunks[i] != []
              then Some(Speech.Join(conversion.chunks))
              else None
  {
  }

  /** The Streamlit session state of one user. */
  class Session {
    var messages: seq<Message>

    ghost predicate Valid()
      reads this
    {
      Alternating(messages)
    }

    /** A new session starts with no messages. */
    constructor ()
      ensures Valid() && messages == []
    {
      messages := [];
    }

    /**
     * One run of the chat-input branch. Nothing happens unless a non-empty
     * prompt was submitted. Otherwise the user's entry is appended, then the
     * responder is asked with the prompt alone (never the history), the
     * reply is shown with its audio only when synthesis gave non-empty
     * bytes, and the assistant's entry is appended; earlier entries stay.
     */
    method Submit(input: Option<string>, provider: Responder.Provider, synth: Speech.Synthesizer, sysInstruct: string)
      returns (shown: Option<Shown>)
      requires Valid()
      modifies this
      ensures Valid()
      ensures input.None? || input.value == [] ==> shown.None? && messages == old(messages)
      ensures input.Some? && input.value != [] ==>
                var reply := Responder.Respond(provider, Responder.ModelsToTry, input.value, sysInstruct).reply;
                && messages == old(messages) + [Message(User, input.value), Message(Assistant, reply)]
                && shown == Some(Shown(input.value, reply, Played(Speech.TextToSpeech(synth, reply))))
    {
      if input.None? || input.value == [] {
        return None;
      }
      var prompt := input.value;
      ghost var before := messages;
      messages := messages + [Message(User, prompt)];
      var reply, _ := Responder.GetGeminiResponse(provider, prompt, sysInstruct);
      var audio := Speech.TextToSpeech(synth, reply);
      shown := Some(Shown(prompt, reply, Played(audio)));
      messages := messages + [Message(Assistant, reply)];
      assert messages == before + [Message(User, prompt), Message(Assistant, reply)];
      AppendTurnAlternates(before, prompt, reply);
    }
  }
}
