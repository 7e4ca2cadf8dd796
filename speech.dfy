/**
 * `text_to_speech`: the reply text is sent to the ElevenLabs voice of Paul
 * Harmon, and the audio chunks that come back are joined into one byte
 * string. Any exception, from the conversion call or while the chunks are
 * read, turns the result into `None`.
 */
module Speech {
  import opened Optional

  newtype byte = b: int | 0 <= b < 256

  const VoiceId: string := "0NgMq4gSzOuPcjasSGQk"
  const VoiceModelId: string := "eleven_multilingual_v2"
  const OutputFormat: string := "mp3_44100_128"

  /** One `text_to_speech.convert` call. */
  datatype SpeechRequest = SpeechRequest(text: string, voiceId: string, modelId: string, outputFormat: string)

  /**
   * What the conversion does: it raises at once, or it hands back a chunk
   * generator that yields `chunks` and then either stops or raises.
   */
  datatype Conversion = ConvertRaised | Stream(chunks: seq<seq<byte>>, raisesAfter: bool)

  type Synthesizer = SpeechRequest -> Conversion

  /** The request for `text`: the fixed voice, voice model and output format. */
  function SpeechRequestFor(text: string): SpeechRequest
  {
    SpeechRequest(text, VoiceId, VoiceModelId, OutputFormat)
  }

  /**
   * `b"".join(chunks)`. The joined bytes are empty exactly when every chunk
   * is empty, and no chunk is longer than the joined bytes.
   */
  function Join(chunks: seq<seq<byte>>): (r: seq<byte>)
    ensures r == [] <==> forall i :: 0 <= i < |chunks| ==> chunks[i] == []
    ensures forall i :: 0 <= i < |chunks| ==> |chunks[i]| <= |r|
  {
    if chunks == [] then [] else chunks[0] + Join(chunks[1..])
  }

  /** Joining is compositional: the join of two runs of chunks is the join of each, in order. */
  lemma {:induction false} JoinAppend(a: seq<seq<byte>>, b: seq<seq<byte>>)
    ensures Join(a + b) == Join(a) + Join(b)
  {
    if a == [] {
      assert a + b == b;
    } else {
      assert (a + b)[1..] == a[1..] + b;
      JoinAppend(a[1..], b);
    }
  }

  /**
   * Every chunk appears whole in the joined bytes, right after the bytes of
   * the chunks before it and right before those of the chunks after it.
   */
  lemma {:induction false} JoinChunkAt(chunks: seq<seq<byte>>, i: nat)
    requires i < |chunks|
    ensures Join(chunks) == Join(chunks[..i]) + chunks[i] + Join(chunks[i + 1..])
  {
    var rest := [chunks[i]] + chunks[i + 1..];
    assert chunks == chunks[..i] + rest;
    JoinAppend(chunks[..i], rest);
    assert rest[1..] == chunks[i + 1..];
    assert Join(rest) == chunks[i] + Join(chunks[i + 1..]);
  }

  /**
   * `text_to_speech`: `None` exactly when the conversion raised or reading
   * the chunks raised; otherwise all chunks, joined in order.
   */
  function TextToSpeech(synth: Synthesizer, text: string): (r: Option<seq<byte>>)
    ensures r.None? <==> synth(SpeechRequestFor(text)).ConvertRaised? || synth(SpeechRequestFor(text)).raisesAfter
    ensures r.Some? ==> r.value == Join(synth(SpeechRequestFor(text)).chunks)
  {
    match synth(SpeechRequestFor(text))
    case ConvertRaised => None
    case Stream(chunks, raisesAfter) => if raisesAfter then None else Some(Join(chunks))
  }

  /** Python truthiness of the result: neither `None` nor `b""`. */
  predicate Truthy(audio: Option<seq<byte>>)
  {
    audio.Some? && audio.value != []
  }

  /**
   * Audio is played exactly when the conversion and the reading of its
   * chunks both succeed and at least one chunk holds a byte.
   */
  lemma AudioPlayedIff(synth: Synthesizer, text: string)
    ensures Truthy(TextToSpeech(synth, text)) <==>
              && synth(SpeechRequestFor(text)).Stream?
              && !synth(SpeechRequestFor(text)).raisesAfter
              && exists i :: 0 <= i < |synth(SpeechRequestFor(text)).chunks| && synth(SpeechRequestFor(text)).chunks[i] != []
  {
    // follows from the contracts of TextToSpeech and Join
  }
}
