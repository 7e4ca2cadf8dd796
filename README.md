# Harmon Transport agent: responder, speech and chat turn

A Dafny model of the logic in `app.py` of the Harmon Logistics chat agent. The app is a Streamlit page where a customer chats with "Paul Harmon". The model covers three parts:

- **The self-healing responder** (`get_gemini_response`, module `Responder`, file `responder.dfy`). It sends the prompt to each model in `ModelsToTry` in turn and stops at the first call that does not raise. The reply is that call's text. If all three calls raise, the reply is `"Connection Error. Please try again."`. The Gemini client is an oracle `Provider = Request -> Outcome`. A `Request` holds the model, the contents and the system instruction. An `Outcome` is `Raise` (any exception) or `Return(text)`. The method `GetGeminiResponse` has the loop with the early return. It returns the reply and also the log of requests sent. The recursive function `Respond` specifies it over any list of candidates.
- **Speech synthesis** (`text_to_speech`, module `Speech`, file `speech.dfy`). The ElevenLabs call is an oracle `Synthesizer = SpeechRequest -> Conversion`. A `Conversion` either raises at once, or yields a sequence of byte chunks and then stops or raises. The result is `None` when anything raised. Otherwise it is the chunks joined in order. `Truthy` is the test `if audio_bytes:` uses: neither `None` nor empty.
- **The chat turn** (module `Chat`, file `chat.dfy`). `Session` holds `st.session_state.messages` as a `seq<Message>` field. `Submit` runs the chat-input branch once. It appends the user's entry, asks the responder, shows the reply and the audio if there is any, then appends the assistant's entry. A class invariant says the entries alternate, user first, in pairs, as long as every turn runs to its end.

`Option` lives in its own module (`option.dfy`).

A more defensive responder would send the conversation history and would treat an empty or missing reply as a failure. The code does neither, and the model keeps the code's behaviour:

- Only the prompt is sent to the model (app.py:91). The conversation history is never sent, in structured or flattened form.
- A returned text is passed back as it is (app.py:94), with no check on it and no further candidate tried. `Responder.Respond` states this for every text. `Responder.EmptyTextIsReturned` shows it for an empty text.

## Model

| member | source | states |
|---|---|---|
| `Responder.Respond` | app.py:86-97 | Over any candidate list: the requests sent are the first candidates in order, one each. Every request carries the same prompt and system instruction. Every request but the last raised. If the last returned, the reply is its text unchanged. Otherwise all candidates were tried and the reply is the connection-error message. |
| `Responder.GetGeminiResponse` | app.py:86-97 | The loop over `ModelsToTry` with early return gives exactly the reply and request log of `Respond` over `ModelsToTry`. At least one and at most three calls are made. Call i goes to `ModelsToTry[i]` with the prompt as contents and the same system instruction. |
| `Responder.FirstSuccessWins` | app.py:87-94 | If candidate k is the first that does not raise, exactly k + 1 calls are made, to the first k + 1 candidates in order. The reply is candidate k's text. |
| `Responder.Exhaustion` | app.py:87-97 | If every call raises, each candidate is tried once, in order, and the reply is exactly `"Connection Error. Please try again."`. |
| `Responder.OnlyAttemptedOutcomesMatter` | app.py:86-97 | Determinism: two providers that give the same outcomes on the requests actually sent give the same reply and the same request log. |
| `Responder.EmptyTextIsReturned` | app.py:94 | An empty text from the first model is the reply, after exactly one call. No later model is asked. |
| `Responder.ModelsToTryDistinct` | app.py:12 | The candidate list has three entries and no duplicates, so no model is asked twice. |
| `Speech.TextToSpeech` | app.py:74-84 | The conversion is asked with the request built by `Speech.SpeechRequestFor`: the text, the fixed voice `0NgMq4gSzOuPcjasSGQk`, the voice model `eleven_multilingual_v2` and the output format `mp3_44100_128`. The result is `None` exactly when the conversion raised or reading the chunks raised. Otherwise it is the join of all chunks, in order. |
| `Speech.JoinAppend` | app.py:82 | Joining distributes over concatenation of chunk runs. |
| `Speech.JoinChunkAt` | app.py:82 | Each chunk appears whole in the joined bytes, after the bytes of all earlier chunks and before those of all later ones. |
| `Speech.Join` | app.py:82 | `b"".join`: the joined bytes are empty exactly when every chunk is empty, and no chunk is longer than the joined bytes. |
| `Chat.PlayedForReply` | app.py:155-157 | What a turn plays, via `Chat.Played`: the joined chunks when conversion and reading both succeed and some chunk holds a byte, and nothing otherwise. |
| `Speech.AudioPlayedIff` | app.py:155-157 | The test `if audio_bytes:` (`Speech.Truthy`: neither `None` nor `b""`) holds exactly when conversion and reading both succeed and some chunk is non-empty. |
| `Chat.AppendTurnAlternates` | app.py:139-159 | Appending a user entry and then an assistant entry keeps the history alternating, user first, in pairs. |
| `Chat.Session.constructor` | app.py:115-116 | A new session has no messages. |
| `Chat.Session.Submit` | app.py:136-159 | With no input or an empty prompt, nothing changes. Otherwise exactly two entries are appended and earlier entries stay: first the user entry with the prompt, then the assistant entry with the reply. The reply is the responder's reply to the prompt alone. The reply text is always shown. Audio is played only when synthesis gave non-empty bytes. |

## Left out

- Page configuration, CSS, sidebar, title and history rendering (app.py:19-121): presentation only.
- Secret loading and client construction (app.py:8-16): external configuration and SDK objects.
- The network calls to Gemini and ElevenLabs (app.py:76-81, app.py:89-93). They are oracles that are total functions of the request. So the model cannot express a provider that answers the same request differently at different times. `ModelsToTry` has no duplicates, so within one reply no request is sent twice.
- The audio-input branch (app.py:125-133): it only shows a warning.
- The text of the system instruction (app.py:142-146): `Submit` takes it as an opaque parameter.
- Kinds of exception: the bare `except:` at app.py:95 and `except Exception` at app.py:83 are each modelled as one failure outcome.
- The spinner and the order in which bubbles appear on the page: the model records the prompt, reply and played audio of a turn, not how they are drawn.
- Streamlit reruns the whole script on each interaction. The model treats the first run of a session as the constructor (app.py:115-116) and each later run with chat input as one call of `Submit` on the same `Session`.
- The text of a Gemini response is always a string in the model: `Outcome.Return` carries a `string`. The SDK's `response.text` can also be `None`, for a response without text parts. The code would return that `None` as the reply, try no later model, and then show, synthesise and store it (app.py:94, app.py:154-159). The model does not capture a `None` reply.
- Chat.Session.Submit: a turn is modelled as running to its end. Streamlit can stop a run at its next `st.` call when a new interaction arrives, for example while the spinner is shown. Such a run leaves only the user entry, and the next turn then adds a second user entry right after it. The model does not capture an interrupted run, so the alternation invariant holds only for runs that finish.
