/**
 * The self-healing responder of the Harmon Transport agent: a prompt is sent
 * to each candidate Gemini model in turn until one call does not raise; the
 * text of that call is the reply. When every call raises, the reply is a
 * fixed connection-error message.
 *
 * The generation provider is an oracle: a total function from the request
 * sent to the outcome of the call, which either raises or returns a text.
 */
module Responder {

  /** The candidate models, in the order they are tried. */
  const ModelsToTry: seq<string> := ["gemini-2.5-flash", "gemini-2.0-flash-lite", "gemini-1.5-flash"]

  /** The reply when every candidate raised. */
  const ConnectionError: string := "Connection Error. Please try again."

  /** One `generate_content` call: the model, the contents and the system instruction. */
  datatype Request = Request(model: string, contents: string, systemInstruction: string)

  /** What one call does: raise (any exception at all), or return a response whose text is `text`. */
  datatype Outcome = Raise | Return(text: string)

  type Provider = Request -> Outcome

  /** The reply handed to the caller, with the log of requests sent, in order. */
  datatype Response = Response(reply: string, attempts: seq<Request>)

  /**
   * The responder over a list of candidates. Its contract characterises the
   * result completely: the requests sent are the first candidates in order,
   * each with the same prompt and system instruction; every request but the
   * last raised; if the last one returned, its text is the reply, unchanged;
   * otherwise every candidate was tried and the reply is the error message.
   */
  function Respond(provider: Provider, candidates: seq<string>, prompt: string, sysInstruct: string): (r: Response)
    ensures |r.attempts| <= |candidates|
    ensures forall i :: 0 <= i < |r.attempts| ==> r.attempts[i] == Request(candidates[i], prompt, sysInstruct)
    ensures forall i :: 0 <= i < |r.attempts| - 1 ==> provider(r.attempts[i]).Raise?
    ensures r.attempts != [] && provider(r.attempts[|r.attempts| - 1]).Return? ==>
              r.reply == provider(r.attempts[|r.attempts| - 1]).text
    ensures r.attempts == [] || provider(r.attempts[|r.attempts| - 1]).Raise? ==>
              |r.attempts| == |candidates| && r.reply == ConnectionError
    decreases |candidates|
  {
    if candidates == [] then
      Response(ConnectionError, [])
    else
      var request := Request(candidates[0], prompt, sysInstruct);
      match provider(request)
      case Return(text) => Response(text, [request])
      case Raise =>
        var rest := Respond(provider, candidates[1..], prompt, sysInstruct);
        Response(rest.reply, [request] + rest.attempts)
  }

  /**
   * First success wins: when candidate k is the first whose call does not
   * raise, exactly k + 1 calls are made (the first k + 1 candidates, in
   * order) and the reply is that call's text, with no check on its shape.
   */
  lemma FirstSuccessWins(provider: Provider, candidates: seq<string>, prompt: string, sysInstruct: string, k: nat)
    requires k < |candidates|
    requires forall j :: 0 <= j < k ==> provider(Request(candidates[j], prompt, sysInstruct)).Raise?
    requires provider(Request(candidates[k], prompt, sysInstruct)).Return?
    ensures |Respond(provider, candidates, prompt, sysInstruct).attempts| == k + 1
    ensures forall j :: 0 <= j <= k ==>
              Respond(provider, candidates, prompt, sysInstruct).attempts[j] == Request(candidates[j], prompt, sysInstruct)
    ensures Respond(provider, candidates, prompt, sysInstruct).reply == provider(Request(candidates[k], prompt, sysInstruct)).text
  {
    // follows from the contract of Respond
  }

  /**
   * Exhaustion: when every call raises, every candidate is tried once, in
   * order, and the reply is exactly the connection-error message.
   */
  lemma Exhaustion(provider: Provider, candidates: seq<string>, prompt: string, sysInstruct: string)
    requires forall j :: 0 <= j < |candidates| ==> provider(Request(candidates[j], prompt, sysInstruct)).Raise?
    ensures |Respond(provider, candidates, prompt, sysInstruct).attempts| == |candidates|
    ensures forall j :: 0 <= j < |candidates| ==>
              Respond(provider, candidates, prompt, sysInstruct).attempts[j] == Request(candidates[j], prompt, sysInstruct)
    ensures Respond(provider, candidates, prompt, sysInstruct).reply == ConnectionError
  {
    // follows from the contract of Respond
  }

  /**
   * Determinism: the reply and the log depend on nothing but the outcomes of
   * the calls actually made. Two providers that agree on the requests sent
   * give the same reply and the same log.
   */
  lemma OnlyAttemptedOutcomesMatter(p: Provider, q: Provider, candidates: seq<string>, prompt: string, sysInstruct: string)
    requires forall i :: 0 <= i < |Respond(p, candidates, prompt, sysInstruct).attempts| ==>
               p(Respond(p, candidates, prompt, sysInstruct).attempts[i]) == q(Respond(p, candidates, prompt, sysInstruct).attempts[i])
    ensures Respond(p, candidates, prompt, sysInstruct) == Respond(q, candidates, prompt, sysInstruct)
  {
    // follows from the contract of Respond, which determines its result
  }

  /**
   * A returned text is not inspected: an empty text from the first model is
   * the reply, after one call, and no other model is asked.
   */
  lemma EmptyTextIsReturned(provider: Provider, prompt: string, sysInstruct: string)
    requires provider(Request(ModelsToTry[0], prompt, sysInstruct)) == Return("")
    ensures Respond(provider, ModelsToTry, prompt, sysInstruct) == Response("", [Request(ModelsToTry[0], prompt, sysInstruct)])
  {
  }

  /** No candidate of `ModelsToTry` appears twice, so no model is ever retried. */
  lemma ModelsToTryDistinct()
    ensures |ModelsToTry| == 3
    ensures forall i, j :: 0 <= i < j < |ModelsToTry| ==> ModelsToTry[i] != ModelsToTry[j]
  {
  }

  /**
   * `get_gemini_response`: a loop over `ModelsToTry` that returns from inside
   * the loop on the first call that does not raise. Beside the reply it
   * hands back the log of the requests sent.
   */
  method GetGeminiResponse(provider: Provider, prompt: string, sysInstruct: string) returns (reply: string, attempts: seq<Request>)
    ensures Response(reply, attempts) == Respond(provider, ModelsToTry, prompt, sysInstruct)
    ensures 0 < |attempts| <= |ModelsToTry|
    ensures forall i :: 0 <= i < |attempts| ==> attempts[i] == Request(ModelsToTry[i], prompt, sysInstruct)
  {
    attempts := [];
    for i := 0 to |ModelsToTry|
      invariant |attempts| == i
      invariant forall j :: 0 <= j < i ==> attempts[j] == Request(ModelsToTry[j], prompt, sysInstruct)
      invariant forall j :: 0 <= j < i ==> provider(Request(ModelsToTry[j], prompt, sysInstruct)).Raise?
    {
      var request := Request(ModelsToTry[i], prompt, sysInstruct);
      attempts := attempts + [request];
      match provider(request)
      case Return(text) =>
        FirstSuccessWins(provider, ModelsToTry, prompt, sysInstruct, i);
        reply := text;
        return;
      case Raise =>
    }
    Exhaustion(provider, ModelsToTry, prompt, sysInstruct);
    reply := ConnectionError;
  }
}
