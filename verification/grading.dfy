/** The answer check of `validateAnswerAI` (backend/src/activities.ts): the
    error mapping around the chat-completion request and the yes/no verdict
    rule applied to its reply. The request itself, its prompt and the shape
    of the JSON it returns are not modelled: the outcome of the request is an
    input. */
module Grading {
  import opened Wrappers
  import Clues

  /** The three ways `validateAnswerAI` throws. */
  datatype GraderError =
    | ApiKeyNotSet       // no credential configured; thrown before any request
    | UnknownClue        // `clues[num]` is undefined, so reading its `answer` throws
    | ValidationFailed   // the request or the reading of its reply threw

  function ErrorMessage(e: GraderError): string
  {
    match e
    case ApiKeyNotSet => "OpenAI API key is not set."
    case UnknownClue => "Cannot read properties of undefined (reading 'answer')"
    case ValidationFailed => "Failed to validate answer."
  }

  /** What the chat-completion request came back with: the text of the first
      choice (absent when the reply has no such text), or a thrown error. */
  datatype Exchange = Replied(content: Option<string>) | RequestFailed

  /** The verdict rule: the reply, lower-cased by `lower`, must be exactly
      "yes". `lower` stands for the host's `toLowerCase`. */
  function Verdict(reply: Option<string>, lower: string -> string): (correct: bool)
    ensures reply.None? ==> !correct
    ensures correct ==> reply.Some? && lower(reply.value) == "yes"
    ensures reply.Some? && lower(reply.value) == "yes" ==> correct
    ensures reply.Some? && |lower(reply.value)| == |reply.value| && |reply.value| != 3 ==> !correct
  {
    match reply
    case None => false
    case Some(text) => lower(text) == "yes"
  }

  /** `validateAnswerAI(num, question, userAnswer)`, given the configured key
      and the outcome of the request it would send. */
  function ValidateAnswer(apiKey: Option<string>, num: int, exchange: Exchange, lower: string -> string)
    : (r: Result<bool, GraderError>)
    ensures (apiKey.None? || apiKey.value == "") ==> r == Failure(ApiKeyNotSet)
    ensures apiKey.Some? && apiKey.value != "" && num !in Clues.Table() ==> r == Failure(UnknownClue)
    ensures exchange.RequestFailed? ==> r.Failure?
    ensures apiKey.Some? && apiKey.value != "" && num in Clues.Table() && exchange.RequestFailed? ==> r == Failure(ValidationFailed)
    ensures r.Success? <==> apiKey.Some? && apiKey.value != "" && num in Clues.Table() && exchange.Replied?
    ensures r.Success? ==> r.value == Verdict(exchange.content, lower)
  {
    if apiKey.None? || apiKey.value == "" then Failure(ApiKeyNotSet)
    else if num !in Clues.Table() then Failure(UnknownClue)
    else match exchange
      case RequestFailed => Failure(ValidationFailed)
      case Replied(content) => Success(Verdict(content, lower))
  }

  /** ASCII lower-casing: one instance of `lower`, used for concrete replies. */
  function AsciiLower(s: string): (r: string)
    ensures |r| == |s|
    ensures forall i :: 0 <= i < |s| ==> r[i] == LowerChar(s[i])
  {
    if s == [] then [] else [LowerChar(s[0])] + AsciiLower(s[1..])
  }

  function LowerChar(c: char): char
  {
    if 'A' <= c <= 'Z' then (c as int - 'A' as int + 'a' as int) as char else c
  }

  /** With ASCII lower-casing, "Yes" and "YES" are accepted, while "Yes.",
      "No" and a missing reply are not. */
  lemma VerdictExamples()
    ensures Verdict(Some("Yes"), AsciiLower)
    ensures Verdict(Some("YES"), AsciiLower)
    ensures !Verdict(Some("Yes."), AsciiLower)
    ensures !Verdict(Some("No"), AsciiLower)
    ensures !Verdict(None, AsciiLower)
  {
    assert AsciiLower("Yes") == "yes";
    assert AsciiLower("YES") == "yes";
  }
}
