/** The summarizer `generate_gemini_content` (app.py): send the instruction
    prompt followed by the transcript to the language-model service and
    pick the reply's text by a fixed priority. */
module Summarizer {
  import opened Wrappers

  /** The model the request names. */
  const ModelName: string := "gemini-1.5-pro"

  /** The instruction prefix; the source's triple-quoted string, with its
      line breaks as line feeds. */
  const Prompt: string :=
    "You are a YouTube video summarizer. \nYou will take the transcript text and summarize the entire video, \nproviding the important points in bullet format within 250 words.\nPlease provide the summary of the text given here: "

  /** Shown when the reply carries neither text nor a candidate. */
  const NoSummaryMessage: string := "\U{274C} Failed to generate summary."

  /** Put in front of the message of a failed call. */
  const ErrorPrefix: string := "\U{274C} Error: "

  /** What is sent: the model's name and the prompt text. */
  datatype Request = Request(model: string, contents: string)

  /** A reply: its `text` field when it has one, and its candidates' contents
      in order. */
  datatype Response = Response(text: Option<string>, candidates: seq<string>)

  /** The outcome of the call: a reply, or an exception with its message. */
  datatype Reply = Replied(response: Response) | Raised(message: string)

  /** The language-model service, `GenerativeModel.generate_content`. */
  type ModelService = Request -> Reply

  /** The text shown for a reply: the text field first, else the first
      candidate, else the fixed failure message; an exception becomes the
      error prefix followed by its message. */
  function SelectText(reply: Reply): (r: string)
    ensures reply.Raised? ==> r == ErrorPrefix + reply.message
    ensures reply.Replied? && reply.response.text.Some? ==> r == reply.response.text.value
    ensures reply.Replied? && reply.response.text.None? && |reply.response.candidates| > 0
            ==> r == reply.response.candidates[0]
    ensures reply.Replied? && reply.response.text.None? && |reply.response.candidates| == 0
            ==> r == NoSummaryMessage
  {
    match reply
    case Raised(message) => ErrorPrefix + message
    case Replied(response) =>
      if response.text.Some? then response.text.value
      else if |response.candidates| > 0 then response.candidates[0]
      else NoSummaryMessage
  }

  /** `generate_gemini_content(transcript, prompt)`: one request to the
      named model whose text is the prompt followed by the transcript. */
  function GenerateGeminiContent(transcript: string, prompt: string, generate: ModelService): (r: string)
    ensures var reply := generate(Request(ModelName, prompt + transcript));
      reply.Raised? ==> ErrorPrefix <= r && r[|ErrorPrefix|..] == reply.message
  {
    SelectText(generate(Request(ModelName, prompt + transcript)))
  }

  /** Only the one request matters: two services that answer it alike give
      the same summary, so the prompt goes first and the transcript right
      after it, sent to the named model. */
  lemma OnlyTheRequestMatters(transcript: string, prompt: string, generate1: ModelService, generate2: ModelService)
    requires generate1(Request(ModelName, prompt + transcript)) == generate2(Request(ModelName, prompt + transcript))
    ensures GenerateGeminiContent(transcript, prompt, generate1) == GenerateGeminiContent(transcript, prompt, generate2)
  {
  }

  /** The text field wins over any candidates. */
  lemma TextWinsOverCandidates(t: string, candidates: seq<string>)
    ensures SelectText(Replied(Response(Some(t), candidates))) == t
  {
  }

  /** A failed call is reported, never propagated: the message of
      "quota exceeded" shows up inside the error text. */
  lemma ErrorKeepsMessage(transcript: string, generate: ModelService)
    requires generate(Request(ModelName, Prompt + transcript)) == Raised("quota exceeded")
    ensures GenerateGeminiContent(transcript, Prompt, generate) == ErrorPrefix + "quota exceeded"
  {
  }
}
