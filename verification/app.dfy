/** The page's two reactions (app.py): the thumbnail shown for a typed link,
    and the notes shown when the button is pressed. Rendering is left out;
    what is modelled is which outcome is chosen and what text it carries. */
module App {
  import opened Wrappers
  import opened Text
  import UrlParse
  import Resolver
  import Transcript
  import Summarizer

  /** What the page shows under the link field. */
  datatype Preview = NoInput | Thumbnail(imageUrl: string) | InvalidUrl

  const ThumbnailPrefix: string := "https://img.youtube.com/vi/"
  const ThumbnailSuffix: string := "/0.jpg"

  /** The conventional address of a video's thumbnail image. */
  function ThumbnailUrl(id: string): (r: string)
    ensures |r| == |ThumbnailPrefix| + |id| + |ThumbnailSuffix|
    ensures r[..|ThumbnailPrefix|] == ThumbnailPrefix
    ensures r[|ThumbnailPrefix|..|ThumbnailPrefix| + |id|] == id
    ensures r[|ThumbnailPrefix| + |id|..] == ThumbnailSuffix
  {
    ThumbnailPrefix + id + ThumbnailSuffix
  }

  /** The preview for the link field, given the identifier the link names:
      nothing for an empty field, the thumbnail when there is an identifier,
      an error otherwise. */
  function PreviewFor(link: string, id: Option<string>): (r: Preview)
    ensures r.NoInput? <==> link == ""
    ensures link != "" ==> (r.Thumbnail? <==> IsTruthy(id))
    ensures r.Thumbnail? ==> r.imageUrl == ThumbnailUrl(id.value)
  {
    if link == "" then NoInput
    else if IsTruthy(id) then Thumbnail(ThumbnailUrl(id.value))
    else InvalidUrl
  }

  /** The preview the page shows for the link field. */
  function ShowPreview(link: string): (r: Preview)
    ensures r.NoInput? <==> link == ""
    ensures link != "" ==> (r.Thumbnail? <==> IsTruthy(Resolver.GetVideoId(link)))
  {
    PreviewFor(link, Resolver.GetVideoId(link))
  }

  /** What the button shows: the summary, or the could-not-extract error. */
  datatype Notes = DetailedNotes(summary: string) | NoTranscript

  /** The reaction to the transcript: summarize it only when there is text
      to summarize. */
  function NotesFor(transcript: Option<string>, generate: Summarizer.ModelService): (r: Notes)
    ensures r.DetailedNotes? <==> IsTruthy(transcript)
    ensures r.DetailedNotes? ==> r.summary == Summarizer.GenerateGeminiContent(transcript.value, Summarizer.Prompt, generate)
  {
    if IsTruthy(transcript) then
      DetailedNotes(Summarizer.GenerateGeminiContent(transcript.value, Summarizer.Prompt, generate))
    else NoTranscript
  }

  /** The button's handler: fetch the transcript for the link, then react
      to it. */
  function GetDetailedNotes(link: string, fetch: Transcript.TranscriptService, generate: Summarizer.ModelService): (r: Notes)
    ensures r.DetailedNotes? <==> IsTruthy(Transcript.ExtractTranscriptDetails(link, fetch))
  {
    NotesFor(Transcript.ExtractTranscriptDetails(link, fetch), generate)
  }

  /** Without transcript text the summarizer is never called: the outcome is
      the same whatever the language-model service would have answered. */
  lemma SummarizerNotCalledWithoutText(transcript: Option<string>,
                                       generate1: Summarizer.ModelService, generate2: Summarizer.ModelService)
    requires !IsTruthy(transcript)
    ensures NotesFor(transcript, generate1) == NotesFor(transcript, generate2) == NoTranscript
  {
  }

  /** A video whose transcript has no fragments is never summarized. */
  lemma NoFragmentsNoNotes(id: string, fetch: Transcript.TranscriptService, generate: Summarizer.ModelService)
    requires id != ""
    requires fetch(id) == Success([])
    ensures NotesFor(Transcript.FetchTranscript(Some(id), fetch), generate) == NoTranscript
  {
    Transcript.SuccessJoinsFragments(id, fetch, []);
    Transcript.JoinFragmentsLength([]);
  }

  /** A link the preview rejects, or an empty field, never yields notes, and
      neither service is consulted for it. */
  lemma RejectedLinkNoNotes(link: string, fetch: Transcript.TranscriptService, generate: Summarizer.ModelService)
    requires ShowPreview(link).InvalidUrl? || ShowPreview(link).NoInput?
    ensures GetDetailedNotes(link, fetch, generate) == NoTranscript
  {
    assert !IsTruthy(Resolver.GetVideoId(link)) by {
      if link == "" {
        UrlParse.EmptyHasNoNetloc(link);
        Resolver.NoNetlocUnresolved(link);
      }
    }
  }

  /** Notes are shown only for a link the preview accepts, and their summary
      was asked for with the prompt followed by the fragments' joined text. */
  lemma NotesComeFromTheVideo(link: string, fetch: Transcript.TranscriptService, generate: Summarizer.ModelService)
    requires GetDetailedNotes(link, fetch, generate).DetailedNotes?
    ensures ShowPreview(link).Thumbnail?
    ensures var id := Resolver.GetVideoId(link).value;
      && fetch(id).Success? && Transcript.JoinFragments(fetch(id).value) != ""
      && GetDetailedNotes(link, fetch, generate).summary
         == Summarizer.SelectText(generate(Summarizer.Request(Summarizer.ModelName,
              Summarizer.Prompt + Transcript.JoinFragments(fetch(id).value))))
  {
    assert link != "" by {
      if link == "" {
        UrlParse.EmptyHasNoNetloc(link);
        Resolver.NoNetlocUnresolved(link);
      }
    }
  }
}
