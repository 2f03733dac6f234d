/** The transcript fetcher `extract_transcript_details` (app.py): resolve the
    identifier, ask the transcript service for the caption fragments, and
    join their texts with single spaces in the order returned. */
module Transcript {
  import opened Wrappers
  import opened Text
  import Resolver

  /** One caption fragment as the transcript service returns it. The timing
      fields are carried but never read. */
  datatype Fragment = Fragment(text: string, start: real, duration: real)

  /** The transcript service, `YouTubeTranscriptApi.get_transcript`: for a
      video identifier, the fragments in the order returned, or a failure
      (no captions, an unknown video, a network error) with its message. */
  type TranscriptService = string -> Result<seq<Fragment>, string>

  /** The `text` field of each fragment, in order. */
  function Texts(fragments: seq<Fragment>): (r: seq<string>)
    ensures |r| == |fragments|
    ensures forall i :: 0 <= i < |fragments| ==> r[i] == fragments[i].text
  {
    seq(|fragments|, i requires 0 <= i < |fragments| => fragments[i].text)
  }

  /** The transcript text: the fragments' texts joined by single spaces. */
  function JoinFragments(fragments: seq<Fragment>): (r: string)
    ensures |fragments| == 0 ==> r == ""
    ensures |fragments| == 1 ==> r == fragments[0].text
  {
    Join(Texts(fragments), " ")
  }

  /** The part of `extract_transcript_details` after the identifier is
      known: a missing or empty identifier ends the call before the service
      is asked; any failure of the service becomes None; success gives the
      joined text. */
  function FetchTranscript(id: Option<string>, fetch: TranscriptService): (r: Option<string>)
    ensures !IsTruthy(id) ==> r.None?
    ensures IsTruthy(id) ==> (r.Some? <==> fetch(id.value).Success?)
  {
    match id
    case None => None
    case Some(v) =>
      if v == "" then None
      else match fetch(v)
        case Failure(_) => None
        case Success(fragments) => Some(JoinFragments(fragments))
  }

  /** `extract_transcript_details(url)`: the identifier the link names, then
      the transcript for it. */
  function ExtractTranscriptDetails(url: string, fetch: TranscriptService): (r: Option<string>)
    ensures !IsTruthy(Resolver.GetVideoId(url)) ==> r.None?
    ensures IsTruthy(Resolver.GetVideoId(url)) ==>
      (r.Some? <==> fetch(Resolver.GetVideoId(url).value).Success?)
  {
    FetchTranscript(Resolver.GetVideoId(url), fetch)
  }

  /** Without a usable identifier the result does not depend on the
      transcript service at all: it is never consulted. */
  lemma ServiceNotConsultedWithoutId(id: Option<string>, fetch1: TranscriptService, fetch2: TranscriptService)
    requires !IsTruthy(id)
    ensures FetchTranscript(id, fetch1) == FetchTranscript(id, fetch2) == None
  {
  }

  /** The service is asked about the identifier and nothing else: two
      services that agree on it give the same result. */
  lemma ServiceAskedOnlyAboutId(id: string, fetch1: TranscriptService, fetch2: TranscriptService)
    requires fetch1(id) == fetch2(id)
    ensures FetchTranscript(Some(id), fetch1) == FetchTranscript(Some(id), fetch2)
  {
  }

  /** On success the text is exactly the fragments' texts joined by single
      spaces, in the order the service returned them. */
  lemma SuccessJoinsFragments(id: string, fetch: TranscriptService, fragments: seq<Fragment>)
    requires id != ""
    requires fetch(id) == Success(fragments)
    ensures FetchTranscript(Some(id), fetch) == Some(JoinFragments(fragments))
  {
  }

  /** Every service failure collapses to None. */
  lemma FailureCollapses(id: string, fetch: TranscriptService)
    requires fetch(id).Failure?
    ensures FetchTranscript(Some(id), fetch) == None
  {
  }

  /** The transcript is as long as the texts plus one space between each two
      fragments; no fragments give the empty text. */
  lemma JoinFragmentsLength(fragments: seq<Fragment>)
    ensures |fragments| == 0 ==> JoinFragments(fragments) == ""
    ensures |fragments| >= 1 ==> |JoinFragments(fragments)| == TotalLength(Texts(fragments)) + |fragments| - 1
  {
    JoinLength(Texts(fragments), " ");
  }

  /** When no fragment text holds a space, splitting the transcript at spaces
      gives back the fragments' texts in order: the join loses nothing and
      reorders nothing. */
  lemma JoinFragmentsInOrder(fragments: seq<Fragment>)
    requires |fragments| >= 1
    requires forall i :: 0 <= i < |fragments| ==> ' ' !in fragments[i].text
    ensures Split(JoinFragments(fragments), ' ') == Texts(fragments)
  {
    SplitJoin(Texts(fragments), ' ');
  }

  /** Where the `k`-th fragment's text starts in the transcript: the texts
      before it and one space after each of them. */
  function TextOffset(fragments: seq<Fragment>, k: nat): (r: nat)
    requires k <= |fragments|
  {
    TotalLength(Texts(fragments)[..k]) + k
  }

  /** Whatever the fragments hold, spaces included, each fragment's text
      appears whole at its offset in the transcript, and every fragment but
      the last is followed by exactly one space. */
  lemma JoinFragmentsPlaces(fragments: seq<Fragment>, k: nat)
    requires k < |fragments|
    ensures TextOffset(fragments, k) + |fragments[k].text| <= |JoinFragments(fragments)|
    ensures JoinFragments(fragments)[TextOffset(fragments, k)..TextOffset(fragments, k) + |fragments[k].text|]
      == fragments[k].text
    ensures k < |fragments| - 1 ==>
      && TextOffset(fragments, k) + |fragments[k].text| < |JoinFragments(fragments)|
      && JoinFragments(fragments)[TextOffset(fragments, k) + |fragments[k].text|] == ' '
  {
    var texts := Texts(fragments);
    JoinPlaces(texts, " ", k);
    assert Offset(texts, " ", k) == TextOffset(fragments, k);
    if k < |fragments| - 1 {
      var e := TextOffset(fragments, k) + |fragments[k].text|;
      assert JoinFragments(fragments)[e..e + 1] == " ";
    }
  }

  /** Two fragments "Hello" and "world" give "Hello world". */
  lemma HelloWorld()
    ensures JoinFragments([Fragment("Hello", 0.0, 1.5), Fragment("world", 1.5, 1.0)]) == "Hello world"
  {
    var texts := Texts([Fragment("Hello", 0.0, 1.5), Fragment("world", 1.5, 1.0)]);
    assert texts == ["Hello", "world"];
    assert texts[1..] == ["world"];
  }
}
