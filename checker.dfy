/** The client form (app/Components/Checker/Resume.js): the two score
    classifiers that pick the colours of the result panel, and the component
    state that the form mutates (text, role, last analysis, loading flag). */
module Checker {
  import opened Options
  import opened Text
  import Scoring

  /** The text colours of the score, from the worst band to the best. */
  const COLOR_SCALE := ["text-red-600", "text-orange-600", "text-yellow-600", "text-green-600"]

  /** The panel backgrounds of the score, from the worst band to the best. */
  const BG_SCALE := ["bg-red-100", "bg-orange-100", "bg-yellow-100", "bg-green-100"]

  /** `getScoreColor`. */
  function ScoreColor(score: int): (cls: string)
    ensures cls == "text-green-600" <==> score >= 80
    ensures cls == "text-yellow-600" <==> 60 <= score < 80
    ensures cls == "text-orange-600" <==> 40 <= score < 60
    ensures cls == "text-red-600" <==> score < 40
  {
    if score >= 80 then "text-green-600"
    else if score >= 60 then "text-yellow-600"
    else if score >= 40 then "text-orange-600"
    else "text-red-600"
  }

  /** `getScoreBg`. */
  function ScoreBg(score: int): (cls: string)
    ensures cls == "bg-green-100" <==> score >= 80
    ensures cls == "bg-yellow-100" <==> 60 <= score < 80
    ensures cls == "bg-orange-100" <==> 40 <= score < 60
    ensures cls == "bg-red-100" <==> score < 40
  {
    if score >= 80 then "bg-green-100"
    else if score >= 60 then "bg-yellow-100"
    else if score >= 40 then "bg-orange-100"
    else "bg-red-100"
  }

  /** Position of `cls` in `scale`, or -1 when it is not there. */
  function Rank(scale: seq<string>, cls: string): int {
    if scale == [] then -1
    else if scale[0] == cls then 0
    else var r := Rank(scale[1..], cls); if r < 0 then -1 else r + 1
  }

  /** Both classifiers pick the same band for every score. */
  lemma SameBand(score: int)
    ensures 0 <= Rank(COLOR_SCALE, ScoreColor(score)) == Rank(BG_SCALE, ScoreBg(score)) < 4
  {
  }

  /** A higher score never gets a worse text colour. */
  lemma ColorMonotone(a: int, b: int)
    requires a <= b
    ensures Rank(COLOR_SCALE, ScoreColor(a)) <= Rank(COLOR_SCALE, ScoreColor(b))
  {
  }

  /** A higher score never gets a worse background. */
  lemma BgMonotone(a: int, b: int)
    requires a <= b
    ensures Rank(BG_SCALE, ScoreBg(a)) <= Rank(BG_SCALE, ScoreBg(b))
  {
  }

  /** A file picked in the upload tab. */
  datatype TextFile = TextFile(mimeType: string, content: string)

  /** The JSON body posted to the scoring endpoint. */
  datatype Request = Request(resumeText: string, jobRole: string)

  /** What the awaited `fetch` brings back: the endpoint's reply, or nothing
      when the network fails. */
  datatype Reply = Delivered(outcome: Scoring.Outcome) | NetworkFailure

  /** The component's state hooks. The tab selector is left out: it does not
      affect what is submitted. */
  class ResumeChecker {
    var resumeText: string
    var jobRole: string
    var analysis: Option<Scoring.AnalysisResult>
    var loading: bool

    constructor ()
      ensures resumeText == [] && jobRole == "general" && analysis == None && !loading
    {
      resumeText := [];
      jobRole := "general";
      analysis := None;
      loading := false;
    }

    /** Typing in the text area. */
    method EditText(text: string)
      modifies this
      ensures resumeText == text
      ensures jobRole == old(jobRole) && analysis == old(analysis) && loading == old(loading)
    {
      resumeText := text;
    }

    /** Choosing a role in the selector. */
    method SelectRole(role: string)
      modifies this
      ensures jobRole == role
      ensures resumeText == old(resumeText) && analysis == old(analysis) && loading == old(loading)
    {
      jobRole := role;
    }

    /** `handleFileUpload`: a plain-text file replaces the text; anything else
        (or no file) is rejected and leaves the state as it was. */
    method UploadFile(file: Option<TextFile>)
      modifies this
      ensures file.Some? && file.value.mimeType == "text/plain" ==> resumeText == file.value.content
      ensures !(file.Some? && file.value.mimeType == "text/plain") ==> resumeText == old(resumeText)
      ensures jobRole == old(jobRole) && analysis == old(analysis) && loading == old(loading)
    {
      if file.Some? && file.value.mimeType == "text/plain" {
        resumeText := file.value.content;
      }
    }

    /** The `disabled` attribute of the analyze button. */
    function ButtonDisabled(): (disabled: bool)
      reads this
      ensures disabled <==> loading || forall i :: 0 <= i < |resumeText| ==> IsWs(resumeText[i])
    {
      loading || Trim(resumeText) == []
    }

    /** First half of `analyzeResume`, up to the awaited request: blank text
        is refused with no state change; otherwise `loading` is set and the
        request for the current text and role is issued. */
    method BeginAnalyze() returns (request: Option<Request>)
      modifies this
      ensures resumeText == old(resumeText) && jobRole == old(jobRole) && analysis == old(analysis)
      ensures AllWs(resumeText) ==> request == None && loading == old(loading)
      ensures !AllWs(resumeText) ==> request == Some(Request(resumeText, jobRole)) && loading
      ensures request.Some? ==> ButtonDisabled()
    {
      if Trim(resumeText) == [] {
        return None;
      }
      loading := true;
      request := Some(Request(resumeText, jobRole));
    }

    /** Second half of `analyzeResume`: a reply whose status is 2xx replaces the
        analysis; a failed request keeps the old one; either way `loading` is
        cleared. */
    method FinishAnalyze(reply: Reply)
      modifies this
      ensures !loading
      ensures reply.Delivered? && reply.outcome.Ok? ==> analysis == Some(reply.outcome.result)
      ensures !(reply.Delivered? && reply.outcome.Ok?) ==> analysis == old(analysis)
      ensures resumeText == old(resumeText) && jobRole == old(jobRole)
    {
      if reply.Delivered? {
        var status := Scoring.Status(reply.outcome);
        if 200 <= status < 300 {
          analysis := Some(reply.outcome.result);
        }
      }
      loading := false;
    }

    /** The whole of `analyzeResume` against the scoring endpoint; whether the
        endpoint can be reached is a parameter. A submitted text always gets
        its analysis when the endpoint answers. */
    method AnalyzeResume(reachable: bool)
      modifies this
      ensures resumeText == old(resumeText) && jobRole == old(jobRole)
      ensures AllWs(resumeText) ==> loading == old(loading) && analysis == old(analysis)
      ensures !AllWs(resumeText) ==> !loading
      ensures !AllWs(resumeText) && reachable ==> analysis == Some(Scoring.Report(resumeText, jobRole))
      ensures !reachable ==> analysis == old(analysis)
    {
      var request := BeginAnalyze();
      if request.Some? {
        var reply := NetworkFailure;
        if reachable {
          var outcome := Scoring.Post(Some(request.value.resumeText), Some(request.value.jobRole));
          reply := Delivered(outcome);
        }
        FinishAnalyze(reply);
      }
    }
  }

  /** A request the form issues is never refused by the endpoint: the text is
      not blank and the role is always sent. */
  lemma IssuedRequestSucceeds(request: Request)
    requires !AllWs(request.resumeText)
    ensures Scoring.Analyze(Some(request.resumeText), Some(request.jobRole)).Ok?
  {
  }
}
