/** The scoring endpoint `POST /api/analyze-resume` (app/api/analyze-resume/route.js):
    validation of the request body, then a fixed set of heuristics over the
    resume text and the chosen job role. HTTP plumbing is abstracted into the
    `Outcome` datatype. */
module Scoring {
  import opened Options
  import opened Text

  const TEXT_REQUIRED := "Resume text is required."
  const KEYWORD_ADVICE := "Add more relevant keywords to better match the job role."
  const GOOD_MATCH := "Your resume matches the job role well!"
  const DETAIL_SUGGESTION := "Consider adding more detailed experience and skills."
  const KEYWORD_SUGGESTION_PREFIX := "Include keywords related to your target job role: "
  const PROOFREAD_SUGGESTION := "Proofread your resume for spelling and grammar."

  /** Role name (lower case) to the keywords a matching resume should mention. */
  const KEYWORDS: map<string, seq<string>> := map[
    "software developer" := ["JavaScript", "React", "Node", "API", "Git"],
    "data scientist" := ["Python", "Data", "Machine Learning", "Statistics"],
    "product manager" := ["Agile", "Scrum", "Roadmap", "Stakeholders"],
    "marketing" := ["SEO", "Content", "Social Media", "Campaign"],
    "sales" := ["CRM", "Leads", "Negotiation", "Quota"],
    "general" := []
  ]

  datatype JobRoleMatch = JobRoleMatch(matchPercentage: int, recommendation: string, missingKeywords: seq<string>)

  datatype AnalysisResult = AnalysisResult(
    overallScore: int,
    strength: string,
    wordCount: nat,
    readabilityScore: int,
    weakSections: seq<string>,
    jobRoleMatch: JobRoleMatch,
    suggestions: seq<string>)

  /** The three replies of the handler: 400 with an error message, 500 from the
      catch block, 200 with the analysis. */
  datatype Outcome = BadRequest(error: string) | InternalError | Ok(result: AnalysisResult)

  function Status(o: Outcome): (code: int)
    ensures 200 <= code < 300 <==> o.Ok?
    ensures o.BadRequest? ==> code == 400
    ensures o.InternalError? ==> code == 500
    ensures o.Ok? ==> code == 200
  {
    match o
    case BadRequest(_) => 400
    case InternalError => 500
    case Ok(_) => 200
  }

  /** `Math.min(100, Math.max(0, Math.floor(wordCount / 5)))`. */
  function OverallScore(wordCount: nat): (score: int)
    ensures 0 <= score <= 100
    ensures score == 100 <==> wordCount >= 500
    ensures wordCount < 500 ==> 5 * score <= wordCount < 5 * score + 5
  {
    var raw := wordCount / 5;
    var atLeastZero := if raw < 0 then 0 else raw;
    if atLeastZero > 100 then 100 else atLeastZero
  }

  function StrengthOf(score: int): (strength: string)
    ensures strength == "Strong" <==> score > 75
    ensures strength == "Moderate" <==> 50 < score <= 75
    ensures strength == "Weak" <==> score <= 50
  {
    if score > 75 then "Strong" else if score > 50 then "Moderate" else "Weak"
  }

  /** `keywordsByRole[jobRole.toLowerCase()] || []`. */
  function RequiredKeywords(role: string): (keywords: seq<string>)
    ensures |keywords| <= 5
    ensures Lower(role) !in KEYWORDS ==> keywords == []
    ensures Lower(role) == "general" ==> keywords == []
    ensures Lower(role) in KEYWORDS && Lower(role) != "general" ==> |keywords| >= 4
  {
    var key := Lower(role);
    if key in KEYWORDS then KEYWORDS[key] else []
  }

  /** `a` is `b` with some elements left out, in the same order. */
  ghost predicate IsSubsequence(a: seq<string>, b: seq<string>)
    decreases |b|
  {
    a == [] || (b != [] && ((a[0] == b[0] && IsSubsequence(a[1..], b[1..])) || IsSubsequence(a, b[1..])))
  }

  /** The keyword is found, ignoring case, anywhere in the resume text. */
  function Mentions(text: string, keyword: string): (found: bool)
    ensures found <==> Occurs(Lower(text), Lower(keyword))
  {
    ContainsIff(Lower(text), Lower(keyword));
    Contains(Lower(text), Lower(keyword))
  }

  /** `requiredKeywords.filter(k => !text.toLowerCase().includes(k.toLowerCase()))`. */
  function MissingKeywords(keywords: seq<string>, text: string): (missing: seq<string>)
    ensures |missing| <= |keywords|
    ensures IsSubsequence(missing, keywords)
    ensures forall k :: k in missing <==> k in keywords && !Mentions(text, k)
    ensures missing == [] <==> forall k :: k in keywords ==> Mentions(text, k)
    ensures forall k :: multiset(missing)[k] == if Mentions(text, k) then 0 else multiset(keywords)[k]
  {
    if keywords == [] then []
    else
      var rest := MissingKeywords(keywords[1..], text);
      assert keywords == [keywords[0]] + keywords[1..];
      assert multiset(keywords) == multiset{keywords[0]} + multiset(keywords[1..]);
      if Mentions(text, keywords[0]) then rest
      else
        assert multiset([keywords[0]] + rest) == multiset{keywords[0]} + multiset(rest);
        [keywords[0]] + rest
  }

  /** Percentage of required keywords found, rounded down; 100 when nothing is
      required. */
  function MatchPercentage(required: nat, missing: nat): (p: int)
    requires missing <= required
    ensures 0 <= p <= 100
    ensures p == 100 <==> missing == 0
    ensures required <= 100 ==> (p == 0 <==> missing == required && required > 0)
    ensures required > 0 ==> p * required <= (required - missing) * 100 < (p + 1) * required
  {
    if required > 0 then
      PercentOf(required - missing, required);
      (required - missing) * 100 / required
    else 100
  }

  /** Division facts behind `MatchPercentage`, for `found` of `n` keywords. */
  lemma PercentOf(found: nat, n: nat)
    requires found <= n && n > 0
    ensures var p := found * 100 / n;
      p * n <= found * 100 < (p + 1) * n && 0 <= p <= 100 &&
      (p == 100 <==> found == n) && (n <= 100 ==> (p == 0 <==> found == 0))
  {
    var x := found * 100;
    var p := x / n;
    var q := x % n;
    assert x == p * n + q && 0 <= q < n;
    assert (p + 1) * n == p * n + n;
    assert x <= n * 100;
    MulLtCancel(0, p + 1, n);
    MulLeCancel(p, 100, n);
    if found == n {
      assert x == 100 * n;
      MulLtCancel(100, p + 1, n);
    } else {
      assert x < 100 * n;
      MulLtCancel(p, 100, n);
    }
    if found == 0 {
      MulLeCancel(p, 0, n);
    } else if n <= 100 {
      assert 1 * n <= x;
      MulLtCancel(1, p + 1, n);
    }
  }

  lemma MulLeCancel(a: int, b: int, n: int)
    requires n > 0
    ensures a * n <= b * n ==> a <= b
  {
    if a > b {
      assert a * n - b * n == (a - b) * n;
    }
  }

  lemma MulLtCancel(a: int, b: int, n: int)
    requires n > 0
    ensures a * n < b * n ==> a < b
  {
    if a >= b {
      assert a * n - b * n == (a - b) * n;
    }
  }


  function Recommendation(matchPercentage: int): (text: string)
    ensures text == KEYWORD_ADVICE <==> matchPercentage < 80
    ensures text == GOOD_MATCH <==> matchPercentage >= 80
  {
    if matchPercentage < 80 then KEYWORD_ADVICE else GOOD_MATCH
  }

  /** `Math.floor(100 - wordCount / 10)`: never clamped. */
  function Readability(wordCount: nat): (r: int)
    ensures 10 * r <= 1000 - wordCount < 10 * r + 10
    ensures r <= 100
  {
    100 - (wordCount + 9) / 10
  }

  /** The template message that lists the missing keywords. */
  function KeywordSuggestion(missing: seq<string>): (message: string)
    ensures KEYWORD_SUGGESTION_PREFIX <= message
    ensures message[|message| - 1] == '.'
    ensures |missing| == 1 ==> message == KEYWORD_SUGGESTION_PREFIX + missing[0] + "."
    ensures message[|KEYWORD_SUGGESTION_PREFIX|..|message| - 1] == Join(missing, ", ")
  {
    KEYWORD_SUGGESTION_PREFIX + Join(missing, ", ") + "."
  }

  /** The keyword suggestion names every missing keyword. */
  lemma KeywordSuggestionNamesAll(missing: seq<string>, k: string)
    requires k in missing
    ensures Contains(KeywordSuggestion(missing), k)
  {
    JoinContainsEach(missing, ", ", k);
    ContainsWiden(KEYWORD_SUGGESTION_PREFIX, Join(missing, ", "), ".", k);
  }

  /** The suggestions list: detail advice for a low score, the missing
      keywords if any, and always the proofreading reminder last. */
  function Suggestions(score: int, missing: seq<string>): (s: seq<string>)
    ensures 1 <= |s| <= 3
    ensures |s| == 1 + (if score < 50 then 1 else 0) + (if missing != [] then 1 else 0)
    ensures s[|s| - 1] == PROOFREAD_SUGGESTION
    ensures s[0] == DETAIL_SUGGESTION <==> score < 50
    ensures KeywordSuggestion(missing) in s <==> missing != []
  {
    assert KeywordSuggestion(missing)[49] == ' ' && DETAIL_SUGGESTION[49] == 'l';
    (if score < 50 then [DETAIL_SUGGESTION] else [])
    + (if missing != [] then [KeywordSuggestion(missing)] else [])
    + [PROOFREAD_SUGGESTION]
  }

  /** The suggestions pushed one by one onto an initially empty list. */
  method BuildSuggestions(overallScore: int, missingKeywords: seq<string>) returns (suggestions: seq<string>)
    ensures suggestions == Suggestions(overallScore, missingKeywords)
  {
    suggestions := [];
    if overallScore < 50 {
      suggestions := suggestions + [DETAIL_SUGGESTION];
    }
    if |missingKeywords| > 0 {
      suggestions := suggestions + [KeywordSuggestion(missingKeywords)];
    }
    suggestions := suggestions + [PROOFREAD_SUGGESTION];
  }

  /** The metrics computed for text that passed validation. */
  function Report(text: string, role: string): (r: AnalysisResult)
    ensures Consistent(r)
  {
    var wordCount := WordCount(text);
    var score := OverallScore(wordCount);
    var required := RequiredKeywords(role);
    var missing := MissingKeywords(required, text);
    var matchPercentage := MatchPercentage(|required|, |missing|);
    AnalysisResult(
      score, StrengthOf(score), wordCount, Readability(wordCount), [],
      JobRoleMatch(matchPercentage, Recommendation(matchPercentage), missing),
      Suggestions(score, missing))
  }

  /** The handler as a function of the two request fields; `None` is a field
      that is absent from the body. */
  function Analyze(resumeText: Option<string>, jobRole: Option<string>): (o: Outcome)
    ensures o.BadRequest? <==> resumeText.None? || AllWs(resumeText.value)
    ensures o.BadRequest? ==> o.error == TEXT_REQUIRED
    ensures o.InternalError? <==> resumeText.Some? && !AllWs(resumeText.value) && jobRole.None?
  {
    if resumeText.None? || Trim(resumeText.value) == [] then BadRequest(TEXT_REQUIRED)
    else if jobRole.None? then InternalError
    else Ok(Report(resumeText.value, jobRole.value))
  }

  /** The handler step by step, as the route computes it. */
  method Post(resumeText: Option<string>, jobRole: Option<string>) returns (o: Outcome)
    ensures o == Analyze(resumeText, jobRole)
  {
    if resumeText.None? || |Trim(resumeText.value)| == 0 {
      return BadRequest(TEXT_REQUIRED);
    }
    var text := resumeText.value;
    var wordCount := WordCount(text);
    var overallScore := OverallScore(wordCount);
    var strength := StrengthOf(overallScore);
    var weakSections: seq<string> := [];

    if jobRole.None? {
      return InternalError;
    }
    var requiredKeywords := RequiredKeywords(jobRole.value);
    var missingKeywords := MissingKeywords(requiredKeywords, text);
    var matchPercentage := MatchPercentage(|requiredKeywords|, |missingKeywords|);
    var recommendation := Recommendation(matchPercentage);
    var readabilityScore := Readability(wordCount);

    var suggestions := BuildSuggestions(overallScore, missingKeywords);

    o := Ok(AnalysisResult(
      overallScore, strength, wordCount, readabilityScore, weakSections,
      JobRoleMatch(matchPercentage, recommendation, missingKeywords),
      suggestions));
    assert o == Ok(Report(text, jobRole.value));
  }

  /** The invariants every successful reply satisfies. */
  ghost predicate Consistent(r: AnalysisResult) {
    var m := r.jobRoleMatch;
    r.wordCount >= 1 &&
    0 <= r.overallScore <= 100 &&
    r.strength == StrengthOf(r.overallScore) &&
    r.weakSections == [] &&
    0 <= m.matchPercentage <= 100 &&
    (m.matchPercentage == 100 <==> m.missingKeywords == []) &&
    (m.recommendation == KEYWORD_ADVICE <==> m.matchPercentage < 80) &&
    |m.missingKeywords| <= 5 &&
    1 <= |r.suggestions| <= 3 &&
    r.suggestions[|r.suggestions| - 1] == PROOFREAD_SUGGESTION &&
    (r.suggestions[0] == DETAIL_SUGGESTION <==> r.overallScore < 50) &&
    (KeywordSuggestion(m.missingKeywords) in r.suggestions <==> m.missingKeywords != [])
  }

  /** Valid text with a role always gets a 200 reply, and the reply is
      consistent; its word count is the number of whitespace-separated runs. */
  lemma AnalyzeSucceeds(text: string, role: string)
    requires !AllWs(text)
    ensures Analyze(Some(text), Some(role)).Ok?
    ensures var r := Analyze(Some(text), Some(role)).result;
      Consistent(r) && r.wordCount == Runs(text)
  {
    WordCountIsRuns(text);
  }

  /** The role is looked up case-insensitively. */
  lemma RoleIgnoresCase(text: string, role1: string, role2: string)
    requires Lower(role1) == Lower(role2)
    ensures Report(text, role1) == Report(text, role2)
  {
  }

  /** `general` and roles missing from the table expect nothing, so the match
      is complete whatever the text says. */
  lemma NoKeywordsFullMatch(text: string, role: string)
    requires Lower(role) == "general" || Lower(role) !in KEYWORDS
    ensures var m := Report(text, role).jobRoleMatch;
      m.missingKeywords == [] && m.matchPercentage == 100 && m.recommendation == GOOD_MATCH
  {
  }

  /** A resume mentioning every keyword of its role matches completely. */
  lemma AllMentionedFullMatch(text: string, role: string)
    requires forall k :: k in RequiredKeywords(role) ==> Mentions(text, k)
    ensures var m := Report(text, role).jobRoleMatch;
      m.missingKeywords == [] && m.matchPercentage == 100 && m.recommendation == GOOD_MATCH
  {
  }

  /** With no keyword mentioned, every keyword is missing, in table order. */
  lemma {:induction false} NoneMentionedAllMissing(keywords: seq<string>, text: string)
    requires forall k :: k in keywords ==> !Mentions(text, k)
    ensures MissingKeywords(keywords, text) == keywords
  {
    if keywords != [] {
      assert keywords[0] in keywords;
      assert forall k :: k in keywords[1..] ==> k in keywords;
      NoneMentionedAllMissing(keywords[1..], text);
      calc {
        MissingKeywords(keywords, text);
        [keywords[0]] + MissingKeywords(keywords[1..], text);
        [keywords[0]] + keywords[1..];
        keywords;
      }
    }
  }

  /** A resume mentioning none of a listed role's keywords matches 0 percent. */
  lemma NoneMentionedZeroMatch(text: string, role: string)
    requires Lower(role) in KEYWORDS && Lower(role) != "general"
    requires forall k :: k in RequiredKeywords(role) ==> !Mentions(text, k)
    ensures var m := Report(text, role).jobRoleMatch;
      m.missingKeywords == RequiredKeywords(role) && m.matchPercentage == 0 &&
      m.recommendation == KEYWORD_ADVICE
  {
    NoneMentionedAllMissing(RequiredKeywords(role), text);
  }

  /** Fifty words under the general role: score 10, weak, readability 95, full
      match, and two suggestions. */
  lemma FiftyWordsGeneral(text: string)
    requires !AllWs(text) && Runs(text) == 50
    ensures var r := Analyze(Some(text), Some("general")).result;
      r.wordCount == 50 && r.overallScore == 10 && r.strength == "Weak" &&
      r.readabilityScore == 95 && r.jobRoleMatch.matchPercentage == 100 &&
      r.jobRoleMatch.missingKeywords == [] &&
      r.suggestions == [DETAIL_SUGGESTION, PROOFREAD_SUGGESTION]
  {
    WordCountIsRuns(text);
    LowerGeneral();
    assert RequiredKeywords("general") == [];
    assert MissingKeywords([], text) == [];
    assert Suggestions(10, []) == [DETAIL_SUGGESTION, PROOFREAD_SUGGESTION];
    assert Analyze(Some(text), Some("general")) == Ok(Report(text, "general"));
  }

  lemma LowerGeneral()
    ensures Lower("general") == "general"
  {
  }

}
