# Resume checker: scoring endpoint and form state, in Dafny

This project models the resume-feedback tool's one piece of logic, the
`POST /api/analyze-resume` handler. The handler takes resume text and a job
role. It rejects blank text. Otherwise it computes a word count, an overall
score and its strength label, the keywords of the role that the resume does
not mention, a match percentage and recommendation, an unclamped readability
score and an ordered list of suggestions. The model also covers the client
form's two score classifiers (`getScoreColor`, `getScoreBg`) and its state:
the text, the role, the last analysis and the loading flag.

Modules:

- `Text` (`text.dfy`): the JavaScript string primitives the handler uses, on
  `seq<char>`. These are `\s` and `trim()` over the ECMAScript whitespace and
  line-terminator set, `split(/\s+/)`, ASCII `toLowerCase()`, `includes()` and
  `join()`. Two of them come with an independent reference: maximal
  non-whitespace runs for `split`, and a position of occurrence for
  `includes`.
- `Scoring` (`scoring.dfy`): the handler. `Analyze` is the handler as a
  function of the two request fields. It returns `BadRequest`,
  `InternalError` or `Ok(AnalysisResult)`. Each metric is its own function
  whose contract says what the number or text means. `Post` and
  `BuildSuggestions` compute the reply step by step, as the route does, and
  are proved equal to `Analyze` and `Suggestions`.
- `Checker` (`checker.dfy`): the client component. It has the two band
  classifiers, and a `ResumeChecker` class whose fields are the component's
  state hooks. Its methods are the state transitions: edit, choose a role,
  upload, begin and finish an analysis.
- `Options` (`options.dfy`): `Option`, used for request fields that may be
  absent.

`Math.floor(100 - wordCount / 10)` on floating-point numbers is
`100 - ceil(wordCount / 10)`, not `100 - floor(wordCount / 10)`: 15 words give
98, not 99.

## Model

| member | source | states |
|---|---|---|
| `Scoring.Analyze` | app/api/analyze-resume/route.js:5-10 | Missing or whitespace-only text gives the 400 reply "Resume text is required." and nothing else does. Valid text with a missing role gives the internal-error reply, because `jobRole.toLowerCase()` throws. |
| `Scoring.Post` | app/api/analyze-resume/route.js:5-77 | The handler computed step by step, one metric after another, returns exactly `Analyze` of its inputs. |
| `Scoring.Status` | app/api/analyze-resume/route.js:79-90 | An outcome has a 2xx status exactly when it is the successful analysis: 400 for bad input, 500 for the catch path, 200 for a result. |
| `Text.Trim` | app/api/analyze-resume/route.js:5 | `trim()` leaves no whitespace at either end of its result. The result is empty exactly when the input is all whitespace. |
| `Text.TrimFramed` | app/api/analyze-resume/route.js:5 | The result of `trim()` is an infix of the input, and what it cuts off on either side is whitespace only. |
| `Text.Split` | app/api/analyze-resume/route.js:13 | `split(/\s+/)` returns at least one piece, and no piece contains whitespace. |
| `Text.SplitCountsRuns` | app/api/analyze-resume/route.js:13 | On trimmed non-empty text, `split(/\s+/)` yields exactly as many pieces as there are maximal non-whitespace runs. |
| `Text.RunsOfTrim` | app/api/analyze-resume/route.js:13 | Trimming does not change the number of non-whitespace runs. |
| `Text.WordCount` | app/api/analyze-resume/route.js:13 | `trim().split(/\s+/).length` is at least 1 for any text, and for non-blank text it equals the number of maximal non-whitespace runs. |
| `Text.WordCountIsRuns` | app/api/analyze-resume/route.js:13 | For non-blank text, `trim().split(/\s+/).length` equals the number of maximal non-whitespace runs in the original text, so it is at least 1. |
| `Scoring.OverallScore` | app/api/analyze-resume/route.js:14 | The score lies in 0..100. It is 100 exactly when there are at least 500 words. Below that it is the word count divided by 5, rounded down. |
| `Scoring.StrengthOf` | app/api/analyze-resume/route.js:15-16 | "Strong" exactly when the score is above 75. "Moderate" exactly when it is in 51..75. "Weak" exactly when it is at most 50. |
| `Scoring.RequiredKeywords` | app/api/analyze-resume/route.js:20-29 | The role is looked up in lower case. Unknown roles and `general` give no keywords. Every other table role gives 4 or 5 keywords. |
| `Scoring.MissingKeywords` | app/api/analyze-resume/route.js:31-33 | The result is an order-preserving subsequence of the keywords. It holds exactly the keywords whose lower-case form does not occur in the lower-cased text, each as many times as it appears in the keyword list. It is empty exactly when every keyword occurs. |
| `Text.Lower` | app/api/analyze-resume/route.js:29-32 | `toLowerCase()` keeps the length, maps each character on its own, leaves no ASCII capital behind and changes no character that is not an ASCII capital. |
| `Text.Contains` | app/api/analyze-resume/route.js:32 | `includes` holds when the pattern is a prefix of the text, and only when the pattern is no longer than the text. |
| `Scoring.Mentions` | app/api/analyze-resume/route.js:32 | A keyword is mentioned exactly when its lower-case form occurs at some position of the lower-cased text. |
| `Text.ContainsIff` | app/api/analyze-resume/route.js:32 | `includes` holds exactly when the pattern occurs at some position of the text. |
| `Scoring.MatchPercentage` | app/api/analyze-resume/route.js:35-41 | The percentage lies in 0..100. It is 100 exactly when nothing is missing, which includes an empty keyword list. For at most 100 keywords it is 0 exactly when all of them are missing. Otherwise it is the found share times 100, rounded down. |
| `Scoring.Recommendation` | app/api/analyze-resume/route.js:43-46 | The recommendation is the "add more relevant keywords" text exactly when the match is below 80. Otherwise it is the "matches well" text. |
| `Scoring.Readability` | app/api/analyze-resume/route.js:49 | The result is the largest integer not above `100 - wordCount/10`. It is at most 100, has no lower bound, and is never clamped. |
| `Scoring.Suggestions` | app/api/analyze-resume/route.js:52-63 | The list has 1 to 3 entries and always ends with the proofreading reminder. The detail advice comes first exactly when the score is below 50. The keyword advice appears exactly when some keyword is missing. |
| `Scoring.BuildSuggestions` | app/api/analyze-resume/route.js:52-63 | Pushing the messages one at a time onto an empty list gives exactly `Suggestions`. |
| `Text.Join` | app/api/analyze-resume/route.js:58-60 | Joining no elements gives the empty text. Otherwise the result starts with the first element, followed by the separator when there is more than one element. |
| `Text.JoinSnoc` | app/api/analyze-resume/route.js:58-60 | Appending an element to a non-empty list appends the separator and then that element to the joined text. Together with the single-element case this fixes the whole result: the elements in order, one separator between neighbours, nothing else. |
| `Scoring.KeywordSuggestion` | app/api/analyze-resume/route.js:57-61 | The keyword advice starts with "Include keywords related to your target job role: " and ends with a full stop. Between the prefix and the full stop lies exactly the list of missing keywords joined with ", ", in their order. For one missing keyword it is that prefix, the keyword and the full stop. |
| `Text.JoinContainsEach` | app/api/analyze-resume/route.js:58-60 | Every element of a list occurs in the list joined with any separator. |
| `Scoring.KeywordSuggestionNamesAll` | app/api/analyze-resume/route.js:57-61 | The keyword suggestion mentions every missing keyword. |
| `Scoring.Report` | app/api/analyze-resume/route.js:12-77 | The result for validated text is consistent: at least one word, score in 0..100 with its strength label, empty `weakSections`, match in 0..100 and 100 exactly when nothing is missing, recommendation by the 80 threshold, at most five missing keywords, and 1 to 3 suggestions ending with the proofreading reminder, with the detail and keyword advice present exactly when their conditions hold. |
| `Scoring.AnalyzeSucceeds` | app/api/analyze-resume/route.js:12-77 | Non-blank text with a role always gets a 200 reply. Its word count is the number of runs. Score, strength, match, recommendation and suggestions are mutually consistent, and `weakSections` is empty. |
| `Scoring.RoleIgnoresCase` | app/api/analyze-resume/route.js:29 | Two roles that agree in lower case give the same analysis. |
| `Scoring.NoKeywordsFullMatch` | app/api/analyze-resume/route.js:26-46 | For `general` and for roles outside the table, nothing is missing, the match is 100 and the recommendation is positive, whatever the text. |
| `Scoring.AllMentionedFullMatch` | app/api/analyze-resume/route.js:31-46 | A resume that mentions every keyword of its role, ignoring case, has nothing missing, a 100 match and the positive recommendation. |
| `Scoring.NoneMentionedAllMissing` | app/api/analyze-resume/route.js:31-33 | When no keyword is mentioned, the missing list is the whole keyword list in table order. |
| `Scoring.NoneMentionedZeroMatch` | app/api/analyze-resume/route.js:31-46 | For a table role other than `general`, a resume mentioning none of its keywords lists all of them as missing. Its match is 0 and it gets the keyword advice. |
| `Scoring.FiftyWordsGeneral` | app/api/analyze-resume/route.js:13-63 | Fifty words under `general` give: score 10, "Weak", readability 95, match 100, nothing missing, and the two suggestions, detail advice then proofreading. |
| `Checker.ScoreColor` | app/Components/Checker/Resume.js:57-62 | Green exactly for scores of 80 and above, yellow for 60..79, orange for 40..59, red below 40. |
| `Checker.ScoreBg` | app/Components/Checker/Resume.js:64-69 | The same four bands as `ScoreColor`, with the `bg-*-100` classes. |
| `Checker.SameBand` | app/Components/Checker/Resume.js:57-69 | For every score, the text colour and the background belong to the same band. |
| `Checker.ColorMonotone` | app/Components/Checker/Resume.js:57-62 | A higher score never gets a worse text colour. |
| `Checker.BgMonotone` | app/Components/Checker/Resume.js:64-69 | A higher score never gets a worse background. |
| `Checker.ResumeChecker.constructor` | app/Components/Checker/Resume.js:7-10 | Initial state: empty text, role `general`, no analysis, not loading. |
| `Checker.ResumeChecker.EditText` | app/Components/Checker/Resume.js:124 | Typing replaces the text and changes nothing else. |
| `Checker.ResumeChecker.SelectRole` | app/Components/Checker/Resume.js:166 | Choosing a role replaces the role and changes nothing else. |
| `Checker.ResumeChecker.UploadFile` | app/Components/Checker/Resume.js:13-24 | A `text/plain` file replaces the text with its content. Anything else leaves the state unchanged. |
| `Checker.ResumeChecker.ButtonDisabled` | app/Components/Checker/Resume.js:179 | The button is disabled exactly when loading, or when the text is entirely whitespace. |
| `Checker.ResumeChecker.BeginAnalyze` | app/Components/Checker/Resume.js:26-32 | Blank text issues no request and leaves `loading` and `analysis` unchanged. Otherwise `loading` becomes true, which disables the button, and the request carries the current text and role. |
| `Checker.ResumeChecker.FinishAnalyze` | app/Components/Checker/Resume.js:33-54 | `loading` ends false whatever the reply. The analysis changes only on a 2xx reply, and then becomes the delivered result. |
| `Checker.ResumeChecker.AnalyzeResume` | app/Components/Checker/Resume.js:26-55 | After a submit of non-blank text, `loading` is false. With the endpoint reachable, the analysis is the endpoint's report for the text and role. Without it, the analysis is the previous one. Blank text changes nothing. |
| `Checker.IssuedRequestSucceeds` | app/Components/Checker/Resume.js:40 | A request the form issues has non-blank text and always carries a role, so the endpoint never refuses it. |

## Left out

- HTTP and JSON plumbing (`req.json()`, `Response`, `JSON.stringify`, headers) is abstracted into the `Outcome` datatype. The client's `response.json()` is taken to return the result the endpoint built.
- A `resumeText` that is present but not a string is not represented: the model's request fields are optional strings, and an absent field is `None`. A falsy non-string (`0`, `NaN`, `false`, `null`) makes `!resumeText` true at app/api/analyze-resume/route.js:5 and gets the 400 reply, the same as `None` in the model. A truthy non-string (a non-zero number, `true`, an object or an array) makes `trim` throw and reaches the 500 path, which the model does not produce for any text.
- A `jobRole` that is present but not a string (a number or an array, say) makes `jobRole.toLowerCase()` throw at app/api/analyze-resume/route.js:29 and reach the 500 path. The model's role is an optional string, so only the absent role reaches that path.
- A role naming an inherited object property, such as `constructor`, reaches a non-array value in the table and throws in `.filter`. The model's table is a finite map with an empty default, so such roles get no keywords.
- Text.Lower: covers ASCII letters only. JavaScript's full Unicode `toLowerCase` is not modelled.
- Floating-point arithmetic is replaced by exact integer forms. The score is `wordCount / 5`. Readability is `100 - ceil(wordCount / 10)`.
- Scoring.MatchPercentage: computes `(n - m) * 100 / n` on integers. This agrees with the floating-point `Math.floor(((n - m) / n) * 100)` for the table's lists of at most five keywords. Rounding of that float expression for longer lists is not modelled.
- Rendering, JSX, `Head`, the paste/upload tab switch and CSS classes other than the two score classifiers are not modelled.
- Alerts, `console.error` and the `FileReader` callback are left out. `UploadFile` applies the file content at once instead of when the reader fires.
- Network I/O: `fetch` is either the reply passed to `FinishAnalyze` or, in `AnalyzeResume`, a reachability flag.
- Checker.ResumeChecker.BeginAnalyze: does not itself check `loading`, exactly as the source. A second submit while loading is prevented only by the disabled button, which `ButtonDisabled` models. Interleavings of several in-flight requests are not modelled.
