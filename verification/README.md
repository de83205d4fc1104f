# PeerPrep core, modelled in Dafny

PeerPrep is a collaborative coding-interview platform. Two matched users share a room. They edit code together, chat with each other and with an assistant, and run their solution against the question's test cases. This project models the parts of the system that hold its decision logic. Each part is a pure function over immutable data, with contracts and lemmas stating what it guarantees.

- **Collaboration session coordinator** (`CollabSession`). This is the socket server's event handling, written as one `Step(state, event)` function.
  - The state holds each socket's bound username and room, the username → latest-timer map, and the set of armed grace timers.
  - It also holds the per-room human and assistant chat histories, the assistant requests in flight, and an abstract room registry.
  - Real time is replaced by explicit `TimerFire` events. The assistant's answer arrives as a separate `BotReply` event.
- **Question service** (`QuestionController`). Title normalisation, field validation, topic normalisation, the image lists of create/update, and the room → question choice.
- **Code execution client** (`CodeExecution`). The string transforms that build the test program and compare outputs, plus the bounded retry loop on HTTP 429.
- **User service** (`ControllerUtils`, `AuthController`, `UserController`, with the shared record in `Accounts`):
  - the password rule, hashing and one-time passwords;
  - profile-image naming;
  - login and email verification;
  - sign-up, update, privilege change and profile visibility.
- **Client helpers**:
  - the session countdown and partner popup (`CollabPage`);
  - the create- and edit-question dialogs (`CreateQuestionDialog`, `EditQuestionDialog`);
  - the question table's paging (`QuestionTable`).

Shared modules:
- `Wrappers` holds `Option` and `Result`.
- `Text` models the JavaScript string operations the code relies on: `\s`, `trim`, `split`/`join` on one character, and decimal rendering.
- `Json` holds request-body values and JavaScript truthiness.

Database lookups, bcrypt, JWT decoding, `JSON.parse`, `validateEmail`, `isValidObjectId`, `isNaN`, file uploads, randomness and the clock are all parameters. The room registry and the continue-vote tracker are a record of uninterpreted functions.

## Model

| member | source | states |
|---|---|---|
| CollabSession.OnConnect | backend/collab-backend/socketHandlers.js:17-18 | a new socket starts with no username and no room; nothing else changes |
| CollabSession.OnAddUser | backend/collab-backend/socketHandlers.js:21-30 | binds the username to the socket; removes that username's timer entry and disarms exactly the timer it named; every other field, the timer and request counters included, is unchanged |
| CollabSession.OnJoinRoom | backend/collab-backend/socketHandlers.js:33-55 | binds the room and adds the user to the registry, and changes no other field; creates missing human and assistant histories empty and never resets an existing one; the joining socket receives exactly the room's chat history; `start-timer` goes to the room if and only if the registry then counts exactly two users |
| CollabSession.OnChatMessage | backend/collab-backend/socketHandlers.js:58-74 | a no-op unless the socket has both a room and a username; otherwise `{username, content}` is appended at the end of that room's history, other rooms are unchanged, and one emit goes to the whole room including the sender; a deleted history makes the handler throw |
| CollabSession.OnBotChat | backend/collab-backend/socketHandlers.js:77-88 | a no-op unless both are bound; otherwise records the pending request with its room and user message and takes the next request id; emits nothing and changes no other field |
| CollabSession.OnBotReply | backend/collab-backend/socketHandlers.js:89-117 | exactly one emit per answered request; a gateway failure, or a history deleted meanwhile, emits the apology and leaves the assistant history unchanged; a reply appends the reply text and then the user's message to that room only and emits the reply; only the pending requests and the assistant histories change |
| CollabSession.OnDisconnect | backend/collab-backend/socketHandlers.js:121-144 | arms a timer and records it as the username's latest if and only if both username and room are bound; an older entry is overwritten without disarming its timer; without a timer the counter stays put; every other field is unchanged |
| CollabSession.OnReconnect | backend/collab-backend/socketHandlers.js:147-150 | disarms the timer recorded for the username and keeps the map entry; nothing else changes |
| CollabSession.OnTimerFire | backend/collab-backend/socketHandlers.js:125-140 | tells the room's other sockets the user left, removes the user and deletes the username's entry even if a newer timer owns it; both histories are deleted (and the room cleaned up) if and only if removal reports the room empty; sockets, requests and counters are unchanged |
| CollabSession.OnContinueSession | backend/collab-backend/socketHandlers.js:153-155 | hands the vote to the vote tracker and emits what it emits; nothing else changes |
| CollabSession.InitInv | backend/collab-backend/socketHandlers.js:12-15 | the empty coordinator satisfies the invariant |
| CollabSession.StepInv | backend/collab-backend/socketHandlers.js:17-156 | every event preserves the invariant: ids stay below their counters, both history maps have the same rooms, and every armed timer belongs to a closed socket whose username and room are the ones the timer reads when it fires |
| CollabSession.RunInv | backend/collab-backend/socketHandlers.js:17-156 | the invariant holds after any sequence of events |
| CollabSession.RearmLeavesOlderTimerArmed | backend/collab-backend/socketHandlers.js:121-142 | two sockets of one user disconnect in turn and the user is added again; the older timer stays armed, still due to remove the user, while the map entry is gone |
| CollabSession.FireForgetsNewerTimer | backend/collab-backend/socketHandlers.js:125-131 | when an older timer fires, the newer timer's entry is deleted too, so a later add-user cannot disarm the newer timer |
| QuestionController.CollapseSpaces | backend/question-backend/controllers/question-controller.js:11 | `replace(/\s+/g, ' ')`: the only whitespace left is single spaces; a leading run becomes a leading space; non-space characters are kept in order |
| QuestionController.CollapseRun | backend/question-backend/controllers/question-controller.js:11 | a non-empty run of whitespace becomes exactly one space |
| QuestionController.CollapseAppend | backend/question-backend/controllers/question-controller.js:11 | collapsing distributes over a concatenation that does not join two whitespace runs, so each run is replaced on its own |
| QuestionController.NormalizeTitle | backend/question-backend/controllers/question-controller.js:10-12 | the result is lower case, has single spaces only and is trimmed, and keeps the non-space characters of the lower-cased title |
| QuestionController.NormalizeTitleFixesNormal | backend/question-backend/controllers/question-controller.js:10-12 | an already normal title is left unchanged |
| QuestionController.NormalizeTitleJoinsWords | backend/question-backend/controllers/question-controller.js:10-12 | two pieces of a title separated by any whitespace run come out normalised, joined by exactly one space |
| QuestionController.NormalizeTitleIdempotent | backend/question-backend/controllers/question-controller.js:10-12 | normalising twice equals normalising once |
| QuestionController.ParseIfString | backend/question-backend/controllers/question-controller.js:24-44 | only string values are parsed; a failed parse is reported, anything else passes through |
| QuestionController.ScanTestCases | backend/question-backend/controllers/question-controller.js:50 | all entries complete if and only if every entry has a non-empty input and expected_output |
| QuestionController.NormalizeTopic | backend/question-backend/controllers/question-controller.js:54-61 | an array of strings becomes the filter of its element-wise trims that keeps the non-empty ones; a string becomes a trimmed singleton or an empty list; a non-string element throws; anything else is rejected |
| QuestionController.TrimNonEmptyIsFilter | backend/question-backend/controllers/question-controller.js:54-56 | the topic list is exactly the trimmed entries, in order, with the empty ones dropped |
| QuestionController.ValidateQuestionFields | backend/question-backend/controllers/question-controller.js:14-69 | a missing title, description, difficulty or examples throws; a valid result carries the trimmed title, description and difficulty, the normalised topic and the untrimmed examples |
| QuestionController.CheckTestCases | backend/question-backend/controllers/question-controller.js:37-52 | valid if and only if the test cases are acceptable and the remaining checks pass; an unparsable string and a non-array each get their own message |
| QuestionController.CheckTopic | backend/question-backend/controllers/question-controller.js:54-68 | valid if and only if the remaining fields are present; an empty topic list fails with "All fields are required" |
| QuestionController.ValidIffAcceptable | backend/question-backend/controllers/question-controller.js:14-69 | validation succeeds if and only if the independent `Acceptable` definition holds |
| QuestionController.MissingDefaultCodeRejected | backend/question-backend/controllers/question-controller.js:32-35 | a missing or empty python, javascript or java starter code fails validation |
| QuestionController.NonArrayTestCasesRejected | backend/question-backend/controllers/question-controller.js:46-49 | truthy test cases that are not an array fail validation |
| QuestionController.EmptyTopicRejected | backend/question-backend/controllers/question-controller.js:63-66 | a topic that normalises to nothing fails with "All fields are required" |
| QuestionController.ImageUrls | backend/question-backend/controllers/question-controller.js:145 | an absent field is empty, a single value becomes a singleton (an empty one becomes empty), a list is kept |
| QuestionController.NonBlank | backend/question-backend/controllers/question-controller.js:121 | keeps exactly the non-blank entries |
| QuestionController.NonBlankAppend | backend/question-backend/controllers/question-controller.js:121 | filtering distributes over concatenation |
| QuestionController.HandleImages | backend/question-backend/controllers/question-controller.js:101-122 | the result is the supplied URLs and then the uploaded ones, each in input order with blanks dropped, and holds no blank string |
| QuestionController.ImagesToDelete | backend/question-backend/controllers/question-controller.js:124-131 | a URL is deleted if and only if it was an old image, is absent from the new list, and contains 'storage.googleapis.com' |
| QuestionController.ImagesToDeleteIsFilter | backend/question-backend/controllers/question-controller.js:124-131 | the deletions are the old list filtered in its order, so an old URL listed twice is deleted twice |
| QuestionController.CharCode | backend/question-backend/controllers/question-controller.js:308 | a code point's `charCodeAt(0)`: itself inside the basic plane, otherwise its high surrogate |
| QuestionController.RoomHashAppend | backend/question-backend/controllers/question-controller.js:308 | the room hash of a concatenation is the sum of the hashes |
| QuestionController.SelectQuestion | backend/question-backend/controllers/question-controller.js:308-321 | no match gives 404; otherwise the match at the room's index |
| QuestionController.QuestionIndex | backend/question-backend/controllers/question-controller.js:315 | the room hash modulo the number of matches always lies in [0, count) |
| QuestionController.SelectQuestionSymmetric | backend/question-backend/controllers/question-controller.js:308-315 | swapping the two halves of a room id selects the same question |
| CodeExecution.ExpandTabs | frontend/src/services/code-execution-service.js:45 | no tab is left and each tab becomes n characters, so the length grows by (n-1) per tab |
| CodeExecution.ExpandTabsNoTabs | frontend/src/services/code-execution-service.js:45 | text without tabs is unchanged |
| CodeExecution.ExpandTabsAppend | frontend/src/services/code-execution-service.js:45 | expansion distributes over concatenation, so all other characters and line breaks are kept |
| CodeExecution.ReplaceTabsIsExpandTabs | frontend/src/services/code-execution-service.js:43-46 | replacing line by line equals replacing in the whole text |
| CodeExecution.StripAssignments | frontend/src/services/code-execution-service.js:49 | `replace(/[\w\s]*=/g, '')` leaves no '=' and never lengthens the text |
| CodeExecution.StripAssignmentsDropsTarget | frontend/src/services/code-execution-service.js:49 | an assignment target made of word characters and spaces is removed together with its '=' |
| CodeExecution.StripAssignmentsNoEquals | frontend/src/services/code-execution-service.js:49 | text without '=' is unchanged |
| CodeExecution.StripAssignmentsKeepsPrefix | frontend/src/services/code-execution-service.js:49 | a prefix without '=' that ends outside `[\w\s]` is kept as it is in front of the rest's result |
| CodeExecution.StripAssignmentsDropsInnerTarget | frontend/src/services/code-execution-service.js:49 | a target of word characters and spaces after such a prefix is removed with its '=', and the prefix stays |
| CodeExecution.StripAssignmentList | frontend/src/services/code-execution-service.js:49 | `name=value,name=value…` becomes the values joined by ',' |
| CodeExecution.CleanInput | frontend/src/services/code-execution-service.js:48-50 | the result has no '=' and is trimmed; an input without '=' is only trimmed |
| CodeExecution.CleanInputOfAssignments | frontend/src/services/code-execution-service.js:48-50 | an assignment list such as `nums = [2,7], target = 9` is cleaned to its values joined by ',', trimmed |
| CodeExecution.FormatJavaInput | frontend/src/services/code-execution-service.js:52-64 | a double-quoted input is returned unchanged; a `[...]` input becomes `new int[]{` + trimmed parts joined by ", " + `}` |
| CodeExecution.FormatJavaFallThrough | frontend/src/services/code-execution-service.js:52-99 | an input that is not quoted, bracketed, braced, numeric or a boolean word passes every branch and is returned as is |
| CodeExecution.FormatJavaDeadBranches | frontend/src/services/code-execution-service.js:66-96 | the function equals the version without the matrix and ArrayList branches, which cannot be reached |
| CodeExecution.MatrixTakesArrayBranch | frontend/src/services/code-execution-service.js:60-72 | a `[[...]]` input is always formatted by the one-dimensional array branch |
| CodeExecution.ArrayLiteralRoundTrip | frontend/src/services/code-execution-service.js:60-64 | a bracketed comma list of trimmed items becomes `new int[]{` + the same items joined by ", " + `}` |
| CodeExecution.BooleanLowered | frontend/src/services/code-execution-service.js:88-91 | `true`/`false` in any letter case come out lower-cased |
| CodeExecution.TabWidth | frontend/src/services/code-execution-service.js:111-128 | 2 spaces per tab for javascript, 4 otherwise |
| CodeExecution.PrepareTestcaseCode | frontend/src/services/code-execution-service.js:106-140 | fails with "Unsupported language: " + language if and only if the language is not python, javascript or java; otherwise the program is the trimmed, tab-expanded source followed by the language's call line |
| CodeExecution.TightenEstablishes | frontend/src/services/code-execution-service.js:144-148 | after one `\s*x\s*` replacement no whitespace touches x |
| CodeExecution.TightenPreserves | frontend/src/services/code-execution-service.js:144-148 | a later replacement keeps the earlier ones' property |
| CodeExecution.DoubleQuotes | frontend/src/services/code-execution-service.js:149 | no single quote is left; each becomes a double quote and everything else is kept |
| CodeExecution.NormalizeOutputShape | frontend/src/services/code-execution-service.js:142-151 | the output has no whitespace next to `, [ ] ( )`, no single quote, and is trimmed |
| CodeExecution.NormalizeOutputKeepsContent | frontend/src/services/code-execution-service.js:142-151 | normalising removes whitespace only: the non-space characters are those of the output with single quotes made double |
| CodeExecution.TightenKeepsContent | frontend/src/services/code-execution-service.js:144-148 | one `\s*x\s*` replacement keeps every non-space character in order |
| CodeExecution.NormalizeOutputFixesNormal | frontend/src/services/code-execution-service.js:142-151 | an already normal output is unchanged |
| CodeExecution.NormalizeOutputIdempotent | frontend/src/services/code-execution-service.js:142-151 | normalising twice equals normalising once |
| CodeExecution.NormalizeOutputAround | frontend/src/services/code-execution-service.js:142-151 | whitespace between two characters that are neither whitespace nor `, [ ] ( )` is kept as it is, and each side is normalised on its own, so `a b ,c` gives `a b,c` |
| CodeExecution.TightenAppend | frontend/src/services/code-execution-service.js:144-148 | one `\s*x\s*` replacement works on each side of a cut on its own when the side before ends, or the side after starts, with a character that is neither whitespace nor x |
| CodeExecution.TightenAllAround | frontend/src/services/code-execution-service.js:144-148 | the five replacements keep a whitespace run between two such characters, and keep those characters |
| CodeExecution.Answer | frontend/src/services/code-execution-service.js:171-189 | a result passes if and only if the normalised output equals the normalised expected output; any error other than 429 fails at once with its message |
| CodeExecution.RunTestcase | frontend/src/services/code-execution-service.js:160-193 | the loop computes the verdict and waits 1000, 2000, 4000 ms, one wait per 429 answer, over at most three attempts |
| CodeExecution.VerdictFirstAnswer | frontend/src/services/code-execution-service.js:163-190 | the verdict is the first answer that is not a 429 within three attempts |
| CodeExecution.VerdictGivesUp | frontend/src/services/code-execution-service.js:193 | three 429 answers give "Failed after retries" and a failed result |
| CodeExecution.VerdictPassedIff | frontend/src/services/code-execution-service.js:163-193 | a test passes if and only if some attempt within the limit is the first non-429 answer and its normalised output matches |
| CodeExecution.RunOne | frontend/src/services/code-execution-service.js:157-193 | one test fails exactly when the language is unsupported; otherwise its result is the test's verdict over its three attempts |
| CodeExecution.ExecuteWithTestcases | frontend/src/services/code-execution-service.js:153-197 | fails if and only if the language is unsupported and there is a test; otherwise there is one result per test, in order, each that test's verdict |
| ControllerUtils.PasswordCharListed | backend/user-backend/src/controller/controller-utils.js:93 | the accepted characters are letters, digits, `_`, `@$!%*#?&.` and the range `+`..`=`, so `, / : ; <` are accepted |
| ControllerUtils.ValidatePassword | backend/user-backend/src/controller/controller-utils.js:92-95 | accepts exactly strings of 8 to 20 accepted characters that contain an ASCII letter and a digit |
| ControllerUtils.SpaceRejected | backend/user-backend/src/controller/controller-utils.js:93 | a password containing a space is refused |
| ControllerUtils.HashPassword | backend/user-backend/src/controller/controller-utils.js:19-25 | a falsy password is returned unchanged, any other is hashed |
| ControllerUtils.GenerateSecureOtp | backend/user-backend/src/controller/controller-utils.js:147-157 | n characters, where character i is the digit `array[i] mod 10`; expiry is now + 900000 ms |
| ControllerUtils.LastPieceIsSuffix | backend/user-backend/src/controller/controller-utils.js:58 | `split("/").pop()` is the suffix after the last '/', and the whole string when there is none |
| ControllerUtils.ReplaceProfileImage | backend/user-backend/src/controller/controller-utils.js:48-69 | the old file is deleted if and only if the current image is not the default; a default request answers the default; an upload is saved as `<id>.<extension>` with its mimetype and answers the extension; no other storage operation is requested |
| AuthController.Login | backend/user-backend/src/controller/auth-controller.js:14-51 | the intended handler (see Findings): no password, or neither username nor email, gives 400; both identifiers give 400; a token is issued if and only if the user exists, the password matches and the account is verified |
| AuthController.LoginAsWritten | backend/user-backend/src/controller/auth-controller.js:11-50 | the handler as its imports read never logs anyone in: a refusal is the intended one, and the intended success becomes a 500 with the thrown message |
| AuthController.LoginAsWrittenFailsGoodCredentials | backend/user-backend/src/controller/auth-controller.js:11-50 | an existing, verified user with the right password, whom the intended handler logs in, gets the 500 |
| AuthController.MalformedLoginIgnoresAccounts | backend/user-backend/src/controller/auth-controller.js:17-21 | a malformed request gets the same 400 whatever the accounts and passwords are |
| AuthController.UnknownUserLooksLikeWrongPassword | backend/user-backend/src/controller/auth-controller.js:25-32 | an unknown user and a wrong password get the identical 401 |
| AuthController.UnverifiedRefused | backend/user-backend/src/controller/auth-controller.js:34-36 | correct credentials on an unverified account give 401 and no token |
| AuthController.VerifyEmailToken | backend/user-backend/src/controller/auth-controller.js:62-104 | no token gives 400, an expired one 401, a rejected one 403 and an unknown id 404; an unverified account is marked verified with its email untouched; for a verified account a token naming the pending address makes it the email and clears the pending one, a token naming the current email changes nothing, and any other gives 403; every reply but success changes nothing, and no other account changes |
| AuthController.PromotionReplayIsNoOp | backend/user-backend/src/controller/auth-controller.js:85-98 | after a promotion, replaying the same token succeeds and changes nothing |
| AuthController.VerifiedReplayIsNoOp | backend/user-backend/src/controller/auth-controller.js:85-98 | replaying a successful token whose email is now the account's email succeeds and changes nothing |
| AuthController.ResendVerification | backend/user-backend/src/controller/auth-controller.js:106-125 | no email gives 400 and no match gives 404; a link is sent if and only if the account exists and the address is not its verified primary email |
| AuthController.ResendToVerifiedSendsNothing | backend/user-backend/src/controller/auth-controller.js:115-116 | the verified primary address gets "User is already verified" and nothing is sent |
| UserController.TrimField | backend/user-backend/src/controller/user-controller.js:30-32 | `f && f.trim()`: an undefined field stays undefined and a non-empty one is trimmed |
| UserController.CreateUser | backend/user-backend/src/controller/user-controller.js:28-65 | missing fields give 400; an account is created, with trimmed fields and the hashed password, if and only if all fields are filled, email and password are well formed and there is no clash |
| UserController.EmailCheckedBeforePassword | backend/user-backend/src/controller/user-controller.js:35-39 | an invalid email is reported whatever the password is |
| UserController.ClashOrder | backend/user-backend/src/controller/user-controller.js:41-46 | a username clash is reported before an email clash, and a pending email counts as an email clash |
| UserController.UpdateUser | backend/user-backend/src/controller/user-controller.js:128-183 | succeeds if and only if every check passes; a refusal is the first failing check's reply and changes nothing; a success never changes the primary email or any other account; a link is sent if and only if a non-blank email other than the current one is stored as pending |
| UserController.Refusal | backend/user-backend/src/controller/user-controller.js:134-158 | no refusal if and only if every check passes; otherwise the first failing check in source order: no field, bad id, bad email, bad password, unknown user, username taken, email taken |
| UserController.Commit | backend/user-backend/src/controller/user-controller.js:160-169 | writes only defined fields, stores a new email as `tempEmail`, and keeps every other account |
| UserController.SameEmailSendsNothing | backend/user-backend/src/controller/user-controller.js:161-169 | updating to the current email stores no pending email and sends nothing |
| UserController.NewEmailIsPending | backend/user-backend/src/controller/user-controller.js:161-169 | a new email becomes `tempEmail`, the primary email stays and a link is sent |
| UserController.BlankPasswordClearsHash | backend/user-backend/src/controller/user-controller.js:130-167 | a password of blanks adds no refusal to a request the other checks accept; the update succeeds and the stored hash becomes empty |
| UserController.UpdateUserPrivilege | backend/user-backend/src/controller/user-controller.js:219-245 | a missing value gives 400 and an unknown user 404; otherwise only that account's `isAdmin` changes, to whether the value is boolean true |
| UserController.OnlyTrueGrants | backend/user-backend/src/controller/user-controller.js:233 | any value other than boolean true demotes, including the string "true" |
| UserController.Show | backend/user-backend/src/controller/controller-utils.js:27-46 | the full profile is id, username, email, signed image URL, history, flags and creation time; the partial one is username, image URL and creation time |
| UserController.ProfileHidesSecrets | backend/user-backend/src/controller/controller-utils.js:27-46 | no profile depends on the password hash or the pending email |
| UserController.GetUserById | backend/user-backend/src/controller/user-controller.js:67-90 | an invalid or unknown id gives 404; the profile shown is `Show`'s, full if and only if the requester is an administrator or the same user |
| UserController.GetUserByUsername | backend/user-backend/src/controller/user-controller.js:92-112 | an unknown username gives 404; the profile shown is `Show`'s, full if and only if the requester is an administrator or has that username |
| UserController.StrangerSeesOnlyPublicPart | backend/user-backend/src/controller/user-controller.js:81-83 | another non-administrator sees the same thing for two accounts if and only if they share username, image URL and creation time |
| CollabPage.JsRem | frontend/src/pages/Collab.jsx:281 | JavaScript `%` on a positive divisor: the remainder takes the dividend's sign |
| CollabPage.FormatTime | frontend/src/pages/Collab.jsx:279-283 | for 0 ≤ s < 6000 the result has five characters with ':' in the middle |
| CollabPage.FormatTimeReadsBack | frontend/src/pages/Collab.jsx:279-283 | the two fields read back as s div 60 and s mod 60, which recombine to s |
| CollabPage.Restart | frontend/src/pages/Collab.jsx:91-96 | start-timer resets the countdown to 180, clears time-over, runs a fresh interval and shows the snackbar |
| CollabPage.TickOnce | frontend/src/pages/Collab.jsx:170-177 | a tick returns previous − 1 and ends the interval and sets time-over exactly when previous ≤ 1; solo, partner-left and the snackbar are unchanged |
| CollabPage.Step | frontend/src/pages/Collab.jsx:91-101 | start-timer is the reset and user-left sets the partner flag; continue-alone (lines 271-276) is the reset plus the solo flag, and dismissing the popup (line 542) clears the partner flag |
| CollabPage.StepInv | frontend/src/pages/Collab.jsx:164-179 | the countdown is always idle at 180, running with 1..180 seconds left, or over at 0 |
| CollabPage.TicksRunOut | frontend/src/pages/Collab.jsx:170-177 | a running countdown of c seconds is over after exactly c ticks and unchanged by further ones |
| CollabPage.SessionLastsThreeMinutes | frontend/src/pages/Collab.jsx:171-179 | after start-timer, 179 ticks leave one second and the 180th ends the session |
| CollabPage.SoloHidesPartnerQuit | frontend/src/pages/Collab.jsx:539-544 | once solo, no later event shows the partner-quit popup |
| CollabPage.TimeOverHidesPartnerQuit | frontend/src/pages/Collab.jsx:539 | the partner-quit popup is hidden once time is over |
| CollabPage.Partner | frontend/src/pages/Collab.jsx:235 | the partner is whichever of user1 and user2 is not the current user |
| CreateQuestionDialog.InitialDraft | frontend/src/components/questions/CreateQuestionDialog.js:18-29 | difficulty Easy, no topics, no test cases, and empty code for exactly python, javascript and java |
| CreateQuestionDialog.AddTestCase | frontend/src/components/questions/CreateQuestionDialog.js:49-51 | appends exactly one empty test case at the end |
| CreateQuestionDialog.RemoveTestCase | frontend/src/components/questions/CreateQuestionDialog.js:53-56 | drops exactly entry i and keeps the rest in order; an index outside the list removes nothing |
| CreateQuestionDialog.AddThenRemoveLast | frontend/src/components/questions/CreateQuestionDialog.js:49-56 | removing the added row restores the list |
| CreateQuestionDialog.ChangeTestCase | frontend/src/components/questions/CreateQuestionDialog.js:43-47 | changes only the named field of entry i and keeps the length; an index outside the list throws |
| CreateQuestionDialog.ChangeDefaultCode | frontend/src/components/questions/CreateQuestionDialog.js:58-60 | only the given language's code changes |
| CreateQuestionDialog.DefaultCodeKeepsLanguages | frontend/src/components/questions/CreateQuestionDialog.js:58-60 | a code change keeps exactly the python, javascript and java entries |
| CreateQuestionDialog.ImageParts | frontend/src/components/questions/CreateQuestionDialog.js:76 | at least one part, each comma-free and trimmed, whose join keeps the field's non-space characters in order |
| CreateQuestionDialog.ImagePartsRejoin | frontend/src/components/questions/CreateQuestionDialog.js:76 | the parts rejoined by ',' give the field back when its entries have no surrounding blanks |
| CreateQuestionDialog.BlankImageFieldSendsNothing | frontend/src/components/questions/CreateQuestionDialog.js:76-77 | a blank field sends one empty URL, which the question service drops |
| EditQuestionDialog.InitialForm | frontend/src/components/questions/EditQuestionDialog.js:18-27 | topics and images are shown joined by ", "; difficulty defaults to Easy; title, description, input, expected output and LeetCode link are the question's or "" |
| EditQuestionDialog.InputChange | frontend/src/components/questions/EditQuestionDialog.js:33-36 | the named field takes the value and no other field changes |
| EditQuestionDialog.TopicChange | frontend/src/components/questions/EditQuestionDialog.js:38-40 | the selection is stored joined by ", " as an input change of the topic field |
| EditQuestionDialog.Parts | frontend/src/components/questions/EditQuestionDialog.js:58-59 | on submit, split on ',' into at least one trimmed part; joined again by ',' they keep the field's non-space characters |
| EditQuestionDialog.ShownPartsRoundTrip | frontend/src/components/questions/EditQuestionDialog.js:21-58 | join then split and trim returns a non-empty list whose entries have no comma and no surrounding blanks |
| EditQuestionDialog.UnchangedSubmitKeepsLists | frontend/src/components/questions/EditQuestionDialog.js:21-59 | submitting the dialog unchanged returns the question's topics and images |
| EditQuestionDialog.EmptyListComesBackBlank | frontend/src/components/questions/EditQuestionDialog.js:21-58 | an empty list comes back as one empty entry |
| QuestionTable.PageRows | frontend/src/components/questions/QuestionTable.js:88-89 | the rows are exactly the questions from page·rpp on, at most rpp of them |
| QuestionTable.RowNumberIsPosition | frontend/src/components/questions/QuestionTable.js:91 | the displayed ID is the row's position in the whole list, from 1 |
| QuestionTable.NumbersContinueAcrossPages | frontend/src/components/questions/QuestionTable.js:91 | numbering continues from one full page to the next |
| QuestionTable.PagesCoverList | frontend/src/components/questions/QuestionTable.js:88-89 | walking enough pages in order lists every question exactly once |
| QuestionTable.ChangeRowsPerPage | frontend/src/components/questions/QuestionTable.js:28-31 | a new page size resets the page to 0 |
| QuestionTable.ChangePage | frontend/src/components/questions/QuestionTable.js:24-26 | the page becomes the chosen one and the page size is kept |
| QuestionTable.ChangePageShowsPage | frontend/src/components/questions/QuestionTable.js:24-91 | after a page change the first row shown is the question at position page·rpp, numbered page·rpp + 1 |
| QuestionTable.ResizeShowsFirstQuestion | frontend/src/components/questions/QuestionTable.js:28-31 | after a page-size change the first question shows first, numbered 1 |
| QuestionTable.RowShade | frontend/src/components/questions/QuestionTable.js:92-94 | the shade is chosen by the parity of the within-page index |
| QuestionTable.ShadesAlternate | frontend/src/components/questions/QuestionTable.js:92-94 | shading alternates from row to row |
| QuestionTable.DifficultyColour | frontend/src/components/questions/QuestionTable.js:123-126 | green, amber or red exactly for lower-cased easy, medium or hard, black otherwise |
| QuestionTable.DifficultyColourIgnoresCase | frontend/src/components/questions/QuestionTable.js:123-126 | the colour does not depend on letter case |
| QuestionTable.StoredDifficultiesColoured | frontend/src/components/questions/QuestionTable.js:123-126 | the spellings the create dialog stores, Easy, Medium and Hard, get green, amber and red |
| Text.JoinSplit | frontend/src/components/questions/EditQuestionDialog.js:58 | joining the pieces of a split with the separator gives the text back |
| Text.SplitJoin | frontend/src/components/questions/EditQuestionDialog.js:21-58 | splitting a join of separator-free pieces gives the pieces back |

## Findings

| source | as written | input that shows it | evidently intended | confidence | as-written member | corrected member |
|---|---|---|---|---|---|---|
| backend/user-backend/src/controller/auth-controller.js:11 | `formatFullUserResponse` is imported from `./user-controller.js`, which imports it from `./controller-utils.js` and does not export it; as an ES module the controller does not link, and with the name left undefined the success reply's call at line 46 throws and the `catch` at lines 48-49 answers 500 | an existing, verified user logging in with the right password | 200 with an access token and the full profile, importing from `./controller-utils.js` | not executed | AuthController.LoginAsWritten and AuthController.LoginAsWrittenFailsGoodCredentials | AuthController.Login |

## Left out

- Socket.IO delivery, Yjs document syncing, the Monaco binding, WebRTC voice chat, snackbars and rendering are browser or network I/O. Emits are symbolic targets (one socket, a room, a room except a socket), not delivered messages.
- `roomManager.js` and `sessionManager.js` are not part of this model. The room registry (add, remove reporting emptiness, count, cleanup) and the continue-vote tracker are uninterpreted functions, and no quorum semantics is assumed.
- The assistant gateway is an input. Each request's answer is either a reply text or a failure, and the `await` is split into a request event and a reply event. Real `setTimeout` timing becomes explicit timer-fire events.
- MongoDB queries are abstract lookups, or a map from id to account. `$set` is read as "a defined value is written, an undefined one is left out", and thrown database errors (the 500 replies) are not modelled.
- bcrypt, JWT signing and decoding, nodemailer, multer, Google Cloud Storage, the signed-URL helper and the Piston HTTP API are all foreign code. They appear as parameters or as effects in the result: the storage operations, the account a verification link goes to, and the per-attempt responses.
- The email-verification token is signed with `JWT_EMAIL_VERIFICATION` (controller-utils.js:142) but checked with `JWT_VERIFICATION` (auth-controller.js:70). The model starts after decoding, so whether a genuine token decodes depends on the deployment's two secrets.
- The signed read URL of a profile image comes from cloud storage. It is the `sign` function of an `ImageStore` parameter, together with the default image's name.
- The `data` of the update and login replies (the updated or logged-in profile and the access token) is not modelled; only the status, message, stored accounts and link are.
- `user-controller-utils.js`, which supplies the `sendVerificationEmail` used at auth-controller.js:119, is not part of this model. Sending is the returned account.
- `validateEmail`, an approximation of the addr-spec of section 3.4.1 of RFC 5322, is an opaque predicate. So are `isValidObjectId`, the `!isNaN` number test of `formatJavaInput` and `JSON.parse`.
- `DEFAULT_IMAGE` comes from `user-model.js`, which is not part of this model; it is a parameter. The cryptographic random words of the one-time password are an input sequence, and the clock is an input.
- The test cases of `executeCodeWithTestcases` run through `Promise.all`. They are modelled one after another; the results are independent, so the order of completion does not matter. `getLanguageVersion` is not modelled.
- The endpoints' HTTP plumbing is not modelled: `checkExistingQuestion`, the create, update, delete and list question handlers, `getAllUsers`, `deleteUser`, `addHistory`, `deleteHistory`, `handleVerifyToken` and the guard of `updateUserProfileImage`. Only the named decision logic is modelled.
- In the dialogs, building the `FormData` on submit, choosing files and the plain difficulty and topic setters of the create dialog are left out. Only their list and field logic is kept.
- `Text.ToLower` lower-cases ASCII letters only, whereas JavaScript's `toLowerCase` covers all of Unicode. Titles with non-ASCII capitals therefore normalise differently. For the words easy, medium, hard, true and false no non-ASCII character lowers to them, so colours and booleans are unaffected.
- `Text.IsSpace` is the character set of JavaScript's `\s` and of `trim`.
- Strings are sequences of code points. The room hash takes a code point's high surrogate as its `charCodeAt(0)`, as `Array.from` followed by `charCodeAt(0)` does.
- `CollabPage.FormatTime`: for negative seconds it computes what JavaScript does (floor division, truncating remainder), but its contract only speaks about 0 ≤ s < 6000.
- `CodeExecution.FormatJavaInput`: the contract states the quoted and array cases; the fall-through case is `FormatJavaFallThrough`. The object branch and the number branch are stated only by `FormatJavaDeadBranches` through `FormatJavaReachable`. The boolean branch is stated in `BooleanLowered`.
- `CodeExecution.NormalizeOutput` carries no contract of its own. Its promises are stated by lemmas: `NormalizeOutputShape`, `NormalizeOutputFixesNormal` and `NormalizeOutputIdempotent` for the shape, `NormalizeOutputKeepsContent` for the characters kept, and `NormalizeOutputAround` for which whitespace survives.
- `CollabSession.OnContinueSession` states only that the vote is passed on, since the vote logic is not part of this model.
