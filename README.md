# K12 smart-education platform: a Dafny model of its API core

The platform is a FastAPI application for school pupils. A pupil registers and
logs in (bcrypt password hashes, a seven-day JWT in a cookie or a `Bearer`
header). They submit maths questions, which an LLM solves step by step, and
essays, which it reviews. They can also chat with a tutor persona. Wrong
answers go into a wrong book that tracks practice and mastery. Statistics and
exercise recommendations are drawn from the knowledge points of the open
wrong questions.

This project models three parts of that core:

- **The data side of the API handlers** (`k12_platform/main.py`). The SQLite
  database becomes the class `K12Api.Store`, which holds one sequence per
  table and a stamp counter.
  - Each table is a sequence of rows. The row at index `i` has id `i + 1`,
    as SQLite numbers rows that are never deleted.
  - The stamp counter stands in for `datetime.now()` at insert time.
  - Every handler that commits is a method. Its contract states the whole new
    state as an update of the old snapshot, so "nothing else changes" is part
    of it. Every method keeps the invariant `Tables.Consistent`:
    - ids number the rows;
    - the stamps of the listed tables grow;
    - no username is taken twice;
    - no (user, question) pair has two wrong-book rows.
  - Each read-only handler is proved against the query functions of module
    `Tables`. Each of its loops is a method with invariants.
- **The LLM adapter** (`k12_platform/services/llm_service.py`), in module
  `LlmService`.
  - Each of the four tasks builds its request in a fixed way.
  - The code-fence extraction is stated two ways: as the code writes it, with
    `split`, and by positions. The two are proved equal.
  - Each task has a fixed result shape for a reply that does not decode, and
    another for a call that raised.
- **Authentication** (`k12_platform/services/auth_service.py`), in module
  `AuthService`:
  - the symmetric 72-character password cut;
  - the token payload and its expiry;
  - the choice of the cookie over the `Bearer` header;
  - the 401 dependency.

The supporting modules model the Python built-ins the code relies on, with
their exact semantics:

- `PyText`: `find`, `in`, `split`, `join`, `strip`, slicing, `str(int)`,
  `int(str)`.
- `PyDict`: an insertion-ordered `dict`.
- `Json`: decoded JSON values, with `in`, `.get` and the iteration `str.join`
  performs over them.
- `Rows`: filtering, `.first()`, `order_by(...desc())`, `offset`/`limit`.
- `WeakPoints`: the knowledge-point tally and Python's stable sort.

Outside code becomes parameters:

- the chat-completion endpoint (a `Completion` from the request to the reply
  text or the error text);
- `json.loads` and `json.dumps`;
- bcrypt (a hasher and a checker);
- the JWT library (an encoder, and a decoder that takes the current time);
- the current time wherever the code reads the clock.

The fence extraction cuts the reply at the first "```json" and then at the
next "```". When that "```" overlaps a later "```json" (four or more
backticks before `json`), the cut falls at that "```json" instead.
`LlmService.ExtractByPosition` states that case.

## Model

| member | source | states |
|---|---|---|
| PyText.Find | k12_platform/services/llm_service.py:63 | `find` gives the first index where the pattern occurs, and none exactly when it occurs nowhere |
| PyText.ContainsIff | k12_platform/services/llm_service.py:63 | `p in s` holds exactly when `p` occurs at some index of `s` |
| PyText.SplitSpec | k12_platform/services/llm_service.py:64 | the pieces of `split` join back to the text, and no piece holds the separator |
| PyText.SplitHead | k12_platform/services/llm_service.py:64 | the first piece is the text before the first separator, or all of it when there is none |
| PyText.SplitSecond | k12_platform/services/llm_service.py:64 | a second piece exists exactly when the separator occurs, and it runs from after the first separator to the next one |
| PyText.SplitJoinChar | k12_platform/main.py:259 | splitting a one-character join of pieces free of that character gives back exactly those pieces |
| PyText.JoinEmptySplit | k12_platform/main.py:259 | joining no points gives "", and splitting "" gives one empty piece, not none |
| PyText.Prefix | k12_platform/main.py:332 | `s[:n]` has length `min(len(s), n)` and is the front of `s` |
| PyText.StripSpec | k12_platform/main.py:540 | `strip` leaves a contiguous part of the text that has no whitespace at either end, and only whitespace is cut away |
| PyText.StripIdempotent | k12_platform/main.py:540 | stripping twice is stripping once |
| PyText.NatToString | k12_platform/main.py:185 | `str(id)` is a non-empty run of decimal digits without a leading zero |
| PyText.ParseIntOfNatToString | k12_platform/main.py:255 | `int(str(n)) == n`, so the `sub` claim reads back as the id it was made from |
| PyDict.GetSpec | k12_platform/main.py:542 | `get` finds a value exactly when the key is present, and the value is stored under that key |
| PyDict.SetSpec | k12_platform/main.py:542 | after `d[k] = v`, `k` maps to `v`, other keys keep their values, the key order is kept with a new key appended, and no key repeats |
| PyDict.GetOrSet | k12_platform/main.py:542 | `get(k', 0)` after `d[k] = v` is `v` for `k' == k` and unchanged otherwise |
| Json.PyIn | k12_platform/main.py:250 | `"error" in result` is key membership on a dict and raises for numbers, booleans and null |
| Json.StrItems | k12_platform/main.py:259 | a list joins exactly when every element is a string, and then its strings are the elements in order |
| LlmService.ExtractJsonByPosition | k12_platform/services/llm_service.py:63-66 | the `split`-based extraction equals the positional one: after the first "```json" up to the next "```" (or a "```json" overlapping it) or the end; else between the first two "```" or to the end; else the text |
| LlmService.CutBeforeJsonFence | k12_platform/services/llm_service.py:64 | when the tail holds a later "```json", the cut falls at the first "```", unless that fence overlaps the "```json", where it falls at the "```json" |
| LlmService.ExtractByPositionIsSlice | k12_platform/services/llm_service.py:63-66 | the positional extraction is one contiguous part of the reply |
| LlmService.ExtractJsonSpec | k12_platform/services/llm_service.py:63-67 | the extracted text holds no "```", it is a contiguous part of the reply, and a reply without a fence comes back unchanged |
| LlmService.ExtractJsonIdempotent | k12_platform/services/llm_service.py:63-67 | extracting twice is extracting once |
| LlmService.ErrorResult | k12_platform/services/llm_service.py:75-76 | the transport-error result is a dict whose only key is "error", holding the error text |
| LlmService.SolveFallback | k12_platform/services/llm_service.py:68-74 | the undecodable solve reply becomes the four keys in order: the extracted text as answer, no steps, no points, an empty tip |
| LlmService.ReviewFallback | k12_platform/services/llm_service.py:140-141 | the undecodable review reply becomes exactly the feedback text with score 0 |
| LlmService.SolveRequest | k12_platform/services/llm_service.py:21-58 | the system prompt comes first. Without an image the question follows as plain text. With one, a never-empty text part (the question, or the stock request) and a JPEG data URI from which the base64 text reads back. Temperature 0.7, 2000 tokens |
| LlmService.SolveMathQuestion | k12_platform/services/llm_service.py:19-76 | a raised call gives the "error"-only dict; an undecodable reply gives the fallback with the extracted text and no "error" key; otherwise the decoded value |
| LlmService.ReviewRequest | k12_platform/services/llm_service.py:80-131 | the rubric prompt, then one user text: a header naming the essay type and title, followed by the essay unchanged. Temperature 0.7, 2000 tokens |
| LlmService.ReviewEssay | k12_platform/services/llm_service.py:78-143 | a raised call gives the "error"-only dict; an undecodable reply gives exactly feedback plus score 0; otherwise the decoded value |
| LlmService.ChatRequest | k12_platform/services/llm_service.py:147-170 | one system message (the custom prompt when non-empty, else the persona), then the history unchanged and in order: `n + 1` messages. Temperature 0.8, 1000 tokens |
| LlmService.ChatSpec | k12_platform/services/llm_service.py:164-173 | chat returns the model's text, or the apology followed by exactly the error text; it never fails |
| LlmService.RecommendRequest | k12_platform/services/llm_service.py:177-204 | the fixed prompt, then the subject and the weak points joined by ", ". Temperature 0.8, 2000 tokens |
| LlmService.RecommendExercises | k12_platform/services/llm_service.py:175-216 | the decoded reply, or `[]` both when the call raises and when the reply does not decode |
| AuthService.Truncate | k12_platform/services/auth_service.py:19 | `password[:72]` is the first 72 characters, or the whole password when shorter |
| AuthService.TruncateSame | k12_platform/services/auth_service.py:19-24 | two passwords are cut alike exactly when they are equal or share their first 72 characters |
| AuthService.HashIgnoresTail | k12_platform/services/auth_service.py:16-19 | a password of 72 characters or more hashes the same whatever is appended to it |
| AuthService.VerifyIgnoresTail | k12_platform/services/auth_service.py:22-24 | verification makes the same cut: text after the 72nd character never changes whether a password is accepted |
| AuthService.VerifyHashed | k12_platform/services/auth_service.py:16-24 | a stored hash accepts its own password and every password sharing its first 72 characters |
| AuthService.TokenPayload | k12_platform/services/auth_service.py:29-31 | the signed claims are the data with "exp" set to issue time plus 10080 minutes; every other claim is kept and no claim is lost |
| AuthService.DecodeToken | k12_platform/services/auth_service.py:36-42 | the claims when the library accepts the token; none, never an exception, whenever it rejects it |
| AuthService.BearerTokenSpec | k12_platform/services/auth_service.py:50-51 | the bearer token is the text right after "Bearer ", it holds no space, and a space or the end follows it |
| AuthService.SelectToken | k12_platform/services/auth_service.py:47-54 | a non-empty cookie wins and the header is ignored; otherwise a header starting with "Bearer " gives its token; an empty token counts as none |
| AuthService.BearerRoundTrip | k12_platform/services/auth_service.py:49-51 | a `Bearer` header carrying a space-free token yields exactly that token |
| AuthService.EmptyAfterBearer | k12_platform/services/auth_service.py:50-51 | a header that is "Bearer " followed by nothing or by a space has an empty bearer token |
| AuthService.EmptyBearerToken | k12_platform/services/auth_service.py:49-54 | "Bearer " alone, or followed by a second space, selects no token |
| AuthService.GetCurrentUser | k12_platform/services/auth_service.py:45-60 | none exactly when no token is selected or it does not decode, else the decoded claims |
| AuthService.RequireAuth | k12_platform/services/auth_service.py:63-71 | a 401 with the login-expired text exactly when there is no current user, else the same claims |
| AuthService.IssuedTokenAuthenticates | k12_platform/services/auth_service.py:27-42 | an issued token in the cookie authenticates exactly until seven days after issue, with the issued claims plus "exp" |
| Rows.Filter | k12_platform/main.py:412-414 | a filter keeps only matching rows of the table and every matching row |
| Rows.FilterReverse | k12_platform/main.py:414 | filtering a reversed table is reversing the filtered table |
| Rows.ReverseFilterSplit | k12_platform/main.py:411-419 | a listing with two conditions is the one-condition listing filtered by the second, order kept |
| Rows.FirstIndex | k12_platform/main.py:168 | `.first()` is the first matching row, and none exactly when no row matches |
| Rows.FirstAppend | k12_platform/main.py:424 | a row added later does not change the first match when there already is one |
| Rows.Window | k12_platform/main.py:643-647 | `offset`/`limit` cut one contiguous run; a negative offset reads as 0; a negative limit as no limit |
| Rows.WindowPages | k12_platform/main.py:643-647 | with a positive limit, row `i` is on page `i / limit + 1` at position `i % limit` |
| Rows.WindowBelowFirstPage | k12_platform/main.py:643 | page 0 or a negative page shows the first page |
| Tables.DistinctUsernamesPairwise | k12_platform/main.py:168-181 | in a consistent store no two users share a name |
| Tables.DistinctWrongPairsPairwise | k12_platform/main.py:389-405 | in a consistent store no two wrong-book rows share a (user, question) pair |
| Tables.UsersIds | k12_platform/main.py:180-185 | the user at index `i` has id `i + 1` |
| Tables.UsersUpdate | k12_platform/main.py:626-629 | overwriting profile fields keeps ids and distinct names |
| Tables.WrongsUpdate | k12_platform/main.py:450-452 | changing a row's counters keeps ids, stamps and distinct pairs |
| Tables.QuestionsOrdered | k12_platform/main.py:645-647 | question stamps grow along the table |
| Tables.WrongsOrdered | k12_platform/main.py:412-414 | wrong-book stamps grow along the table |
| Tables.NewestFirst | k12_platform/main.py:414 | `order_by(created_at.desc())` of filtered rows is strictly newest first |
| Tables.QuestionOf | k12_platform/main.py:423 | the question found has the id asked for, and one is found whenever such a question exists; a null id finds none |
| Tables.AnswerOf | k12_platform/main.py:424 | the answer found belongs to the question, and one is found whenever such an answer exists |
| Tables.AnswerOfAppend | k12_platform/main.py:424 | adding an answer never changes the first answer a question already has |
| Tables.ListingsPartition | k12_platform/main.py:411-419 | the default listing and the mastered listing are the `include_mastered` listing split by the flag, each in its order |
| Tables.Render | k12_platform/main.py:423-437 | a row gives no entry when its question is missing; a 500 exactly when the question exists and its first answer's non-empty stored steps do not decode; otherwise an entry with the row's id, question id, practice count and stamp, the question's content, image and subject, the row's reason (open/full) or the question's knowledge points (mastered), and the first answer's content and decoded steps, or "" and `[]` without them |
| Tables.Entries | k12_platform/main.py:421-439 | a listing fails only with 500 and has at most one entry per row |
| Tables.EntriesMatchRows | k12_platform/main.py:421-437 | a listing that succeeds has one entry per row whose question exists, in row order, each showing that row and its question field by field as `Render` states |
| Tables.WithQuestionOrder | k12_platform/main.py:421-437 | skipping rows without a question keeps a newest-first order |
| Tables.RowTokens | k12_platform/main.py:536-542 | every token the statistics count is non-empty |
| Tables.RowTokensStep | k12_platform/main.py:536-542 | a row adds its question's stripped non-empty pieces when it has points, nothing otherwise |
| Tables.StrippedSetSpec | k12_platform/main.py:584-585 | the recommendation set holds the stripped form of every piece, the empty one included, and nothing else |
| Tables.LastSubject | k12_platform/main.py:578-582 | the subject is never empty |
| Tables.LastSubjectDefault | k12_platform/main.py:578-582 | without any found question the subject is "数学" |
| Tables.LastSubjectLast | k12_platform/main.py:579-582 | the subject is that of the last row whose question exists, when non-empty |
| Tables.HistoryOf | k12_platform/main.py:651-659 | a history entry shows its question's id, content, image, subject and stamp, and the content of the first answer recorded for that question, or "" when there is none |
| Tables.SessionHistorySpec | k12_platform/main.py:343-344 | the history sent to the model is exactly the session's messages in creation order, as role/content pairs |
| Tables.SessionHistoryAppend | k12_platform/main.py:338-344 | storing a message extends its own session's history by it and no other |
| WeakPoints.StrippedTokens | k12_platform/main.py:539-541 | the counted tokens are non-empty and at most one per piece |
| WeakPoints.PointTokens | k12_platform/main.py:538-541 | an empty knowledge-point string adds no token and no token is empty |
| WeakPoints.TallyAppend | k12_platform/main.py:542 | each token bumps its count in the running dict |
| WeakPoints.TallyPieceStep | k12_platform/main.py:539-542 | one more piece bumps the tally exactly when its stripped form is non-empty |
| WeakPoints.TallyCounts | k12_platform/main.py:535-542 | each token's tally is the number of times it occurs |
| WeakPoints.TallyKeys | k12_platform/main.py:535-542 | the dict's keys are the distinct tokens in first-seen order |
| WeakPoints.TallyUnique | k12_platform/main.py:535-542 | the tally holds each key once |
| WeakPoints.InsertDesc | k12_platform/main.py:544 | inserting adds exactly the one item |
| WeakPoints.SortByCount | k12_platform/main.py:544 | the sort is a permutation of the items |
| WeakPoints.InsertDescSorted | k12_platform/main.py:544 | inserting into a descending list keeps it descending |
| WeakPoints.InsertDescStable | k12_platform/main.py:544 | inserting keeps the relative order of equal counts |
| WeakPoints.SortByCountSpec | k12_platform/main.py:544 | `sorted(key=-count)` is descending, a permutation, and stable: ties keep first-seen order |
| WeakPoints.TopWeakSpec | k12_platform/main.py:544 | `weak_points` has at most five entries, all of them if fewer, counts non-increasing, from the tally, and none left out counted more than one kept |
| WeakPoints.JoinedPointsTokens | k12_platform/main.py:259 | clean points stored as `",".join(points)` come back as exactly those points |
| K12Api.TruncateReal | k12_platform/main.py:255 | `int()` of a float truncates toward zero |
| K12Api.CallerId | k12_platform/main.py:255 | `int(user["sub"])` is the parsed claim; a missing or unparsable claim is a 500 |
| K12Api.TokenClaims | k12_platform/main.py:185 | the register/login claims have distinct keys |
| K12Api.TokenNamesUser | k12_platform/main.py:185 | a token issued for a user makes the handlers act on that user's id, with its name in "username" |
| K12Api.UserNamed | k12_platform/main.py:168 | the user found has the name, and none exactly when no user has it |
| K12Api.UserWithId | k12_platform/main.py:622 | the user found has the id, and none exactly when no user has it |
| K12Api.LoginIndex | k12_platform/main.py:199-201 | login accepts only the user with that name whose hash checks the password |
| K12Api.WrongPair | k12_platform/main.py:389-392 | none exactly when the caller has no row for that question |
| K12Api.OwnedWrong | k12_platform/main.py:445-448 | the row found has this id and belongs to the caller; none exactly when there is no such row |
| K12Api.SessionWithId | k12_platform/main.py:330 | the session found has the id, whoever owns it |
| K12Api.Exchange | k12_platform/main.py:338-351 | a chat turn stores two messages: the user's, then the assistant's reply |
| K12Api.ErrorCheck | k12_platform/main.py:250-251 | the result goes ahead exactly when it is a dict without "error"; a dict with "error" gives a 500 carrying that value |
| K12Api.SolverFailureIs500 | k12_platform/main.py:248-251 | a solver transport failure reaches the client as a 500 with the error text |
| K12Api.Denominator | k12_platform/main.py:562 | `max(total, 1)` is never 0 |
| K12Api.AccuracyRate | k12_platform/main.py:562 | the rate is at most 100; it is 100 exactly with no open wrong rows; it is never negative while they are no more than the questions |
| K12Api.UserTurnHistory | k12_platform/main.py:338-344 | after storing the user's message the session history ends with it |
| K12Api.ExchangeSteps | k12_platform/main.py:338-352 | two successive message inserts are one exchange with two stamps |
| K12Api.Store.constructor | k12_platform/main.py:24 | a fresh store has empty tables and satisfies the invariant |
| K12Api.Store.InsertUser | k12_platform/main.py:173-182 | exactly one user is appended, under the next id and the current stamp |
| K12Api.Store.InsertQuestion | k12_platform/main.py:254-263 | exactly one question is appended, under the next id and the current stamp |
| K12Api.Store.InsertAnswer | k12_platform/main.py:266-272 | exactly one answer is appended, under the next id and the current stamp |
| K12Api.Store.InsertWrong | k12_platform/main.py:397-403 | exactly one wrong-book row is appended, under the next id and the current stamp |
| K12Api.Store.InsertEssay | k12_platform/main.py:299-312 | exactly one essay is appended, under the next id and the current stamp |
| K12Api.Store.InsertSession | k12_platform/main.py:332-335 | exactly one session is appended, under the next id and the current stamp |
| K12Api.Store.InsertMessage | k12_platform/main.py:338-340 | exactly one message is appended, under the next id and the current stamp |
| K12Api.Store.ReplaceUser | k12_platform/main.py:626-629 | only that user row changes |
| K12Api.Store.ReplaceWrong | k12_platform/main.py:451-452 | only that wrong-book row changes |
| K12Api.Store.Register | k12_platform/main.py:157-189 | a taken name gives a 400 and nothing changes; otherwise exactly one user is appended with the truncated password's hash, and the cookie token carries `sub = str(id)` and the name for seven days |
| K12Api.Store.Login | k12_platform/main.py:192-212 | bad credentials give a 400 and nothing changes; otherwise only that user's last-login time is set and its token is issued |
| K12Api.Store.UpdateProfile | k12_platform/main.py:613-631 | an unknown caller gets a 404 and nothing changes; otherwise exactly the caller's email, grade and subjects are overwritten |
| K12Api.Store.SubmitQuestion | k12_platform/main.py:250-280 | a result with "error" gives a 500 and nothing is stored; otherwise one question with the points joined by ",", then one answer referencing it |
| K12Api.Store.SubmitEssay | k12_platform/main.py:295-314 | a result with "error" gives a 500 and nothing is stored; otherwise one essay with the score (default 0) and the dumped feedback, and the result is returned unchanged |
| K12Api.Store.StoreExchange | k12_platform/main.py:337-352 | the user message is stored, the session's history ending with it goes to the model, and the reply is stored after it |
| K12Api.Store.Chat | k12_platform/main.py:317-354 | a missing given session is a 500 with nothing stored; a given one is used without an owner check; without one a session titled `message[:20]` is created; exactly two messages, user then assistant, are appended |
| K12Api.Store.AddToWrongBook | k12_platform/main.py:377-405 | an existing pair gives "已在错题本中" and nothing changes; otherwise one row with the reason, 0 practice, not mastered; no pair ever gets two rows |
| K12Api.Store.PracticeWrong | k12_platform/main.py:442-454 | only the caller's row with that id gains one practice; without it nothing changes; the reply is the same either way |
| K12Api.Store.MasterWrong | k12_platform/main.py:457-469 | only the caller's row with that id becomes mastered; without it nothing changes; no flag is ever cleared |
| K12Api.Store.ListWrongBook | k12_platform/main.py:421-439 | the listing is the entries of the listed rows, strictly newest first; when it succeeds, the i-th entry shows the i-th listed row that has its question, and that row is the caller's and belongs to the listing |
| Tables.ListedRowsIn | k12_platform/main.py:411-419 | every row a listing shows is the caller's, and open or mastered as the listing asks |
| K12Api.Store.GetWrongBook | k12_platform/main.py:408-439 | the caller's open rows, or all of them with `include_mastered`, newest first, each with its reason |
| K12Api.Store.GetMasteredQuestions | k12_platform/main.py:472-498 | the caller's mastered rows, newest first, each with its knowledge points |
| K12Api.Store.GetStatistics | k12_platform/main.py:501-563 | the caller's question, open, mastered, essay and recent counts; the top five weak points of the open rows' tally; the accuracy rate over `max(total, 1)` |
| K12Api.Store.GetRecommendations | k12_platform/main.py:566-593 | up to three distinct points of the open rows' stripped set, or "基础运算" when it is empty; the last found question's subject; the recommender's answer |
| K12Api.Store.GetHistory | k12_platform/main.py:634-663 | the requested page of the caller's questions, newest first, each with its answer; the caller's total; page and limit echoed |
| K12Api.RenderRows | k12_platform/main.py:421-437 | the listing loop builds exactly the listing, and aborts at the first undecodable steps |
| K12Api.TallyPieces | k12_platform/main.py:539-542 | the inner loop counts exactly the non-empty stripped pieces |
| K12Api.TallyRows | k12_platform/main.py:536-542 | the statistics loop builds exactly the tally of the open rows' tokens |
| K12Api.AddPieces | k12_platform/main.py:584-585 | the inner loop adds exactly the stripped pieces, empty ones included |
| K12Api.CollectPoints | k12_platform/main.py:579-585 | the recommendation loop builds the point set and the last subject |
| K12Api.HistoryItems | k12_platform/main.py:649-659 | one history entry per question of the page, in order |
| K12Api.PickUpTo3 | k12_platform/main.py:591 | `list(points)[:3]` gives `min(3, |points|)` distinct members |
| K12Api.EntriesShape | k12_platform/main.py:426-437 | default and full listings carry each row's own reason and no knowledge points; the mastered listing carries the question's knowledge points and no reason |
| K12Api.ListedNewestFirst | k12_platform/main.py:412-419 | every wrong-book listing is strictly newest first |
| K12Api.OwnQuestionsNewestFirst | k12_platform/main.py:645-647 | the caller's questions in `created_at desc` order are strictly newest first |
| K12Api.WindowNewestFirst | k12_platform/main.py:647 | a page cut from a newest-first list is newest first |
| K12Api.HistoryNewestFirst | k12_platform/main.py:645-647 | every history page is strictly newest first |

## Left out

- Page routes, templates, static files and server start-up
  (`k12_platform/main.py:17-152`, `666-668`): framework wiring with no logic
  of their own.
- `logout`, `get_profile`, `get_chat_sessions` and `get_chat_messages` are
  not part of this model. They are one-query reads beside the modelled
  handlers.
- Image upload. The file write under `static/uploads`, the timestamped name
  and base64 encoding are I/O. `SubmitQuestion` takes the resulting
  `image_url`, and `LlmService.SolveRequest` takes the base64 text.
- The OpenAI client, `json.loads`, `json.dumps`, bcrypt and the JWT library
  are parameters. Only the promises the code relies on are stated about them
  (`AuthService.HashSound`, `AuthService.JwtSound`). Expiry is compared
  inclusively, as whole seconds.
- Objects returned by the `json.loads` parameter may carry the same key
  twice, which a real `json.loads` never returns (it keeps the last
  duplicate). The model's `.get` reads the first binding. Lemmas that need
  one value per key ask for `PyDict.UniqueKeys`. The handlers that only
  call `.get` on a decoded reply (`Json.Lookup` and `K12Api.ErrorCheck`)
  are stated for any decoded object and do not ask for it.
- `submit_question` and `submit_essay` are modelled from the point where the
  model's result is known (`K12Api.Store.SubmitQuestion`,
  `K12Api.Store.SubmitEssay`). The call to the LLM service is its own
  function (`LlmService.SolveMathQuestion`, `LlmService.ReviewEssay`).
- K12Api.Store.GetStatistics: does not compute `avg_essay_score`, which is a
  floating-point mean. `accuracyRate` is the exact rational value before
  `round(..., 1)`, and "a week ago" is a stamp parameter.
- Json: numbers are exact reals. The int/float distinction, NaN and infinity
  are not modelled, so `K12Api.TruncateReal` never raises.
- SQLite column affinity is not modelled: any scalar value is stored as
  given. A list or dict in a TEXT or REAL column is a binding error, answered
  with 500 after earlier commits (`K12Api.Unbindable`).
- PyText.ParseInt: accepts ASCII digits only. Python's `int()` also accepts
  other Unicode decimal digits.
- The HTTP request bodies of `chat` and `add_to_wrong_book` are decoded into
  typed parameters. `session_id` and `question_id` are optional integers, so
  a client sending a string id there is not modelled.
- K12Api.Store.Login: `datetime.now()` at login is the current stamp, and the
  stamp does not advance, since no row is inserted.
- K12Api.Store.GetRecommendations: the order of `list(set)` follows string
  hashing. The model picks any three distinct members, so it does not say
  which three.
- Concurrent requests: the check-then-insert races of `register` and
  `add_to_wrong_book` are out of scope. Each handler runs alone against a
  committed state.
- Cookies are represented by the claims they carry (`AuthReply.claims`)
  together with their lifetime. The token string comes from those claims
  through `AuthService.CreateAccessToken`.
