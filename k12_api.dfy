/**
 * The data side of the platform's API handlers. A `Store` holds the tables
 * (users, questions, answers, wrong-book rows, essays, chat sessions and chat
 * messages) and a stamp counter standing in for `datetime.now()` at insert
 * time. Each handler is a method: the ones that commit change the tables and
 * say exactly how, the read-only ones are proved against the query
 * functions of module Tables.
 *
 * Every handler behind `require_auth` receives the caller's id, the result
 * of `int(user["sub"])` on the authenticated payload (`CallerId`). The model
 * answers, the decoder for stored steps and the token signer are parameters.
 */
module K12Api {
  import opened Wrappers
  import opened PyText
  import opened Json
  import opened Http
  import opened Rows
  import opened Tables
  import PyDict
  import WeakPoints
  import LlmService
  import AuthService

  /** The cookie lifetime set on register and login: seven days, in seconds. */
  const COOKIE_MAX_AGE: nat := 60 * 60 * 24 * 7

  const USERNAME_TAKEN: string := "用户名已存在"
  const BAD_CREDENTIALS: string := "用户名或密码错误"
  const REGISTERED: string := "注册成功"
  const LOGGED_IN: string := "登录成功"
  const ALREADY_IN_BOOK: string := "已在错题本中"
  const ADDED_TO_BOOK: string := "已添加到错题本"
  const PRACTICE_RECORDED: string := "已记录练习"
  const MARKED_MASTERED: string := "已标记为掌握"
  const NO_SUCH_USER: string := "用户不存在"
  const PROFILE_UPDATED: string := "更新成功"
  const SESSION_TITLE_LENGTH: nat := 20

  // ---------------------------------------------------------------------
  // The caller's identity
  // ---------------------------------------------------------------------

  /** Python `int(x)` of a float: truncation toward zero. */
  function TruncateReal(x: real): (r: int)
    ensures x >= 0.0 ==> r as real <= x < r as real + 1.0
    ensures x < 0.0 ==> r as real - 1.0 < x <= r as real
  {
    if x >= 0.0 then x.Floor else -((-x).Floor)
  }

  /**
   * `int(user["sub"])`: a missing claim raises KeyError and a claim `int`
   * refuses raises ValueError or TypeError, both answered with 500.
   */
  function CallerId(payload: PyDict.Dict<Json>): (r: Result<int, Failure>)
    ensures r.Err? ==> r.error == ServerError
    ensures PyDict.Get(payload, "sub").None? ==> r.Err?
    ensures forall s :: PyDict.Get(payload, "sub") == Some(JStr(s)) ==>
      r == (if ParseInt(s).Some? then Ok(ParseInt(s).value) else Err(ServerError))
  {
    match PyDict.Get(payload, "sub")
    case None => Err(ServerError)
    case Some(v) =>
      match v
      case JStr(s) => (match ParseInt(s) case Some(n) => Ok(n) case None => Err(ServerError))
      case JNum(x) => Ok(TruncateReal(x))
      case JBool(b) => Ok(if b then 1 else 0)
      case _ => Err(ServerError)
  }

  /** The claims register and login sign: `{"sub": str(user.id), "username": user.username}`. */
  function TokenClaims(id: nat, username: string): (d: PyDict.Dict<Json>)
    ensures PyDict.UniqueKeys(d)
  {
    [("sub", JStr(NatToString(id))), ("username", JStr(username))]
  }

  /** A token issued for a user names that user: the handlers it authenticates act on that id. */
  lemma TokenNamesUser(id: nat, username: string, now: int)
    ensures CallerId(AuthService.TokenPayload(TokenClaims(id, username), now)) == Ok(id)
    ensures PyDict.Get(AuthService.TokenPayload(TokenClaims(id, username), now), "username") == Some(JStr(username))
  {
    var claims := TokenClaims(id, username);
    PyDict.GetUnique(claims, 0);
    PyDict.GetUnique(claims, 1);
    ParseIntOfNatToString(id);
  }

  // ---------------------------------------------------------------------
  // Replies
  // ---------------------------------------------------------------------

  /**
   * A register/login reply: its message, the new user's id on register, and
   * the claims of the token set as the `access_token` cookie, which holds
   * `AuthService.CreateAccessToken(claims, now, encode)` for `cookieMaxAge`
   * seconds.
   */
  datatype AuthReply = AuthReply(message: string, userId: Option<int>, claims: PyDict.Dict<Json>, cookieMaxAge: nat)

  datatype SolveReply = SolveReply(questionId: int, answer: Json, steps: Json, knowledgePoints: Json, tips: Json)

  datatype ChatReply = ChatReply(sessionId: int, response: string)

  /**
   * The statistics reply. The average essay score is not part of it, and
   * `accuracyRate` is the exact value before `round(..., 1)`.
   */
  datatype Stats = Stats(totalQuestions: nat, wrongCount: nat, masteredCount: nat, essayCount: nat,
                         weakPoints: seq<(string, int)>, recentQuestions: nat, accuracyRate: real)

  datatype HistoryPage = HistoryPage(items: seq<HistoryEntry>, total: nat, page: int, limit: int)

  // ---------------------------------------------------------------------
  // Query functions used by the handlers
  // ---------------------------------------------------------------------

  /** `query(User).filter(User.username == username).first()`. */
  function UserNamed(users: seq<User>, username: string): (r: Option<nat>)
    ensures r.None? <==> forall i :: 0 <= i < |users| ==> users[i].username != username
    ensures r.Some? ==> r.value < |users| && users[r.value].username == username
  {
    FirstIndex(users, (u: User) => u.username == username)
  }

  /** `query(User).filter(User.id == id).first()`. */
  function UserWithId(users: seq<User>, id: int): (r: Option<nat>)
    ensures r.None? <==> forall i :: 0 <= i < |users| ==> users[i].id != id
    ensures r.Some? ==> r.value < |users| && users[r.value].id == id
  {
    FirstIndex(users, (u: User) => u.id == id)
  }

  /** The row `login` accepts: the first user with the name, when the password checks against its hash. */
  function LoginIndex(users: seq<User>, username: string, password: string, check: AuthService.Checker)
    : (r: Option<nat>)
    ensures r.Some? ==>
      r.value < |users| && users[r.value].username == username
      && AuthService.VerifyPassword(password, users[r.value].passwordHash, check)
    ensures UserNamed(users, username).None? ==> r.None?
  {
    match UserNamed(users, username)
    case None => None
    case Some(i) => if AuthService.VerifyPassword(password, users[i].passwordHash, check) then Some(i) else None
  }

  /** The wrong-book row of `(user, question)`, the pair `add_to_wrong_book` checks. */
  function WrongPair(wrongs: seq<WrongQuestion>, userId: int, questionId: Option<int>): (r: Option<nat>)
    ensures r.None? <==> forall i :: 0 <= i < |wrongs| ==> !(wrongs[i].userId == userId && wrongs[i].questionId == questionId)
  {
    FirstIndex(wrongs, (w: WrongQuestion) => w.userId == userId && w.questionId == questionId)
  }

  /** The row `practice_wrong` and `master_wrong` act on: this id, owned by the caller. */
  function OwnedWrong(wrongs: seq<WrongQuestion>, userId: int, wrongId: int): (r: Option<nat>)
    ensures r.None? <==> forall i :: 0 <= i < |wrongs| ==> !(wrongs[i].id == wrongId && wrongs[i].userId == userId)
    ensures r.Some? ==> r.value < |wrongs| && wrongs[r.value].id == wrongId && wrongs[r.value].userId == userId
  {
    FirstIndex(wrongs, (w: WrongQuestion) => w.id == wrongId && w.userId == userId)
  }

  /** `query(ChatSession).filter(ChatSession.id == session_id).first()`: no check of the owner. */
  function SessionWithId(sessions: seq<ChatSession>, id: int): (r: Option<nat>)
    ensures r.None? <==> forall i :: 0 <= i < |sessions| ==> sessions[i].id != id
    ensures r.Some? ==> r.value < |sessions| && sessions[r.value].id == id
  {
    FirstIndex(sessions, (s: ChatSession) => s.id == id)
  }

  /** `if session_id:` — a present, non-zero session id. */
  predicate GivenSession(sessionId: Option<int>) {
    sessionId.Some? && sessionId.value != 0
  }

  /** The two messages one chat turn stores: the user's, then the assistant's reply, stamped one after the other. */
  function Exchange(count: nat, sessionId: int, message: string, response: string, stamp: nat): (m: seq<ChatMessage>)
    ensures |m| == 2 && m[0].role == "user" && m[1].role == "assistant"
    ensures m[0].content == message && m[1].content == response
  {
    [ChatMessage(count + 1, sessionId, "user", message, stamp),
     ChatMessage(count + 2, sessionId, "assistant", response, stamp + 1)]
  }

  /** Values a TEXT column cannot bind: a list or a dict. */
  predicate Unbindable(v: Json) {
    v.JArr? || v.JObj?
  }

  /**
   * What `"error" in result` and the `result.get` calls that follow leave of
   * a model reply before anything is stored: an HTTP 500 carrying the
   * reply's own "error" value, a server error when `in`, `[...]` or `.get`
   * raise, or the go-ahead for a dict without "error".
   */
  function ErrorCheck(result: Json): (r: Option<Failure>)
    ensures r.None? <==> result.JObj? && !HasKey(result, "error")
    ensures result.JObj? && HasKey(result, "error") ==> r == Some(HttpError(500, Lookup(result, "error", JNull)))
  {
    match PyIn("error", result)
    case None => Some(ServerError)
    case Some(true) => if result.JObj? then Some(HttpError(500, Lookup(result, "error", JNull))) else Some(ServerError)
    case Some(false) => if result.JObj? then None else Some(ServerError)
  }

  /** A transport failure of the solver reaches the client as a 500 whose detail is the error text. */
  lemma SolverFailureIs500(question: string, imageBase64: Option<string>, complete: LlmService.Completion,
                           parse: LlmService.JsonLoads)
    requires complete(LlmService.SolveRequest(question, imageBase64)).Err?
    ensures ErrorCheck(LlmService.SolveMathQuestion(question, imageBase64, complete, parse)) ==
      Some(HttpError(500, JStr(complete(LlmService.SolveRequest(question, imageBase64)).error)))
  {
    var r := LlmService.SolveMathQuestion(question, imageBase64, complete, parse);
    assert PyDict.Keys(r.fields)[0] == "error";
  }

  /** Mastered flags are never cleared, practice counts never fall, and no row is removed or re-keyed. */
  predicate WrongProgress(before: seq<WrongQuestion>, after: seq<WrongQuestion>) {
    && |before| <= |after|
    && forall i :: 0 <= i < |before| ==>
         && after[i].id == before[i].id && after[i].userId == before[i].userId
         && after[i].questionId == before[i].questionId && after[i].createdAt == before[i].createdAt
         && (before[i].isMastered ==> after[i].isMastered)
         && before[i].practiceCount <= after[i].practiceCount
  }

  /** `max(total, 1)`, the accuracy denominator. */
  function Denominator(total: nat): (d: nat)
    ensures d >= 1 && d >= total
    ensures total >= 1 ==> d == total
  {
    if total >= 1 then total else 1
  }

  /** `(1 - wrong_count / max(total, 1)) * 100` before rounding. */
  function AccuracyRate(wrongCount: nat, total: nat): (r: real)
    ensures r <= 100.0
    ensures wrongCount == 0 <==> r == 100.0
    ensures wrongCount <= total ==> 0.0 <= r
  {
    (1.0 - wrongCount as real / Denominator(total) as real) * 100.0
  }

  /** The points passed to the recommender: `list(points)[:3]`, in whatever order the set iterates. */
  predicate PickedPoints(points: seq<string>, pool: set<string>) {
    && |points| == (if |pool| <= 3 then |pool| else 3)
    && (forall i :: 0 <= i < |points| ==> points[i] in pool)
    && (forall i, j :: 0 <= i < j < |points| ==> points[i] != points[j])
  }

  // ---------------------------------------------------------------------
  // The store
  // ---------------------------------------------------------------------

  /** Storing the user's message adds it to its session's history. */
  lemma UserTurnHistory(s0: Db, s1: Db, sid: int, message: string)
    requires s1 == s0.(messages := s0.messages + [ChatMessage(|s0.messages| + 1, sid, "user", message, s0.clock)],
                       clock := s0.clock + 1)
    ensures SessionHistory(s1.messages, sid)
      == SessionHistory(s0.messages, sid) + [LlmService.Message("user", LlmService.Plain(message))]
  {
    SessionHistoryAppend(s0.messages, s1.messages[|s0.messages|], sid);
  }

  /** Two stored messages, one after the other, make one exchange. */
  lemma ExchangeSteps(s0: Db, s1: Db, s2: Db, sid: int, message: string, response: string)
    requires s1 == s0.(messages := s0.messages + [ChatMessage(|s0.messages| + 1, sid, "user", message, s0.clock)],
                       clock := s0.clock + 1)
    requires s2 == s1.(messages := s1.messages + [ChatMessage(|s1.messages| + 1, sid, "assistant", response, s1.clock)],
                       clock := s1.clock + 1)
    ensures s2 == s0.(messages := s0.messages + Exchange(|s0.messages|, sid, message, response, s0.clock),
                      clock := s0.clock + 2)
  {
    assert (s0.messages + [s1.messages[|s0.messages|]]) + [s2.messages[|s1.messages|]]
      == s0.messages + [s1.messages[|s0.messages|], s2.messages[|s1.messages|]];
  }

  class Store {
    var users: seq<User>
    var questions: seq<Question>
    var answers: seq<Answer>
    var wrongs: seq<WrongQuestion>
    var essays: seq<Essay>
    var sessions: seq<ChatSession>
    var messages: seq<ChatMessage>
    /** The stamp the next inserted row receives; a login records it as the last-login time. */
    var clock: nat

    ghost predicate Valid()
      reads this
    {
      Consistent(Snapshot())
    }

    ghost function Snapshot(): Db
      reads this
    {
      Db(users, questions, answers, wrongs, essays, sessions, messages, clock)
    }

    constructor ()
      ensures Valid()
      ensures Snapshot() == Db([], [], [], [], [], [], [], 0)
    {
      users, questions, answers, wrongs := [], [], [], [];
      essays, sessions, messages := [], [], [];
      clock := 0;
    }

    // -------------------------------------------------------------------
    // `db.add(row); db.commit()` for each table: the row gets the next id
    // and the current stamp, and nothing else changes.
    // -------------------------------------------------------------------

    method InsertUser(username: string, passwordHash: string, email: string, grade: string, subjects: string)
      returns (id: int)
      requires Valid() && UserNamed(users, username).None?
      modifies this
      ensures Valid()
      ensures id == |old(users)| + 1
      ensures Snapshot() == old(Snapshot()).(
        users := old(users) + [User(id, username, passwordHash, email, grade, subjects, old(clock), None)],
        clock := old(clock) + 1)
    {
      id := |users| + 1;
      var row := User(id, username, passwordHash, email, grade, subjects, clock, None);
      assert (users + [row])[..|users|] == users;
      users := users + [row];
      clock := clock + 1;
    }

    method InsertQuestion(userId: int, content: string, imageUrl: Option<string>, subject: string,
                          knowledgePoint: string)
      returns (id: int)
      requires Valid()
      modifies this
      ensures Valid()
      ensures id == |old(questions)| + 1
      ensures Snapshot() == old(Snapshot()).(
        questions := old(questions) + [Question(id, userId, content, imageUrl, subject, knowledgePoint, old(clock))],
        clock := old(clock) + 1)
    {
      id := |questions| + 1;
      var row := Question(id, userId, content, imageUrl, subject, knowledgePoint, clock);
      assert (questions + [row])[..|questions|] == questions;
      questions := questions + [row];
      clock := clock + 1;
    }

    method InsertAnswer(questionId: int, content: Json, steps: string) returns (id: int)
      requires Valid()
      modifies this
      ensures Valid()
      ensures id == |old(answers)| + 1
      ensures Snapshot() == old(Snapshot()).(
        answers := old(answers) + [Answer(id, questionId, content, steps, old(clock))],
        clock := old(clock) + 1)
    {
      id := |answers| + 1;
      var row := Answer(id, questionId, content, steps, clock);
      assert (answers + [row])[..|answers|] == answers;
      answers := answers + [row];
      clock := clock + 1;
    }

    method InsertWrong(userId: int, questionId: Option<int>, errorReason: string) returns (id: int)
      requires Valid() && WrongPair(wrongs, userId, questionId).None?
      modifies this
      ensures Valid()
      ensures id == |old(wrongs)| + 1
      ensures Snapshot() == old(Snapshot()).(
        wrongs := old(wrongs) + [WrongQuestion(id, userId, questionId, errorReason, 0, false, old(clock))],
        clock := old(clock) + 1)
    {
      id := |wrongs| + 1;
      var row := WrongQuestion(id, userId, questionId, errorReason, 0, false, clock);
      assert (wrongs + [row])[..|wrongs|] == wrongs;
      wrongs := wrongs + [row];
      clock := clock + 1;
    }

    method InsertEssay(userId: int, title: string, content: string, essayType: string, score: Json,
                       structure: string, grammar: string, vocabulary: string, suggestions: string,
                       topicAnalysis: string)
      returns (id: int)
      requires Valid()
      modifies this
      ensures Valid()
      ensures id == |old(essays)| + 1
      ensures Snapshot() == old(Snapshot()).(
        essays := old(essays) + [Essay(id, userId, title, content, essayType, score, structure, grammar,
                                       vocabulary, suggestions, topicAnalysis, old(clock))],
        clock := old(clock) + 1)
    {
      id := |essays| + 1;
      var row := Essay(id, userId, title, content, essayType, score, structure, grammar, vocabulary,
                       suggestions, topicAnalysis, clock);
      assert (essays + [row])[..|essays|] == essays;
      essays := essays + [row];
      clock := clock + 1;
    }

    method InsertSession(userId: int, title: string) returns (id: int)
      requires Valid()
      modifies this
      ensures Valid()
      ensures id == |old(sessions)| + 1
      ensures Snapshot() == old(Snapshot()).(
        sessions := old(sessions) + [ChatSession(id, userId, title, old(clock))],
        clock := old(clock) + 1)
    {
      id := |sessions| + 1;
      var row := ChatSession(id, userId, title, clock);
      assert (sessions + [row])[..|sessions|] == sessions;
      sessions := sessions + [row];
      clock := clock + 1;
    }

    method InsertMessage(sessionId: int, role: string, content: string) returns (id: int)
      requires Valid()
      modifies this
      ensures Valid()
      ensures id == |old(messages)| + 1
      ensures Snapshot() == old(Snapshot()).(
        messages := old(messages) + [ChatMessage(id, sessionId, role, content, old(clock))],
        clock := old(clock) + 1)
    {
      id := |messages| + 1;
      var row := ChatMessage(id, sessionId, role, content, clock);
      assert (messages + [row])[..|messages|] == messages;
      messages := messages + [row];
      clock := clock + 1;
    }

    /** Field updates on a loaded user, committed: the id and the name stay. */
    method ReplaceUser(i: nat, u: User)
      requires Valid() && i < |users| && u.id == users[i].id && u.username == users[i].username
      modifies this
      ensures Valid()
      ensures Snapshot() == old(Snapshot()).(users := old(users)[i := u])
    {
      UsersUpdate(users, i, u);
      users := users[i := u];
    }

    /** Field updates on a loaded wrong-book row, committed: the id, the stamp and the pair stay. */
    method ReplaceWrong(i: nat, w: WrongQuestion)
      requires Valid() && i < |wrongs| && w.id == wrongs[i].id && w.createdAt == wrongs[i].createdAt
      requires w.userId == wrongs[i].userId && w.questionId == wrongs[i].questionId
      modifies this
      ensures Valid()
      ensures Snapshot() == old(Snapshot()).(wrongs := old(wrongs)[i := w])
    {
      WrongsUpdate(wrongs, i, w);
      wrongs := wrongs[i := w];
    }

    // -------------------------------------------------------------------
    // Accounts
    // -------------------------------------------------------------------

    /**
     * `register`: a taken username is refused with 400 and nothing changes;
     * otherwise exactly one user is appended, under the next id, with the
     * truncated password's hash, and a token for `{"sub": str(id),
     * "username": username}` is set as the cookie.
     */
    method Register(username: string, password: string, email: string, grade: string, subjects: string,
                    salt: string, hash: AuthService.Hasher)
      returns (r: Result<AuthReply, Failure>)
      requires Valid()
      modifies this
      ensures Valid()
      ensures UserNamed(old(users), username).Some? ==>
        r == Err(HttpError(400, JStr(USERNAME_TAKEN))) && Snapshot() == old(Snapshot())
      ensures UserNamed(old(users), username).None? ==>
        && Snapshot() == old(Snapshot()).(
             users := old(users) + [User(|old(users)| + 1, username, AuthService.HashPassword(password, salt, hash),
                                         email, grade, subjects, old(clock), None)],
             clock := old(clock) + 1)
        && r == Ok(AuthReply(REGISTERED, Some(|old(users)| + 1), TokenClaims(|old(users)| + 1, username),
                             COOKIE_MAX_AGE))
    {
      if UserNamed(users, username).Some? {
        return Err(HttpError(400, JStr(USERNAME_TAKEN)));
      }
      var id := InsertUser(username, AuthService.HashPassword(password, salt, hash), email, grade, subjects);
      r := Ok(AuthReply(REGISTERED, Some(id), TokenClaims(id, username), COOKIE_MAX_AGE));
    }

    /**
     * `login`: an unknown name or a password that does not check is refused
     * with 400 and nothing changes; otherwise only that user's last-login
     * time is set, and a token for it is issued.
     */
    method Login(username: string, password: string, check: AuthService.Checker)
      returns (r: Result<AuthReply, Failure>)
      requires Valid()
      modifies this
      ensures Valid()
      ensures LoginIndex(old(users), username, password, check).None? ==>
        r == Err(HttpError(400, JStr(BAD_CREDENTIALS))) && Snapshot() == old(Snapshot())
      ensures LoginIndex(old(users), username, password, check).Some? ==>
        var i := LoginIndex(old(users), username, password, check).value;
        && Snapshot() == old(Snapshot()).(users := old(users)[i := old(users)[i].(lastLogin := Some(old(clock)))])
        && old(users)[i].id == i + 1
        && r == Ok(AuthReply(LOGGED_IN, None, TokenClaims(i + 1, username), COOKIE_MAX_AGE))
    {
      var found := LoginIndex(users, username, password, check);
      if found.None? {
        return Err(HttpError(400, JStr(BAD_CREDENTIALS)));
      }
      var i := found.value;
      UsersIds(users);
      var id := users[i].id;
      ReplaceUser(i, users[i].(lastLogin := Some(clock)));
      r := Ok(AuthReply(LOGGED_IN, None, TokenClaims(id, username), COOKIE_MAX_AGE));
    }

    /**
     * `update_profile`: an unknown caller gets 404; otherwise exactly the
     * caller's email, grade and subjects are overwritten.
     */
    method UpdateProfile(userId: int, email: string, grade: string, subjects: string)
      returns (r: Result<string, Failure>)
      requires Valid()
      modifies this
      ensures Valid()
      ensures UserWithId(old(users), userId).None? ==>
        r == Err(HttpError(404, JStr(NO_SUCH_USER))) && Snapshot() == old(Snapshot())
      ensures UserWithId(old(users), userId).Some? ==>
        var i := UserWithId(old(users), userId).value;
        && Snapshot() == old(Snapshot()).(
             users := old(users)[i := old(users)[i].(email := email, grade := grade, subjects := subjects)])
        && r == Ok(PROFILE_UPDATED)
    {
      var found := UserWithId(users, userId);
      if found.None? {
        return Err(HttpError(404, JStr(NO_SUCH_USER)));
      }
      var i := found.value;
      ReplaceUser(i, users[i].(email := email, grade := grade, subjects := subjects));
      r := Ok(PROFILE_UPDATED);
    }

    // -------------------------------------------------------------------
    // Questions and essays
    // -------------------------------------------------------------------

    /**
     * The persistence part of `submit_question`, given the solver's result:
     * a reply carrying "error" (or one `in`/`.get` cannot handle) stores
     * nothing; otherwise one Question is stored with the knowledge points
     * joined by ",", then one Answer referencing it. An answer value SQLite
     * cannot bind fails after the Question is already committed.
     */
    method SubmitQuestion(userId: int, content: string, subject: string, imageUrl: Option<string>,
                          result: Json, dumps: Json -> string)
      returns (r: Result<SolveReply, Failure>)
      requires Valid()
      modifies this
      ensures Valid()
      ensures ErrorCheck(result).Some? ==>
        r == Err(ErrorCheck(result).value) && Snapshot() == old(Snapshot())
      ensures ErrorCheck(result).None? && JoinOperands(Lookup(result, "knowledge_points", JArr([]))).None? ==>
        r == Err(ServerError) && Snapshot() == old(Snapshot())
      ensures ErrorCheck(result).None? && JoinOperands(Lookup(result, "knowledge_points", JArr([]))).Some? ==>
        var q := Question(|old(questions)| + 1, userId, content, imageUrl, subject,
                          Join(JoinOperands(Lookup(result, "knowledge_points", JArr([]))).value, ","), old(clock));
        var answer := Lookup(result, "answer", JStr(""));
        && (Unbindable(answer) ==>
              r == Err(ServerError)
              && Snapshot() == old(Snapshot()).(questions := old(questions) + [q], clock := old(clock) + 1))
        && (!Unbindable(answer) ==>
              && Snapshot() == old(Snapshot()).(
                   questions := old(questions) + [q],
                   answers := old(answers) + [Answer(|old(answers)| + 1, q.id, answer,
                                                     dumps(Lookup(result, "steps", JArr([]))), old(clock) + 1)],
                   clock := old(clock) + 2)
              && r == Ok(SolveReply(q.id, Lookup(result, "answer", JNull), Lookup(result, "steps", JArr([])),
                                    Lookup(result, "knowledge_points", JArr([])), Lookup(result, "tips", JStr("")))))
    {
      var failure := ErrorCheck(result);
      if failure.Some? {
        return Err(failure.value);
      }
      var points := JoinOperands(Lookup(result, "knowledge_points", JArr([])));
      if points.None? {
        return Err(ServerError);
      }
      var qid := InsertQuestion(userId, content, imageUrl, subject, Join(points.value, ","));
      var answer := Lookup(result, "answer", JStr(""));
      if Unbindable(answer) {
        return Err(ServerError);
      }
      var aid := InsertAnswer(qid, answer, dumps(Lookup(result, "steps", JArr([]))));
      r := Ok(SolveReply(qid, Lookup(result, "answer", JNull), Lookup(result, "steps", JArr([])),
                         Lookup(result, "knowledge_points", JArr([])), Lookup(result, "tips", JStr(""))));
    }

    /**
     * The persistence part of `submit_essay`, given the reviewer's result:
     * a reply carrying "error" stores nothing; otherwise one Essay with the
     * score (default 0) and the dumped feedback parts, and the result is
     * returned as it is.
     */
    method SubmitEssay(userId: int, title: string, content: string, essayType: string,
                       result: Json, dumps: Json -> string)
      returns (r: Result<Json, Failure>)
      requires Valid()
      modifies this
      ensures Valid()
      ensures ErrorCheck(result).Some? ==>
        r == Err(ErrorCheck(result).value) && Snapshot() == old(Snapshot())
      ensures ErrorCheck(result).None? && Unbindable(Lookup(result, "overall_score", JNum(0.0))) ==>
        r == Err(ServerError) && Snapshot() == old(Snapshot())
      ensures ErrorCheck(result).None? && !Unbindable(Lookup(result, "overall_score", JNum(0.0))) ==>
        && Snapshot() == old(Snapshot()).(
             essays := old(essays) + [Essay(|old(essays)| + 1, userId, title, content, essayType,
                                            Lookup(result, "overall_score", JNum(0.0)),
                                            dumps(Lookup(result, "structure", JObj([]))),
                                            dumps(Lookup(result, "grammar", JObj([]))),
                                            dumps(Lookup(result, "vocabulary", JObj([]))),
                                            dumps(Lookup(result, "suggestions", JArr([]))),
                                            dumps(Lookup(result, "topic_analysis", JObj([]))), old(clock))],
             clock := old(clock) + 1)
        && r == Ok(result)
    {
      var failure := ErrorCheck(result);
      if failure.Some? {
        return Err(failure.value);
      }
      var score := Lookup(result, "overall_score", JNum(0.0));
      if Unbindable(score) {
        return Err(ServerError);
      }
      var id := InsertEssay(userId, title, content, essayType, score,
                            dumps(Lookup(result, "structure", JObj([]))),
                            dumps(Lookup(result, "grammar", JObj([]))),
                            dumps(Lookup(result, "vocabulary", JObj([]))),
                            dumps(Lookup(result, "suggestions", JArr([]))),
                            dumps(Lookup(result, "topic_analysis", JObj([]))));
      r := Ok(result);
    }

    // -------------------------------------------------------------------
    // Chat
    // -------------------------------------------------------------------

    /**
     * One chat turn on an existing session: the user's message is stored,
     * the session's messages in creation order go to the model, and its
     * reply is stored after it.
     */
    method StoreExchange(sid: int, message: string, complete: LlmService.Completion) returns (response: string)
      requires Valid()
      modifies this
      ensures Valid()
      ensures response == LlmService.Chat(SessionHistory(old(messages), sid)
                                            + [LlmService.Message("user", LlmService.Plain(message))], None, complete)
      ensures Snapshot() == old(Snapshot()).(
        messages := old(messages) + Exchange(|old(messages)|, sid, message, response, old(clock)),
        clock := old(clock) + 2)
    {
      ghost var s0 := Snapshot();
      var userMessage := InsertMessage(sid, "user", message);
      ghost var s1 := Snapshot();
      var history := SessionHistory(messages, sid);
      UserTurnHistory(s0, s1, sid, message);
      response := LlmService.Chat(history, None, complete);
      var replyMessage := InsertMessage(sid, "assistant", response);
      ExchangeSteps(s0, s1, Snapshot(), sid, message, response);
    }

    /**
     * `chat`: a non-zero session id is looked up (any user's session; a
     * missing one makes `session.id` raise before anything is stored);
     * without one a session titled with the first 20 characters of the
     * message is created. Then the user's message is stored, the session's
     * messages in creation order are sent to the model, and its reply is
     * stored: exactly two messages, user then assistant.
     */
    method Chat(userId: int, message: string, sessionId: Option<int>, complete: LlmService.Completion)
      returns (r: Result<ChatReply, Failure>)
      requires Valid()
      modifies this
      ensures Valid()
      ensures GivenSession(sessionId) && SessionWithId(old(sessions), sessionId.value).None? ==>
        r == Err(ServerError) && Snapshot() == old(Snapshot())
      ensures GivenSession(sessionId) && SessionWithId(old(sessions), sessionId.value).Some? ==>
        && r.Ok? && r.value.sessionId == sessionId.value
        && Snapshot() == old(Snapshot()).(
             messages := old(messages) + Exchange(|old(messages)|, sessionId.value, message, r.value.response, old(clock)),
             clock := old(clock) + 2)
      ensures !GivenSession(sessionId) ==>
        && r.Ok? && r.value.sessionId == |old(sessions)| + 1
        && Snapshot() == old(Snapshot()).(
             sessions := old(sessions) + [ChatSession(|old(sessions)| + 1, userId, Prefix(message, SESSION_TITLE_LENGTH),
                                                      old(clock))],
             messages := old(messages) + Exchange(|old(messages)|, |old(sessions)| + 1, message, r.value.response,
                                                  old(clock) + 1),
             clock := old(clock) + 3)
      ensures r.Ok? ==>
        r.value.response == LlmService.Chat(SessionHistory(old(messages), r.value.sessionId)
                                              + [LlmService.Message("user", LlmService.Plain(message))], None, complete)
    {
      var sid: int;
      if GivenSession(sessionId) {
        if SessionWithId(sessions, sessionId.value).None? {
          return Err(ServerError);
        }
        sid := sessionId.value;
      } else {
        sid := InsertSession(userId, Prefix(message, SESSION_TITLE_LENGTH));
      }
      ghost var s1 := Snapshot();
      assert s1.messages == old(messages);
      var response := StoreExchange(sid, message, complete);
      r := Ok(ChatReply(sid, response));
    }

    // -------------------------------------------------------------------
    // Wrong book
    // -------------------------------------------------------------------

    /**
     * `add_to_wrong_book`: when the caller already has a row for the
     * question nothing changes; otherwise exactly one row is appended with
     * the reason, no practice and not mastered. Either way no pair gets a
     * second row.
     */
    method AddToWrongBook(userId: int, questionId: Option<int>, errorReason: string)
      returns (message: string)
      requires Valid()
      modifies this
      ensures Valid()
      ensures WrongPair(old(wrongs), userId, questionId).Some? ==>
        message == ALREADY_IN_BOOK && Snapshot() == old(Snapshot())
      ensures WrongPair(old(wrongs), userId, questionId).None? ==>
        && message == ADDED_TO_BOOK
        && Snapshot() == old(Snapshot()).(
             wrongs := old(wrongs) + [WrongQuestion(|old(wrongs)| + 1, userId, questionId, errorReason, 0, false,
                                                    old(clock))],
             clock := old(clock) + 1)
      ensures WrongProgress(old(wrongs), wrongs)
    {
      if WrongPair(wrongs, userId, questionId).Some? {
        return ALREADY_IN_BOOK;
      }
      var id := InsertWrong(userId, questionId, errorReason);
      message := ADDED_TO_BOOK;
    }

    /**
     * `practice_wrong`: the caller's row with this id gets one more
     * practice and nothing else changes; without such a row nothing changes.
     * The reply is the same either way.
     */
    method PracticeWrong(userId: int, wrongId: int) returns (message: string)
      requires Valid()
      modifies this
      ensures Valid()
      ensures message == PRACTICE_RECORDED
      ensures OwnedWrong(old(wrongs), userId, wrongId).None? ==> Snapshot() == old(Snapshot())
      ensures OwnedWrong(old(wrongs), userId, wrongId).Some? ==>
        var i := OwnedWrong(old(wrongs), userId, wrongId).value;
        Snapshot() == old(Snapshot()).(
          wrongs := old(wrongs)[i := old(wrongs)[i].(practiceCount := old(wrongs)[i].practiceCount + 1)])
      ensures WrongProgress(old(wrongs), wrongs)
    {
      var found := OwnedWrong(wrongs, userId, wrongId);
      if found.Some? {
        var i := found.value;
        ReplaceWrong(i, wrongs[i].(practiceCount := wrongs[i].practiceCount + 1));
      }
      message := PRACTICE_RECORDED;
    }

    /**
     * `master_wrong`: the caller's row with this id is marked mastered and
     * nothing else changes; without such a row nothing changes. The reply is
     * the same either way, and no handler ever clears the flag.
     */
    method MasterWrong(userId: int, wrongId: int) returns (message: string)
      requires Valid()
      modifies this
      ensures Valid()
      ensures message == MARKED_MASTERED
      ensures OwnedWrong(old(wrongs), userId, wrongId).None? ==> Snapshot() == old(Snapshot())
      ensures OwnedWrong(old(wrongs), userId, wrongId).Some? ==>
        var i := OwnedWrong(old(wrongs), userId, wrongId).value;
        Snapshot() == old(Snapshot()).(wrongs := old(wrongs)[i := old(wrongs)[i].(isMastered := true)])
      ensures WrongProgress(old(wrongs), wrongs)
    {
      var found := OwnedWrong(wrongs, userId, wrongId);
      if found.Some? {
        var i := found.value;
        ReplaceWrong(i, wrongs[i].(isMastered := true));
      }
      message := MARKED_MASTERED;
    }

    /**
     * The query shared by the wrong-book listings: the listed rows newest
     * first, one entry per row whose question exists.
     */
    method ListWrongBook(userId: int, mode: Listing, parse: LlmService.JsonLoads)
      returns (r: Result<seq<WrongEntry>, Failure>)
      requires Valid()
      ensures r == Entries(ListedRows(wrongs, userId, mode), questions, answers, parse, mode)
      ensures r.Ok? ==> forall i, j :: 0 <= i < j < |r.value| ==> r.value[i].createdAt > r.value[j].createdAt
      ensures var kept := WithQuestion(ListedRows(wrongs, userId, mode), questions);
        r.Ok? ==> |r.value| == |kept| && forall i :: 0 <= i < |kept| ==>
          InListing(kept[i], userId, mode) && EntryOf(r.value[i], kept[i], questions, answers, parse, mode)
    {
      r := RenderRows(ListedRows(wrongs, userId, mode), questions, answers, parse, mode);
      WrongsOrdered(wrongs);
      ListedNewestFirst(wrongs, userId, mode, questions, answers, parse);
      EntriesMatchRows(ListedRows(wrongs, userId, mode), questions, answers, parse, mode);
      ListedRowsIn(wrongs, userId, mode, questions);
    }

    /** `get_wrong_book`: the caller's open rows, or all of them with `include_mastered`, newest first. */
    method GetWrongBook(userId: int, includeMastered: bool, parse: LlmService.JsonLoads)
      returns (r: Result<seq<WrongEntry>, Failure>)
      requires Valid()
      ensures r == Entries(ListedRows(wrongs, userId, if includeMastered then All else Open),
                           questions, answers, parse, if includeMastered then All else Open)
      ensures r.Ok? ==> forall i, j :: 0 <= i < j < |r.value| ==> r.value[i].createdAt > r.value[j].createdAt
      ensures r.Ok? ==> forall i :: 0 <= i < |r.value| ==> r.value[i].errorReason.Some? && r.value[i].knowledgePoint.None?
    {
      r := ListWrongBook(userId, if includeMastered then All else Open, parse);
      EntriesShape(ListedRows(wrongs, userId, if includeMastered then All else Open), questions, answers, parse,
                   if includeMastered then All else Open);
    }

    /** `get_mastered_questions`: the caller's mastered rows, newest first. */
    method GetMasteredQuestions(userId: int, parse: LlmService.JsonLoads)
      returns (r: Result<seq<WrongEntry>, Failure>)
      requires Valid()
      ensures r == Entries(ListedRows(wrongs, userId, Mastered), questions, answers, parse, Mastered)
      ensures r.Ok? ==> forall i, j :: 0 <= i < j < |r.value| ==> r.value[i].createdAt > r.value[j].createdAt
      ensures r.Ok? ==> forall i :: 0 <= i < |r.value| ==> r.value[i].errorReason.None? && r.value[i].knowledgePoint.Some?
    {
      r := ListWrongBook(userId, Mastered, parse);
      EntriesShape(ListedRows(wrongs, userId, Mastered), questions, answers, parse, Mastered);
    }

    // -------------------------------------------------------------------
    // Statistics, recommendations and history
    // -------------------------------------------------------------------

    /**
     * `get_statistics`: the caller's question, open, mastered and essay
     * counts, the weak points (the tally of the open rows' knowledge points,
     * top five by count), the questions stamped at or after `weekAgo`, and
     * the accuracy rate.
     */
    method GetStatistics(userId: int, weekAgo: nat) returns (s: Stats)
      requires Valid()
      ensures s.totalQuestions == Count(questions, (q: Question) => q.userId == userId)
      ensures s.wrongCount == Count(wrongs, (w: WrongQuestion) => InListing(w, userId, Open))
      ensures s.masteredCount == Count(wrongs, (w: WrongQuestion) => InListing(w, userId, Mastered))
      ensures s.essayCount == Count(essays, (e: Essay) => e.userId == userId)
      ensures s.recentQuestions == Count(questions, (q: Question) => q.userId == userId && q.createdAt >= weekAgo)
      ensures s.weakPoints == WeakPoints.TopWeak(WeakPoints.TallyOf(RowTokens(OpenRows(wrongs, userId), questions)))
      ensures s.accuracyRate == AccuracyRate(s.wrongCount, s.totalQuestions)
    {
      var tally := TallyRows(OpenRows(wrongs, userId), questions);
      var total := Count(questions, (q: Question) => q.userId == userId);
      var wrongCount := Count(wrongs, (w: WrongQuestion) => InListing(w, userId, Open));
      s := Stats(total, wrongCount,
                 Count(wrongs, (w: WrongQuestion) => InListing(w, userId, Mastered)),
                 Count(essays, (e: Essay) => e.userId == userId),
                 WeakPoints.TopWeak(tally),
                 Count(questions, (q: Question) => q.userId == userId && q.createdAt >= weekAgo),
                 AccuracyRate(wrongCount, total));
    }

    /**
     * `get_recommendations`: the stripped points of the open rows' questions
     * (empty ones included), or the placeholder point when there are none;
     * at most three of them, with the last found question's subject, are
     * passed to the recommender.
     */
    method GetRecommendations(userId: int, complete: LlmService.Completion, parse: LlmService.JsonLoads)
      returns (points: seq<string>, subject: string, exercises: Json)
      requires Valid()
      ensures subject == LastSubject(OpenRows(wrongs, userId), questions)
      ensures PointSet(OpenRows(wrongs, userId), questions) == {} ==> points == [FALLBACK_POINT]
      ensures PointSet(OpenRows(wrongs, userId), questions) != {} ==>
        PickedPoints(points, PointSet(OpenRows(wrongs, userId), questions))
      ensures 1 <= |points| <= 3
      ensures exercises == LlmService.RecommendExercises(points, subject, complete, parse)
    {
      var pool;
      pool, subject := CollectPoints(OpenRows(wrongs, userId), questions);
      if pool == {} {
        points := [FALLBACK_POINT];
      } else {
        points := PickUpTo3(pool);
      }
      exercises := LlmService.RecommendExercises(points, subject, complete, parse);
    }

    /**
     * `get_history`: the caller's questions newest first, the page at
     * offset `(page - 1) * limit` of at most `limit` rows (SQLite treats a
     * negative offset as 0 and a negative limit as none), each with its
     * answer, and the caller's total.
     */
    method GetHistory(userId: int, page: int, limit: int) returns (h: HistoryPage)
      requires Valid()
      ensures var window := HistoryWindow(questions, userId, page, limit);
        |h.items| == |window| && forall i :: 0 <= i < |window| ==> h.items[i] == HistoryOf(window[i], answers)
      ensures h.total == Count(questions, (q: Question) => q.userId == userId)
      ensures h.page == page && h.limit == limit
      ensures forall i, j :: 0 <= i < j < |h.items| ==> h.items[i].createdAt > h.items[j].createdAt
    {
      var items := HistoryItems(HistoryWindow(questions, userId, page, limit), answers);
      h := HistoryPage(items, Count(questions, (q: Question) => q.userId == userId), page, limit);
      QuestionsOrdered(questions);
      HistoryNewestFirst(questions, userId, page, limit);
    }
  }

  // ---------------------------------------------------------------------
  // The loops of the read-only handlers
  // ---------------------------------------------------------------------

  /** `Entries` with the entries built so far in front of it; an error stays an error. */
  function Prepend(acc: seq<WrongEntry>, r: Result<seq<WrongEntry>, Failure>): Result<seq<WrongEntry>, Failure>
  {
    match r
    case Err(e) => Err(e)
    case Ok(rest) => Ok(acc + rest)
  }

  /** One row of the listing loop: its entry, if any, moves from the rest into the entries built so far. */
  lemma EntriesStep(rows: seq<WrongQuestion>, i: nat, acc: seq<WrongEntry>, questions: seq<Question>,
                    answers: seq<Answer>, parse: LlmService.JsonLoads, mode: Listing)
    requires i < |rows|
    ensures Render(rows[i], questions, answers, parse, mode).Err? ==>
      Prepend(acc, Entries(rows[i..], questions, answers, parse, mode)) == Err(ServerError)
    ensures Render(rows[i], questions, answers, parse, mode).Ok? ==>
      var e := Render(rows[i], questions, answers, parse, mode).value;
      Prepend(acc, Entries(rows[i..], questions, answers, parse, mode))
        == Prepend(acc + (if e.Some? then [e.value] else []), Entries(rows[i + 1..], questions, answers, parse, mode))
  {
    assert rows[i..][0] == rows[i];
    assert rows[i..][1..] == rows[i + 1..];
    var e := Render(rows[i], questions, answers, parse, mode);
    if e.Ok? {
      var rest := Entries(rows[i + 1..], questions, answers, parse, mode);
      if rest.Ok? {
        var front := if e.value.Some? then [e.value.value] else [];
        assert acc + (front + rest.value) == (acc + front) + rest.value;
      }
    }
  }

  /** The listing loop: each row rendered in order, the first undecodable steps aborting with 500. */
  method RenderRows(rows: seq<WrongQuestion>, questions: seq<Question>, answers: seq<Answer>,
                    parse: LlmService.JsonLoads, mode: Listing)
    returns (r: Result<seq<WrongEntry>, Failure>)
    ensures r == Entries(rows, questions, answers, parse, mode)
  {
    var acc: seq<WrongEntry> := [];
    var i := 0;
    assert rows[0..] == rows;
    assert Prepend([], Entries(rows, questions, answers, parse, mode)) == Entries(rows, questions, answers, parse, mode) by {
      var e := Entries(rows, questions, answers, parse, mode);
      if e.Ok? {
        assert [] + e.value == e.value;
      }
    }
    while i < |rows|
      invariant 0 <= i <= |rows|
      invariant Entries(rows, questions, answers, parse, mode)
        == Prepend(acc, Entries(rows[i..], questions, answers, parse, mode))
    {
      EntriesStep(rows, i, acc, questions, answers, parse, mode);
      var entry := Render(rows[i], questions, answers, parse, mode);
      if entry.Err? {
        return Err(ServerError);
      }
      if entry.value.Some? {
        acc := acc + [entry.value.value];
      } else {
        assert acc + [] == acc;
      }
      i := i + 1;
    }
    assert rows[i..] == [];
    assert acc + [] == acc;
    r := Ok(acc);
  }

  /** The inner statistics loop over one question's pieces: each non-empty stripped piece is counted. */
  method TallyPieces(tally: WeakPoints.Tally, done: seq<string>, pieces: seq<string>)
    returns (t: WeakPoints.Tally)
    requires tally == WeakPoints.TallyOf(done)
    ensures t == WeakPoints.TallyOf(done + WeakPoints.StrippedTokens(pieces))
  {
    t := tally;
    var j := 0;
    assert pieces[..0] == [] && done + [] == done;
    while j < |pieces|
      invariant 0 <= j <= |pieces|
      invariant t == WeakPoints.TallyOf(done + WeakPoints.StrippedTokens(pieces[..j]))
    {
      var kp := Strip(pieces[j]);
      WeakPoints.TallyPieceStep(done, pieces, j);
      if kp != "" {
        t := WeakPoints.Bump(t, kp);
      }
      j := j + 1;
    }
    assert pieces[..j] == pieces;
  }

  /** The statistics tally over the open rows, row after row. */
  method TallyRows(rows: seq<WrongQuestion>, questions: seq<Question>) returns (tally: WeakPoints.Tally)
    ensures tally == WeakPoints.TallyOf(RowTokens(rows, questions))
  {
    tally := [];
    var i := 0;
    assert rows[..0] == [];
    while i < |rows|
      invariant 0 <= i <= |rows|
      invariant tally == WeakPoints.TallyOf(RowTokens(rows[..i], questions))
    {
      var q := QuestionOf(questions, rows[i].questionId);
      RowTokensStep(rows, i, questions);
      if q.Some? && q.value.knowledgePoint != "" {
        tally := TallyPieces(tally, RowTokens(rows[..i], questions), Split(q.value.knowledgePoint, ","));
      }
      i := i + 1;
    }
    assert rows[..i] == rows;
  }

  /** The inner recommendation loop over one question's pieces: every stripped piece, empty ones included, joins the set. */
  method AddPieces(pool: set<string>, pieces: seq<string>) returns (p: set<string>)
    ensures p == pool + StrippedSet(pieces)
  {
    p := pool;
    var j := 0;
    assert pieces[..0] == [];
    while j < |pieces|
      invariant 0 <= j <= |pieces|
      invariant p == pool + StrippedSet(pieces[..j])
    {
      assert pieces[..j + 1][..j] == pieces[..j];
      p := p + {Strip(pieces[j])};
      j := j + 1;
    }
    assert pieces[..j] == pieces;
  }

  /** The recommendation loop: the point set of the rows and the subject of the last row whose question exists. */
  method CollectPoints(rows: seq<WrongQuestion>, questions: seq<Question>) returns (pool: set<string>, subject: string)
    ensures pool == PointSet(rows, questions)
    ensures subject == LastSubject(rows, questions)
  {
    pool := {};
    subject := DEFAULT_SUBJECT;
    var i := 0;
    assert rows[..0] == [];
    while i < |rows|
      invariant 0 <= i <= |rows|
      invariant pool == PointSet(rows[..i], questions)
      invariant subject == LastSubject(rows[..i], questions)
    {
      assert rows[..i + 1][..i] == rows[..i];
      var q := QuestionOf(questions, rows[i].questionId);
      if q.Some? {
        subject := if q.value.subject != "" then q.value.subject else DEFAULT_SUBJECT;
        if q.value.knowledgePoint != "" {
          pool := AddPieces(pool, Split(q.value.knowledgePoint, ","));
        }
      }
      i := i + 1;
    }
    assert rows[..i] == rows;
  }

  /** The history loop: one entry per question of the page, in the page's order. */
  method HistoryItems(window: seq<Question>, answers: seq<Answer>) returns (items: seq<HistoryEntry>)
    ensures |items| == |window| && forall i :: 0 <= i < |window| ==> items[i] == HistoryOf(window[i], answers)
  {
    items := [];
    var i := 0;
    while i < |window|
      invariant 0 <= i <= |window|
      invariant |items| == i && forall k :: 0 <= k < i ==> items[k] == HistoryOf(window[k], answers)
    {
      items := items + [HistoryOf(window[i], answers)];
      i := i + 1;
    }
  }

  /** Up to three distinct points taken from the set in an unspecified order, as `list(s)[:3]` does. */
  method PickUpTo3(pool: set<string>) returns (points: seq<string>)
    ensures PickedPoints(points, pool)
  {
    points := [];
    var rest := pool;
    while |points| < 3 && rest != {}
      invariant rest <= pool
      invariant |points| + |rest| == |pool|
      invariant |points| <= 3
      invariant forall i :: 0 <= i < |points| ==> points[i] in pool && points[i] !in rest
      invariant forall i, j :: 0 <= i < j < |points| ==> points[i] != points[j]
      decreases |rest|
    {
      var x :| x in rest;
      points := points + [x];
      rest := rest - {x};
    }
  }

  /**
   * Every entry's shape follows the listing: the open and full listings carry
   * the row's own reason and no knowledge points; the mastered listing
   * carries the question's knowledge points and no reason.
   */
  lemma EntriesShape(rows: seq<WrongQuestion>, questions: seq<Question>, answers: seq<Answer>,
                     parse: LlmService.JsonLoads, mode: Listing)
    ensures var r := Entries(rows, questions, answers, parse, mode);
      var kept := WithQuestion(rows, questions);
      r.Ok? ==> |r.value| == |kept| && forall i :: 0 <= i < |r.value| ==>
        && QuestionOf(questions, kept[i].questionId).Some?
        && (mode != Mastered ==> r.value[i].errorReason == Some(kept[i].errorReason) && r.value[i].knowledgePoint.None?)
        && (mode == Mastered ==>
              r.value[i].errorReason.None? &&
              r.value[i].knowledgePoint == Some(QuestionOf(questions, kept[i].questionId).value.knowledgePoint))
  {
    EntriesMatchRows(rows, questions, answers, parse, mode);
  }

  /** A listing over a table whose stamps grow is newest first. */
  lemma {:induction false} ListedNewestFirst(wrongs: seq<WrongQuestion>, userId: int, mode: Listing, questions: seq<Question>,
                          answers: seq<Answer>, parse: LlmService.JsonLoads)
    requires forall i, j :: 0 <= i < j < |wrongs| ==> wrongs[i].createdAt < wrongs[j].createdAt
    ensures var r := Entries(ListedRows(wrongs, userId, mode), questions, answers, parse, mode);
      r.Ok? ==> forall i, j :: 0 <= i < j < |r.value| ==> r.value[i].createdAt > r.value[j].createdAt
  {
    var rows := ListedRows(wrongs, userId, mode);
    var listed := (w: WrongQuestion) => InListing(w, userId, mode);
    var stamp := (w: WrongQuestion) => w.createdAt;
    NewestFirst(wrongs, listed, stamp);
    assert rows == Reverse(Filter(wrongs, listed));
    forall i, j | 0 <= i < j < |rows| ensures rows[i].createdAt > rows[j].createdAt {
      assert stamp(rows[i]) > stamp(rows[j]);
    }
    WithQuestionOrder(rows, questions);
    EntriesMatchRows(rows, questions, answers, parse, mode);
  }

  /** The caller's questions, newest first, over a table whose stamps grow. */
  lemma OwnQuestionsNewestFirst(questions: seq<Question>, userId: int)
    requires forall i, j :: 0 <= i < j < |questions| ==> questions[i].createdAt < questions[j].createdAt
    ensures forall i, j :: 0 <= i < j < |Reverse(OwnQuestions(questions, userId))| ==>
      Reverse(OwnQuestions(questions, userId))[i].createdAt > Reverse(OwnQuestions(questions, userId))[j].createdAt
  {
    var own := (q: Question) => q.userId == userId;
    NewestFirst(questions, own, (q: Question) => q.createdAt);
    assert forall i, j :: 0 <= i < j < |Reverse(Filter(questions, own))| ==>
      Reverse(Filter(questions, own))[i].createdAt > Reverse(Filter(questions, own))[j].createdAt;
  }

  /** A page cut from a newest-first listing is newest first. */
  lemma WindowNewestFirst(newest: seq<Question>, offset: int, limit: int)
    requires forall i, j :: 0 <= i < j < |newest| ==> newest[i].createdAt > newest[j].createdAt
    ensures var w := Window(newest, offset, limit);
      forall i, j :: 0 <= i < j < |w| ==> w[i].createdAt > w[j].createdAt
  {
    var a := if offset <= 0 then 0 else if offset <= |newest| then offset else |newest|;
    var w := Window(newest, offset, limit);
    assert w == newest[a..a + |w|];
    forall i, j | 0 <= i < j < |w| ensures w[i].createdAt > w[j].createdAt {
      assert w[i] == newest[a + i] && w[j] == newest[a + j];
    }
  }

  /** A history page over a table whose stamps grow is newest first. */
  lemma HistoryNewestFirst(questions: seq<Question>, userId: int, page: int, limit: int)
    requires forall i, j :: 0 <= i < j < |questions| ==> questions[i].createdAt < questions[j].createdAt
    ensures var w := HistoryWindow(questions, userId, page, limit);
      forall i, j :: 0 <= i < j < |w| ==> w[i].createdAt > w[j].createdAt
  {
    OwnQuestionsNewestFirst(questions, userId);
    WindowNewestFirst(Reverse(OwnQuestions(questions, userId)), (page - 1) * limit, limit);
  }
}
