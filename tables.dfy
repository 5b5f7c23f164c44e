/**
 * The records of the platform's tables and the queries the handlers run
 * over them. A table is the sequence of its rows in insertion order; ids are
 * assigned 1, 2, 3, ... and a creation stamp that grows with every insert
 * stands in for `created_at`.
 */
module Tables {
  import opened Wrappers
  import opened Json
  import opened PyText
  import opened Rows
  import opened Http
  import WeakPoints
  import LlmService

  datatype User = User(id: int, username: string, passwordHash: string, email: string, grade: string,
                       subjects: string, createdAt: nat, lastLogin: Option<nat>)

  datatype Question = Question(id: int, userId: int, content: string, imageUrl: Option<string>, subject: string,
                               knowledgePoint: string, createdAt: nat)

  /** `content` is whatever the model answered (a string, a number, null); `steps` the dumped steps list. */
  datatype Answer = Answer(id: int, questionId: int, content: Json, steps: string, createdAt: nat)

  /** A wrong-book row; `questionId` is None when the request carried no (or a null) question id. */
  datatype WrongQuestion = WrongQuestion(id: int, userId: int, questionId: Option<int>, errorReason: string,
                                         practiceCount: int, isMastered: bool, createdAt: nat)

  datatype Essay = Essay(id: int, userId: int, title: string, content: string, essayType: string,
                         overallScore: Json, structure: string, grammar: string, vocabulary: string,
                         suggestions: string, topicAnalysis: string, createdAt: nat)

  datatype ChatSession = ChatSession(id: int, userId: int, title: string, createdAt: nat)

  datatype ChatMessage = ChatMessage(id: int, sessionId: int, role: string, content: string, createdAt: nat)

  // Every table is numbered as SQLite numbers rows that are never deleted:
  // row `i` has id `i + 1`. In the tables some handler lists in
  // `created_at` order, the stamps also grow strictly along the table.

  predicate UsersNumbered(rows: seq<User>) {
    rows == [] || (UsersNumbered(rows[..|rows| - 1]) && rows[|rows| - 1].id == |rows|)
  }

  predicate QuestionsNumbered(rows: seq<Question>) {
    rows == [] || (QuestionsNumbered(rows[..|rows| - 1]) && rows[|rows| - 1].id == |rows|
                   && (|rows| > 1 ==> rows[|rows| - 2].createdAt < rows[|rows| - 1].createdAt))
  }

  predicate AnswersNumbered(rows: seq<Answer>) {
    rows == [] || (AnswersNumbered(rows[..|rows| - 1]) && rows[|rows| - 1].id == |rows|)
  }

  predicate WrongsNumbered(rows: seq<WrongQuestion>) {
    rows == [] || (WrongsNumbered(rows[..|rows| - 1]) && rows[|rows| - 1].id == |rows|
                   && (|rows| > 1 ==> rows[|rows| - 2].createdAt < rows[|rows| - 1].createdAt))
  }

  predicate EssaysNumbered(rows: seq<Essay>) {
    rows == [] || (EssaysNumbered(rows[..|rows| - 1]) && rows[|rows| - 1].id == |rows|)
  }

  predicate SessionsNumbered(rows: seq<ChatSession>) {
    rows == [] || (SessionsNumbered(rows[..|rows| - 1]) && rows[|rows| - 1].id == |rows|)
  }

  predicate MessagesNumbered(rows: seq<ChatMessage>) {
    rows == [] || (MessagesNumbered(rows[..|rows| - 1]) && rows[|rows| - 1].id == |rows|
                   && (|rows| > 1 ==> rows[|rows| - 2].createdAt < rows[|rows| - 1].createdAt))
  }

  /** No username is taken twice: each row's name differs from every earlier row's. */
  predicate DistinctUsernames(rows: seq<User>) {
    rows == [] ||
      (DistinctUsernames(rows[..|rows| - 1])
       && forall i :: 0 <= i < |rows| - 1 ==> rows[i].username != rows[|rows| - 1].username)
  }

  /** No `(user, question)` pair has two wrong-book rows: each row's pair differs from every earlier row's. */
  predicate DistinctWrongPairs(rows: seq<WrongQuestion>) {
    rows == [] ||
      (DistinctWrongPairs(rows[..|rows| - 1])
       && forall i :: 0 <= i < |rows| - 1 ==>
            !(rows[i].userId == rows[|rows| - 1].userId && rows[i].questionId == rows[|rows| - 1].questionId))
  }

  /** The distinctness invariants in their plain pairwise form. */
  lemma {:induction false} DistinctUsernamesPairwise(rows: seq<User>)
    requires DistinctUsernames(rows)
    ensures forall i, j :: 0 <= i < j < |rows| ==> rows[i].username != rows[j].username
  {
    if rows != [] {
      DistinctUsernamesPairwise(rows[..|rows| - 1]);
      assert forall i :: 0 <= i < |rows| - 1 ==> rows[..|rows| - 1][i] == rows[i];
    }
  }

  lemma {:induction false} DistinctWrongPairsPairwise(rows: seq<WrongQuestion>)
    requires DistinctWrongPairs(rows)
    ensures forall i, j :: 0 <= i < j < |rows| ==>
      !(rows[i].userId == rows[j].userId && rows[i].questionId == rows[j].questionId)
  {
    if rows != [] {
      DistinctWrongPairsPairwise(rows[..|rows| - 1]);
      assert forall i :: 0 <= i < |rows| - 1 ==> rows[..|rows| - 1][i] == rows[i];
    }
  }

  /** In a numbered user table row `i` has id `i + 1`. */
  lemma {:induction false} UsersIds(rows: seq<User>)
    requires UsersNumbered(rows)
    ensures forall i :: 0 <= i < |rows| ==> rows[i].id == i + 1
  {
    if rows != [] {
      UsersIds(rows[..|rows| - 1]);
      assert forall i :: 0 <= i < |rows| - 1 ==> rows[..|rows| - 1][i] == rows[i];
    }
  }

  /** Replacing a user row by one with the same id and name keeps the user invariants. */
  lemma {:induction false} UsersUpdate(rows: seq<User>, i: nat, u: User)
    requires i < |rows| && u.id == rows[i].id && u.username == rows[i].username
    requires UsersNumbered(rows) && DistinctUsernames(rows)
    ensures UsersNumbered(rows[i := u]) && DistinctUsernames(rows[i := u])
  {
    var n := |rows|;
    if i < n - 1 {
      UsersUpdate(rows[..n - 1], i, u);
      assert rows[i := u][..n - 1] == rows[..n - 1][i := u];
    } else {
      assert rows[i := u][..n - 1] == rows[..n - 1];
    }
  }

  /** Replacing a wrong-book row by one with the same id, stamp and pair keeps the wrong-book invariants. */
  lemma {:induction false} WrongsUpdate(rows: seq<WrongQuestion>, i: nat, w: WrongQuestion)
    requires i < |rows| && w.id == rows[i].id && w.createdAt == rows[i].createdAt
    requires w.userId == rows[i].userId && w.questionId == rows[i].questionId
    requires WrongsNumbered(rows) && DistinctWrongPairs(rows)
    ensures WrongsNumbered(rows[i := w]) && DistinctWrongPairs(rows[i := w])
  {
    var n := |rows|;
    if i < n - 1 {
      WrongsUpdate(rows[..n - 1], i, w);
      assert rows[i := w][..n - 1] == rows[..n - 1][i := w];
    } else {
      assert rows[i := w][..n - 1] == rows[..n - 1];
    }
  }

  /** In a numbered question table the stamps grow along the whole table. */
  lemma {:induction false} QuestionsOrdered(rows: seq<Question>)
    requires QuestionsNumbered(rows)
    ensures forall i, j :: 0 <= i < j < |rows| ==> rows[i].createdAt < rows[j].createdAt
  {
    if rows != [] {
      var n := |rows|;
      QuestionsOrdered(rows[..n - 1]);
      assert forall i :: 0 <= i < n - 1 ==> rows[..n - 1][i] == rows[i];
      if n > 1 {
        assert forall i :: 0 <= i < n - 1 ==> rows[i].createdAt <= rows[n - 2].createdAt;
      }
    }
  }

  /** In a numbered wrong-book table the stamps grow along the whole table. */
  lemma {:induction false} WrongsOrdered(rows: seq<WrongQuestion>)
    requires WrongsNumbered(rows)
    ensures forall i, j :: 0 <= i < j < |rows| ==> rows[i].createdAt < rows[j].createdAt
  {
    if rows != [] {
      var n := |rows|;
      WrongsOrdered(rows[..n - 1]);
      assert forall i :: 0 <= i < n - 1 ==> rows[..n - 1][i] == rows[i];
      if n > 1 {
        assert forall i :: 0 <= i < n - 1 ==> rows[i].createdAt <= rows[n - 2].createdAt;
      }
    }
  }

  /** Reversing a table whose stamps grow gives a listing whose stamps fall: newest first. */
  lemma {:induction false} FilterKeepsOrder<T>(rows: seq<T>, p: T -> bool, stamp: T -> nat)
    requires forall i, j :: 0 <= i < j < |rows| ==> stamp(rows[i]) < stamp(rows[j])
    ensures forall i, j :: 0 <= i < j < |Filter(rows, p)| ==> stamp(Filter(rows, p)[i]) < stamp(Filter(rows, p)[j])
  {
    if rows != [] {
      var r' := rows[..|rows| - 1];
      var x := rows[|rows| - 1];
      FilterKeepsOrder(r', p, stamp);
      var f' := Filter(r', p);
      forall i | 0 <= i < |f'| ensures stamp(f'[i]) < stamp(x) {
        assert f'[i] in r';
        var k :| 0 <= k < |r'| && r'[k] == f'[i];
        assert r'[k] == rows[k];
      }
      var f := Filter(rows, p);
      assert f == f' + (if p(x) then [x] else []);
      forall i, j | 0 <= i < j < |f| ensures stamp(f[i]) < stamp(f[j]) {
        assert f[i] == f'[i];
        if j < |f'| {
          assert f[j] == f'[j];
        }
      }
    }
  }

  lemma NewestFirst<T>(rows: seq<T>, p: T -> bool, stamp: T -> nat)
    requires forall i, j :: 0 <= i < j < |rows| ==> stamp(rows[i]) < stamp(rows[j])
    ensures var r := Reverse(Filter(rows, p));
      forall i, j :: 0 <= i < j < |r| ==> stamp(r[i]) > stamp(r[j])
  {
    FilterKeepsOrder(rows, p, stamp);
  }

  // ---------------------------------------------------------------------
  // Lookups
  // ---------------------------------------------------------------------

  /** `query(Question).filter(Question.id == question_id).first()`; a null id matches nothing. */
  function QuestionOf(questions: seq<Question>, questionId: Option<int>): (r: Option<Question>)
    ensures r.Some? ==> questionId.Some? && r.value in questions && r.value.id == questionId.value
    ensures questionId.Some? && (exists i :: 0 <= i < |questions| && questions[i].id == questionId.value) ==> r.Some?
  {
    if questionId.None? then None else First(questions, (q: Question) => q.id == questionId.value)
  }

  /** `query(Answer).filter(Answer.question_id == question_id).first()`. */
  function AnswerOf(answers: seq<Answer>, questionId: Option<int>): (r: Option<Answer>)
    ensures r.Some? ==> questionId.Some? && r.value in answers && r.value.questionId == questionId.value
    ensures questionId.Some? && (exists i :: 0 <= i < |answers| && answers[i].questionId == questionId.value) ==> r.Some?
  {
    if questionId.None? then None else First(answers, (a: Answer) => a.questionId == questionId.value)
  }

  /** Adding an answer for another question does not change which answer a question has. */
  lemma AnswerOfAppend(answers: seq<Answer>, a: Answer, questionId: Option<int>)
    ensures AnswerOf(answers + [a], questionId) ==
      if AnswerOf(answers, questionId).Some? then AnswerOf(answers, questionId)
      else if questionId == Some(a.questionId) then Some(a) else None
  {
    if questionId.Some? {
      FirstAppend(answers, a, (x: Answer) => x.questionId == questionId.value);
    }
  }

  // ---------------------------------------------------------------------
  // Wrong-book listings
  // ---------------------------------------------------------------------

  /** Which of the caller's rows a listing shows: the open ones, all of them, or the mastered ones. */
  datatype Listing = Open | All | Mastered

  predicate InListing(w: WrongQuestion, userId: int, mode: Listing) {
    w.userId == userId && match mode
      case Open => !w.isMastered
      case All => true
      case Mastered => w.isMastered
  }

  /** The rows a listing walks through, newest first. */
  function ListedRows(wrongs: seq<WrongQuestion>, userId: int, mode: Listing): seq<WrongQuestion>
  {
    Reverse(Filter(wrongs, (w: WrongQuestion) => InListing(w, userId, mode)))
  }

  /**
   * The open listing and the mastered listing are the full listing split by
   * the mastered flag, each in the full listing's order; so every row of the
   * full listing is in exactly one of them.
   */
  lemma ListingsPartition(wrongs: seq<WrongQuestion>, userId: int)
    ensures ListedRows(wrongs, userId, Open) == Filter(ListedRows(wrongs, userId, All), (w: WrongQuestion) => !w.isMastered)
    ensures ListedRows(wrongs, userId, Mastered) == Filter(ListedRows(wrongs, userId, All), (w: WrongQuestion) => w.isMastered)
  {
    ReverseFilterSplit(wrongs, (w: WrongQuestion) => InListing(w, userId, All), (w: WrongQuestion) => !w.isMastered,
                       (w: WrongQuestion) => InListing(w, userId, Open));
    ReverseFilterSplit(wrongs, (w: WrongQuestion) => InListing(w, userId, All), (w: WrongQuestion) => w.isMastered,
                       (w: WrongQuestion) => InListing(w, userId, Mastered));
  }

  /**
   * One entry of a listing. The open/full listing carries the error reason,
   * the mastered listing the knowledge points instead.
   */
  datatype WrongEntry = WrongEntry(id: int, questionId: int, content: string, imageUrl: Option<string>,
                                   subject: string, knowledgePoint: Option<string>, answer: Json, steps: Json,
                                   errorReason: Option<string>, practiceCount: int, createdAt: nat)

  /**
   * An entry shows its row and the row's question: the row's id, stamp,
   * practice count and question id; the question's content, image and
   * subject; the row's reason on the open and full listings, the question's
   * knowledge points on the mastered one; the first answer's content and
   * decoded steps, or "" and `[]` without an answer or without stored steps.
   */
  predicate EntryOf(e: WrongEntry, w: WrongQuestion, questions: seq<Question>, answers: seq<Answer>,
                    parse: LlmService.JsonLoads, mode: Listing)
  {
    var q := QuestionOf(questions, w.questionId);
    var a := AnswerOf(answers, w.questionId);
    && q.Some?
    && e.id == w.id && Some(e.questionId) == w.questionId
    && e.createdAt == w.createdAt && e.practiceCount == w.practiceCount
    && e.content == q.value.content && e.imageUrl == q.value.imageUrl && e.subject == q.value.subject
    && e.errorReason == (if mode == Mastered then None else Some(w.errorReason))
    && e.knowledgePoint == (if mode == Mastered then Some(q.value.knowledgePoint) else None)
    && e.answer == (if a.Some? then a.value.content else JStr(""))
    && (a.None? || a.value.steps == "" ==> e.steps == JArr([]))
    && (a.Some? && a.value.steps != "" ==> parse(a.value.steps) == Some(e.steps))
  }

  /**
   * The entry for one row: none when its question is missing; a server
   * error exactly when the question exists and its first answer's stored
   * steps are non-empty and do not decode; otherwise the entry showing the
   * row and its question.
   */
  function Render(w: WrongQuestion, questions: seq<Question>, answers: seq<Answer>,
                  parse: LlmService.JsonLoads, mode: Listing): (r: Result<Option<WrongEntry>, Failure>)
    ensures r.Err? ==> r.error == ServerError
    ensures var a := AnswerOf(answers, w.questionId);
      r.Err? <==> QuestionOf(questions, w.questionId).Some? && a.Some? && a.value.steps != "" && parse(a.value.steps).None?
    ensures r.Ok? ==> (r.value.Some? <==> QuestionOf(questions, w.questionId).Some?)
    ensures r.Ok? && r.value.Some? ==> EntryOf(r.value.value, w, questions, answers, parse, mode)
  {
    match QuestionOf(questions, w.questionId)
    case None => Ok(None)
    case Some(q) =>
      var a := AnswerOf(answers, w.questionId);
      var steps := if a.Some? && a.value.steps != "" then parse(a.value.steps) else Some(JArr([]));
      if steps.None? then Err(ServerError)
      else
        Ok(Some(WrongEntry(w.id, q.id, q.content, q.imageUrl, q.subject,
                           if mode == Mastered then Some(q.knowledgePoint) else None,
                           if a.Some? then a.value.content else JStr(""), steps.value,
                           if mode == Mastered then None else Some(w.errorReason),
                           w.practiceCount, w.createdAt)))
  }

  /** The listing built row by row; the first row whose steps do not decode aborts it. */
  function Entries(rows: seq<WrongQuestion>, questions: seq<Question>, answers: seq<Answer>,
                   parse: LlmService.JsonLoads, mode: Listing): (r: Result<seq<WrongEntry>, Failure>)
    ensures r.Err? ==> r.error == ServerError
    ensures r.Ok? ==> |r.value| <= |rows|
  {
    if rows == [] then Ok([])
    else
      match Render(rows[0], questions, answers, parse, mode)
      case Err(e) => Err(e)
      case Ok(entry) =>
        match Entries(rows[1..], questions, answers, parse, mode)
        case Err(e) => Err(e)
        case Ok(rest) => Ok((if entry.Some? then [entry.value] else []) + rest)
  }

  /** The rows of a listing that have their question. */
  function WithQuestion(rows: seq<WrongQuestion>, questions: seq<Question>): (r: seq<WrongQuestion>)
    ensures |r| <= |rows|
  {
    if rows == [] then []
    else (if QuestionOf(questions, rows[0].questionId).Some? then [rows[0]] else []) + WithQuestion(rows[1..], questions)
  }

  /**
   * A listing that succeeds has one entry per row whose question exists, in
   * the rows' order, each showing its row and question. Rows whose question
   * is missing are skipped.
   */
  lemma {:induction false} EntriesMatchRows(rows: seq<WrongQuestion>, questions: seq<Question>, answers: seq<Answer>,
                                            parse: LlmService.JsonLoads, mode: Listing)
    ensures var r := Entries(rows, questions, answers, parse, mode);
      var kept := WithQuestion(rows, questions);
      r.Ok? ==> |r.value| == |kept| && forall i :: 0 <= i < |kept| ==> EntryOf(r.value[i], kept[i], questions, answers, parse, mode)
  {
    if rows != [] && Entries(rows, questions, answers, parse, mode).Ok? {
      EntriesMatchRows(rows[1..], questions, answers, parse, mode);
      ConsMatch(Render(rows[0], questions, answers, parse, mode).value, rows[0],
                QuestionOf(questions, rows[0].questionId).Some?,
                Entries(rows[1..], questions, answers, parse, mode).value, WithQuestion(rows[1..], questions),
                (e: WrongEntry, w: WrongQuestion) => EntryOf(e, w, questions, answers, parse, mode));
    }
  }

  /** Putting a matching entry (or none) in front of matching listings keeps them matching. */
  lemma ConsMatch(e: Option<WrongEntry>, w: WrongQuestion, has: bool, rest: seq<WrongEntry>, tail: seq<WrongQuestion>,
                  shows: (WrongEntry, WrongQuestion) -> bool)
    requires |rest| == |tail| && forall i :: 0 <= i < |tail| ==> shows(rest[i], tail[i])
    requires e.Some? <==> has
    requires e.Some? ==> shows(e.value, w)
    ensures var r := (if e.Some? then [e.value] else []) + rest;
      var k := (if has then [w] else []) + tail;
      |r| == |k| && forall i :: 0 <= i < |k| ==> shows(r[i], k[i])
  {
    var r := (if e.Some? then [e.value] else []) + rest;
    var k := (if has then [w] else []) + tail;
    if has {
      forall i | 1 <= i < |k| ensures shows(r[i], k[i]) {
        assert r[i] == rest[i - 1] && k[i] == tail[i - 1];
      }
    } else {
      assert r == rest && k == tail;
    }
  }

  /** `WithQuestion` only drops rows: everything it keeps is one of the rows. */
  lemma {:induction false} WithQuestionSubset(rows: seq<WrongQuestion>, questions: seq<Question>)
    ensures forall i :: 0 <= i < |WithQuestion(rows, questions)| ==> WithQuestion(rows, questions)[i] in rows
  {
    if rows != [] {
      WithQuestionSubset(rows[1..], questions);
      assert forall w :: w in rows[1..] ==> w in rows;
    }
  }

  /** Every row a listing shows belongs to the caller and to that listing. */
  lemma ListedRowsIn(wrongs: seq<WrongQuestion>, userId: int, mode: Listing, questions: seq<Question>)
    ensures forall i :: 0 <= i < |WithQuestion(ListedRows(wrongs, userId, mode), questions)| ==>
      InListing(WithQuestion(ListedRows(wrongs, userId, mode), questions)[i], userId, mode)
  {
    var listed := (w: WrongQuestion) => InListing(w, userId, mode);
    var rows := ListedRows(wrongs, userId, mode);
    assert forall w :: w in rows ==> listed(w) by {
      forall w | w in rows ensures listed(w) {
        var i :| 0 <= i < |rows| && rows[i] == w;
        assert rows[i] == Filter(wrongs, listed)[|rows| - 1 - i];
      }
    }
    WithQuestionSubset(rows, questions);
  }

  /** `WithQuestion` only drops rows, so a bound on every row's stamp holds for what it keeps. */
  lemma {:induction false} WithQuestionBound(rows: seq<WrongQuestion>, questions: seq<Question>, bound: int)
    requires forall i :: 0 <= i < |rows| ==> rows[i].createdAt < bound
    ensures forall i :: 0 <= i < |WithQuestion(rows, questions)| ==> WithQuestion(rows, questions)[i].createdAt < bound
  {
    if rows != [] {
      assert forall i :: 0 <= i < |rows[1..]| ==> rows[1..][i] == rows[i + 1];
      WithQuestionBound(rows[1..], questions, bound);
    }
  }

  /** `WithQuestion` keeps rows in order, so a newest-first listing stays newest first. */
  lemma {:induction false} WithQuestionOrder(rows: seq<WrongQuestion>, questions: seq<Question>)
    requires forall i, j :: 0 <= i < j < |rows| ==> rows[i].createdAt > rows[j].createdAt
    ensures forall i, j :: 0 <= i < j < |WithQuestion(rows, questions)| ==>
      WithQuestion(rows, questions)[i].createdAt > WithQuestion(rows, questions)[j].createdAt
  {
    if rows != [] {
      var tail := rows[1..];
      assert forall i :: 0 <= i < |tail| ==> tail[i] == rows[i + 1];
      WithQuestionOrder(tail, questions);
      WithQuestionBound(tail, questions, rows[0].createdAt);
      ConsNewestFirst(rows[0], QuestionOf(questions, rows[0].questionId).Some?, WithQuestion(tail, questions));
    }
  }

  /** A row newer than every row of a newest-first listing can go in front of it. */
  lemma ConsNewestFirst(w: WrongQuestion, keep: bool, rest: seq<WrongQuestion>)
    requires forall i, j :: 0 <= i < j < |rest| ==> rest[i].createdAt > rest[j].createdAt
    requires forall i :: 0 <= i < |rest| ==> rest[i].createdAt < w.createdAt
    ensures var k := (if keep then [w] else []) + rest;
      forall i, j :: 0 <= i < j < |k| ==> k[i].createdAt > k[j].createdAt
  {
    var k := (if keep then [w] else []) + rest;
    if keep {
      forall i, j | 0 <= i < j < |k| ensures k[i].createdAt > k[j].createdAt {
        assert k[j] == rest[j - 1];
        if i > 0 {
          assert k[i] == rest[i - 1];
        }
      }
    } else {
      assert k == rest;
    }
  }

  // ---------------------------------------------------------------------
  // Statistics and recommendations
  // ---------------------------------------------------------------------

  /** The caller's open rows in table order (`.all()` without an ordering). */
  function OpenRows(wrongs: seq<WrongQuestion>, userId: int): seq<WrongQuestion>
  {
    Filter(wrongs, (w: WrongQuestion) => InListing(w, userId, Open))
  }

  /** The tokens one row adds to the statistics tally. */
  function RowPointTokens(w: WrongQuestion, questions: seq<Question>): seq<string>
  {
    match QuestionOf(questions, w.questionId)
    case None => []
    case Some(q) => WeakPoints.PointTokens(q.knowledgePoint)
  }

  /** All tokens the statistics tally counts, row after row. */
  function RowTokens(rows: seq<WrongQuestion>, questions: seq<Question>): (r: seq<string>)
    ensures forall i :: 0 <= i < |r| ==> r[i] != ""
  {
    if rows == [] then []
    else RowTokens(rows[..|rows| - 1], questions) + RowPointTokens(rows[|rows| - 1], questions)
  }

  lemma RowTokensAppend(rows: seq<WrongQuestion>, w: WrongQuestion, questions: seq<Question>)
    ensures RowTokens(rows + [w], questions) == RowTokens(rows, questions) + RowPointTokens(w, questions)
  {
    assert (rows + [w])[..|rows|] == rows;
  }

  /** The tokens of one more row: its question's stripped pieces when it has points, nothing otherwise. */
  lemma RowTokensStep(rows: seq<WrongQuestion>, i: nat, questions: seq<Question>)
    requires i < |rows|
    ensures var q := QuestionOf(questions, rows[i].questionId);
      q.Some? && q.value.knowledgePoint != "" ==>
        RowTokens(rows[..i + 1], questions)
          == RowTokens(rows[..i], questions) + WeakPoints.StrippedTokens(Split(q.value.knowledgePoint, ","))
    ensures var q := QuestionOf(questions, rows[i].questionId);
      !(q.Some? && q.value.knowledgePoint != "") ==> RowTokens(rows[..i + 1], questions) == RowTokens(rows[..i], questions)
  {
    assert rows[..i + 1] == rows[..i] + [rows[i]];
    RowTokensAppend(rows[..i], rows[i], questions);
    assert RowTokens(rows[..i], questions) + [] == RowTokens(rows[..i], questions);
  }

  /** Every stripped piece, the empty one included: recommendations do not drop empty pieces. */
  function StrippedSet(pieces: seq<string>): set<string>
  {
    if pieces == [] then {}
    else StrippedSet(pieces[..|pieces| - 1]) + {Strip(pieces[|pieces| - 1])}
  }

  /** The set holds the stripped form of every piece and nothing else. */
  lemma {:induction false} StrippedSetSpec(pieces: seq<string>)
    ensures forall i :: 0 <= i < |pieces| ==> Strip(pieces[i]) in StrippedSet(pieces)
    ensures forall t :: t in StrippedSet(pieces) ==> exists i :: 0 <= i < |pieces| && t == Strip(pieces[i])
  {
    if pieces != [] {
      var init := pieces[..|pieces| - 1];
      StrippedSetSpec(init);
      assert forall i :: 0 <= i < |init| ==> init[i] == pieces[i];
      forall t | t in StrippedSet(pieces) ensures exists i :: 0 <= i < |pieces| && t == Strip(pieces[i]) {
        if t in StrippedSet(init) {
          var i :| 0 <= i < |init| && t == Strip(init[i]);
          assert t == Strip(pieces[i]);
        } else {
          assert t == Strip(pieces[|pieces| - 1]);
        }
      }
    }
  }

  /** The points one row adds to the recommendation set. */
  function RowPointSet(w: WrongQuestion, questions: seq<Question>): set<string>
  {
    match QuestionOf(questions, w.questionId)
    case None => {}
    case Some(q) => if q.knowledgePoint == "" then {} else StrippedSet(Split(q.knowledgePoint, ","))
  }

  function PointSet(rows: seq<WrongQuestion>, questions: seq<Question>): set<string>
  {
    if rows == [] then {}
    else PointSet(rows[..|rows| - 1], questions) + RowPointSet(rows[|rows| - 1], questions)
  }

  const DEFAULT_SUBJECT: string := "数学"
  const FALLBACK_POINT: string := "基础运算"

  /** The subject of the last row whose question exists (an empty subject reads as the default), else the default. */
  function LastSubject(rows: seq<WrongQuestion>, questions: seq<Question>): (r: string)
    ensures r != ""
  {
    if rows == [] then DEFAULT_SUBJECT
    else
      match QuestionOf(questions, rows[|rows| - 1].questionId)
      case Some(q) => if q.subject != "" then q.subject else DEFAULT_SUBJECT
      case None => LastSubject(rows[..|rows| - 1], questions)
  }

  /** Without any found question the recommendation subject is the default. */
  lemma {:induction false} LastSubjectDefault(rows: seq<WrongQuestion>, questions: seq<Question>)
    requires forall i :: 0 <= i < |rows| ==> QuestionOf(questions, rows[i].questionId).None?
    ensures LastSubject(rows, questions) == DEFAULT_SUBJECT
  {
    if rows != [] {
      var r' := rows[..|rows| - 1];
      assert forall i :: 0 <= i < |r'| ==> r'[i] == rows[i];
      LastSubjectDefault(r', questions);
    }
  }

  /**
   * The recommendation subject is the subject of the last row whose question
   * exists, when that subject is not empty.
   */
  lemma {:induction false} LastSubjectLast(rows: seq<WrongQuestion>, questions: seq<Question>, i: nat)
    requires i < |rows| && QuestionOf(questions, rows[i].questionId).Some?
    requires QuestionOf(questions, rows[i].questionId).value.subject != ""
    requires forall j :: i < j < |rows| ==> QuestionOf(questions, rows[j].questionId).None?
    ensures LastSubject(rows, questions) == QuestionOf(questions, rows[i].questionId).value.subject
  {
    if i < |rows| - 1 {
      var r' := rows[..|rows| - 1];
      assert forall j :: 0 <= j < |r'| ==> r'[j] == rows[j];
      LastSubjectLast(r', questions, i);
    }
  }

  // ---------------------------------------------------------------------
  // History and chat
  // ---------------------------------------------------------------------

  datatype HistoryEntry = HistoryEntry(id: int, content: string, imageUrl: Option<string>, subject: string,
                                       answer: Json, createdAt: nat)

  /** The history entry for one question: its fields and its first answer's content, or "" without one. */
  function HistoryOf(q: Question, answers: seq<Answer>): (e: HistoryEntry)
    ensures e.id == q.id && e.createdAt == q.createdAt
    ensures e.content == q.content && e.imageUrl == q.imageUrl && e.subject == q.subject
    ensures AnswerOf(answers, Some(q.id)).None? ==> e.answer == JStr("")
    ensures AnswerOf(answers, Some(q.id)).Some? ==>
      AnswerOf(answers, Some(q.id)).value.questionId == q.id && e.answer == AnswerOf(answers, Some(q.id)).value.content
  {
    var a := AnswerOf(answers, Some(q.id));
    HistoryEntry(q.id, q.content, q.imageUrl, q.subject, if a.Some? then a.value.content else JStr(""), q.createdAt)
  }

  /** The caller's questions in table order. */
  function OwnQuestions(questions: seq<Question>, userId: int): seq<Question>
  {
    Filter(questions, (q: Question) => q.userId == userId)
  }

  /** The caller's questions newest first, cut to the requested page. */
  function HistoryWindow(questions: seq<Question>, userId: int, page: int, limit: int): seq<Question>
  {
    Window(Reverse(OwnQuestions(questions, userId)), (page - 1) * limit, limit)
  }

  /** A session's messages in table (creation) order. */
  function SessionMessages(messages: seq<ChatMessage>, sessionId: int): seq<ChatMessage>
  {
    Filter(messages, (m: ChatMessage) => m.sessionId == sessionId)
  }

  /** A session's messages in creation order, as the role/content pairs sent to the model. */
  function SessionHistory(messages: seq<ChatMessage>, sessionId: int): seq<LlmService.Message>
  {
    if messages == [] then []
    else
      var m := messages[|messages| - 1];
      SessionHistory(messages[..|messages| - 1], sessionId)
        + (if m.sessionId == sessionId then [LlmService.Message(m.role, LlmService.Plain(m.content))] else [])
  }

  /** The history sent to the model is exactly the session's messages, in order, as role/content pairs. */
  lemma {:induction false} SessionHistorySpec(messages: seq<ChatMessage>, sessionId: int)
    ensures |SessionHistory(messages, sessionId)| == |SessionMessages(messages, sessionId)|
    ensures forall i :: 0 <= i < |SessionHistory(messages, sessionId)| ==>
      SessionHistory(messages, sessionId)[i]
        == LlmService.Message(SessionMessages(messages, sessionId)[i].role,
                              LlmService.Plain(SessionMessages(messages, sessionId)[i].content))
  {
    if messages != [] {
      SessionHistorySpec(messages[..|messages| - 1], sessionId);
    }
  }

  /** Storing a message extends its session's history by it and leaves the other sessions' histories alone. */
  lemma SessionHistoryAppend(messages: seq<ChatMessage>, m: ChatMessage, sessionId: int)
    ensures SessionHistory(messages + [m], sessionId) == SessionHistory(messages, sessionId)
      + (if m.sessionId == sessionId then [LlmService.Message(m.role, LlmService.Plain(m.content))] else [])
  {
    assert (messages + [m])[..|messages|] == messages;
  }

  /** All tables and the stamp counter as one value, the state a handler's contract compares before and after. */
  datatype Db = Db(users: seq<User>, questions: seq<Question>, answers: seq<Answer>, wrongs: seq<WrongQuestion>,
                   essays: seq<Essay>, sessions: seq<ChatSession>, messages: seq<ChatMessage>, clock: nat)

  /**
   * What every committed state satisfies: ids number each table's rows,
   * the ordered tables' stamps are below the next stamp to be handed out,
   * no username is taken twice and no (user, question) pair has two
   * wrong-book rows.
   */
  ghost predicate Consistent(db: Db) {
    && UsersNumbered(db.users) && QuestionsNumbered(db.questions) && AnswersNumbered(db.answers)
    && WrongsNumbered(db.wrongs) && EssaysNumbered(db.essays) && SessionsNumbered(db.sessions)
    && MessagesNumbered(db.messages)
    && (|db.questions| > 0 ==> db.questions[|db.questions| - 1].createdAt < db.clock)
    && (|db.wrongs| > 0 ==> db.wrongs[|db.wrongs| - 1].createdAt < db.clock)
    && (|db.messages| > 0 ==> db.messages[|db.messages| - 1].createdAt < db.clock)
    && DistinctUsernames(db.users)
    && DistinctWrongPairs(db.wrongs)
  }
}
