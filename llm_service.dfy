/**
 * The adapter in front of the chat-completion endpoint: how each of the four
 * tasks (solve a question, review an essay, chat, recommend exercises)
 * builds its request, and how the reply text is turned into a result.
 *
 * The endpoint and `json.loads` are parameters: a `Completion` maps the
 * request to the reply text or to the text of the exception the client
 * raised, and a `JsonLoads` maps a text to the decoded value or to None when
 * decoding raises.
 */
module LlmService {
  import opened Wrappers
  import opened PyText
  import opened Json
  import PyDict

  datatype Part = TextPart(text: string) | ImageUrlPart(url: string)

  /** A message body: plain text, or a list of parts (text plus an image). */
  datatype Content = Plain(text: string) | Multipart(parts: seq<Part>)

  datatype Message = Message(role: string, content: Content)

  /** A `chat.completions.create` call; the temperature is the exact decimal the code passes. */
  datatype Request = Request(messages: seq<Message>, temperature: real, maxTokens: nat)

  type Completion = Request -> Result<string, string>

  type JsonLoads = string -> Option<Json>

  const JSON_FENCE: string := "```json"
  const FENCE: string := "```"
  const DATA_URI_PREFIX: string := "data:image/jpeg;base64,"
  const IMAGE_ONLY_TEXT: string := "请解答图片中的题目"
  const CHAT_APOLOGY: string := "抱歉，出现了一些问题："

  const SOLVE_SYSTEM_PROMPT: string :=
    "你是一位专业的K12教育辅导老师，擅长解答数学和理科题目。\n" +
    "请按以下格式回答：\n" +
    "1. 先给出最终答案\n" +
    "2. 然后分步骤详细解析，每一步都要清晰说明\n" +
    "3. 指出涉及的知识点\n" +
    "4. 给出类似题目的解题思路\n" +
    "\n" +
    "请用JSON格式返回：\n" +
    "{\n" +
    "    \"answer\": \"最终答案\",\n" +
    "    \"steps\": [\"步骤1：...\", \"步骤2：...\", ...],\n" +
    "    \"knowledge_points\": [\"知识点1\", \"知识点2\"],\n" +
    "    \"tips\": \"解题技巧提示\"\n" +
    "}"

  const REVIEW_SYSTEM_PROMPT: string :=
    "你是一位资深的语文老师，擅长作文批改和写作指导。\n" +
    "请从以下几个方面评价作文：\n" +
    "1. 审题立意（针对标题的理解和主题把握）\n" +
    "2. 结构（开头、主体、结尾的组织）\n" +
    "3. 语法（句子通顺、标点正确）\n" +
    "4. 用词（词汇丰富度、准确性）\n" +
    "5. 内容（主题明确、论述有力）\n" +
    "\n" +
    "请用JSON格式返回：\n" +
    "{\n" +
    "    \"overall_score\": 85,\n" +
    "    \"topic_analysis\": {\n" +
    "        \"possible_themes\": [\"可选主题1\", \"可选主题2\", \"可选主题3\"],\n" +
    "        \"examiner_purpose\": \"分析出题人的目的和考查重点\",\n" +
    "        \"key_points\": \"此作文应该突出的核心要点\",\n" +
    "        \"common_mistakes\": [\"审题误解的常见方向1\", \"审题误解的常见方向2\"]\n" +
    "    },\n" +
    "    \"structure\": {\n" +
    "        \"score\": 80,\n" +
    "        \"feedback\": \"结构方面的具体评价\",\n" +
    "        \"suggestions\": [\"建议1\", \"建议2\"]\n" +
    "    },\n" +
    "    \"grammar\": {\n" +
    "        \"score\": 90,\n" +
    "        \"feedback\": \"语法方面的具体评价\",\n" +
    "        \"errors\": [\"错误1\", \"错误2\"]\n" +
    "    },\n" +
    "    \"vocabulary\": {\n" +
    "        \"score\": 85,\n" +
    "        \"feedback\": \"用词方面的具体评价\",\n" +
    "        \"highlights\": [\"亮点词句1\"],\n" +
    "        \"improvements\": [\"可以改进的地方\"]\n" +
    "    },\n" +
    "    \"overall_feedback\": \"总体评价\",\n" +
    "    \"suggestions\": [\"修改建议1\", \"修改建议2\"]\n" +
    "}"

  const RECOMMEND_SYSTEM_PROMPT: string :=
    "你是一位教育专家，请根据学生的薄弱知识点生成针对性的练习题。\n" +
    "请用JSON格式返回3道练习题：\n" +
    "[\n" +
    "    {\n" +
    "        \"question\": \"题目内容\",\n" +
    "        \"options\": [\"A. 选项1\", \"B. 选项2\", \"C. 选项3\", \"D. 选项4\"],\n" +
    "        \"answer\": \"A\",\n" +
    "        \"explanation\": \"详细解析\",\n" +
    "        \"knowledge_point\": \"涉及的知识点\",\n" +
    "        \"difficulty\": 3\n" +
    "    }\n" +
    "]"

  const CHAT_SYSTEM_PROMPT: string :=
    "你是一位友善的学习助手，可以帮助中小学生解答学习和生活中的问题。\n" +
    "你的回答应该：\n" +
    "1. 通俗易懂，适合学生理解\n" +
    "2. 积极正面，给予鼓励\n" +
    "3. 如果涉及学习问题，给出具体的方法建议\n" +
    "4. 如果涉及生活问题，给出合理的建议和引导"

  // ---------------------------------------------------------------------
  // Fence extraction
  // ---------------------------------------------------------------------

  /**
   * The extraction as the code writes it (the same three lines in all three
   * JSON-returning tasks): `split("```json")[1].split("```")[0]` when the
   * text contains "```json", else `split("```")[1].split("```")[0]` when it
   * contains "```", else the text itself.
   */
  function ExtractJson(content: string): string
  {
    if Contains(content, JSON_FENCE) then Split(Split(content, JSON_FENCE)[1], FENCE)[0]
    else if Contains(content, FENCE) then Split(Split(content, FENCE)[1], FENCE)[0]
    else content
  }

  /**
   * The same extraction stated by positions. After the first "```json" comes
   * a tail `t`; the result is `t` up to its first "```", or all of `t` when it
   * has none. When that first "```" overlaps the next "```json" in `t` (a run
   * of four or more backticks before "json"), the cut falls at the "```json"
   * instead. Without "```json", the result is the text between the first
   * "```" and the next one, or to the end.
   */
  function ExtractByPosition(content: string): string
  {
    match Find(content, JSON_FENCE)
    case Some(i) =>
      var t := content[i + |JSON_FENCE|..];
      (match Find(t, FENCE)
       case None => t
       case Some(m) =>
         match Find(t, JSON_FENCE)
         case Some(j) => if j < m + |FENCE| then t[..j] else t[..m]
         case None => t[..m])
    case None =>
      match Find(content, FENCE)
      case None => content
      case Some(i) =>
        var t := content[i + |FENCE|..];
        match Find(t, FENCE)
        case None => t
        case Some(m) => t[..m]
  }

  /** Every "```json" starts with a "```". */
  lemma JsonFenceIsFence(s: string, k: int)
    ensures OccursAt(s, JSON_FENCE, k) ==> OccursAt(s, FENCE, k)
  {
    if OccursAt(s, JSON_FENCE, k) {
      SliceOfSlice(s, k, k + 7, 0, 3);
      assert s[k..k + 7][..3] == s[k..k + 7][0..3];
    }
  }

  /** The text before the first "```" of `t[..j]`, when `t` has "```json" at `j`. */
  lemma CutBeforeJsonFence(t: string, j: nat)
    requires Find(t, JSON_FENCE) == Some(j)
    ensures Find(t, FENCE).Some?
    ensures var m := Find(t, FENCE).value;
      Split(t[..j], FENCE)[0] == if j < m + |FENCE| then t[..j] else t[..m]
  {
    JsonFenceIsFence(t, j);
    var m := Find(t, FENCE).value;
    FindInPrefix(t, FENCE, j);
    SplitHead(t[..j], FENCE);
    if m + |FENCE| <= j {
      assert t[..j][..m] == t[..m];
    }
  }

  /** The code's extraction is the positional one. */
  lemma {:induction false} ExtractJsonByPosition(content: string)
    ensures ExtractJson(content) == ExtractByPosition(content)
  {
    if Contains(content, JSON_FENCE) {
      var i := Find(content, JSON_FENCE).value;
      var t := content[i + |JSON_FENCE|..];
      SplitSecond(content, JSON_FENCE);
      SplitHead(t, JSON_FENCE);
      match Find(t, JSON_FENCE)
      case Some(j) =>
        CutBeforeJsonFence(t, j);
      case None =>
        SplitHead(t, FENCE);
    } else if Contains(content, FENCE) {
      var i := Find(content, FENCE).value;
      var t := content[i + |FENCE|..];
      SplitSecond(content, FENCE);
      SplitHead(t, FENCE);
      var piece := Split(t, FENCE)[0];
      SplitSpec(t, FENCE);
      SplitHead(piece, FENCE);
    }
  }

  /** The positional extraction cuts out one contiguous part of the text. */
  lemma ExtractByPositionIsSlice(content: string)
    ensures exists i, j :: 0 <= i <= j <= |content| && ExtractByPosition(content) == content[i..j]
  {
    var n := |content|;
    match Find(content, JSON_FENCE)
    case Some(i) =>
      CutAfterIsSlice(content, i + |JSON_FENCE|, true);
    case None =>
      match Find(content, FENCE) {
        case None => assert content == content[0..n];
        case Some(i) => CutAfterIsSlice(content, i + |FENCE|, false);
      }
  }

  /** What follows an opening fence at `a` and is cut at the next fence (or a later "```json") is a slice. */
  lemma CutAfterIsSlice(content: string, a: nat, json: bool)
    requires a <= |content|
    ensures var t := content[a..];
      var piece := match Find(t, FENCE)
        case None => t
        case Some(m) =>
          if json && Find(t, JSON_FENCE).Some? && Find(t, JSON_FENCE).value < m + |FENCE| then t[..Find(t, JSON_FENCE).value]
          else t[..m];
      exists j :: a <= j <= |content| && piece == content[a..j]
  {
    var t := content[a..];
    var n := |content|;
    assert t == content[a..n];
    match Find(t, FENCE) {
      case None =>
      case Some(m) =>
        SliceOfSlice(content, a, n, 0, m);
        assert t[..m] == t[0..m];
        if json && Find(t, JSON_FENCE).Some? && Find(t, JSON_FENCE).value < m + |FENCE| {
          var j := Find(t, JSON_FENCE).value;
          SliceOfSlice(content, a, n, 0, j);
          assert t[..j] == t[0..j];
        }
    }
  }

  /**
   * What the extraction promises: its result holds no "```" at all, it is a
   * contiguous part of the reply, and a reply without any fence comes back
   * unchanged.
   */
  lemma ExtractJsonSpec(content: string)
    ensures !Contains(ExtractJson(content), FENCE)
    ensures exists i, j :: 0 <= i <= j <= |content| && ExtractJson(content) == content[i..j]
    ensures !Contains(content, FENCE) ==> ExtractJson(content) == content
  {
    ExtractJsonByPosition(content);
    ExtractByPositionIsSlice(content);
    if Contains(content, JSON_FENCE) {
      SplitSecond(content, JSON_FENCE);
      SplitSpec(Split(content, JSON_FENCE)[1], FENCE);
    } else if Contains(content, FENCE) {
      SplitSecond(content, FENCE);
      SplitSpec(Split(content, FENCE)[1], FENCE);
    }
    if !Contains(content, FENCE) {
      forall k ensures !OccursAt(content, JSON_FENCE, k) {
        JsonFenceIsFence(content, k);
      }
    }
  }

  /** Extracting twice is extracting once. */
  lemma ExtractJsonIdempotent(content: string)
    ensures ExtractJson(ExtractJson(content)) == ExtractJson(content)
  {
    ExtractJsonSpec(content);
    ExtractJsonSpec(ExtractJson(content));
  }

  // ---------------------------------------------------------------------
  // Result shapes
  // ---------------------------------------------------------------------

  /** The dict every JSON task returns when the endpoint call raised: `{"error": str(e)}`. */
  function ErrorResult(e: string): (r: Json)
    ensures r.JObj? && PyDict.Keys(r.fields) == ["error"]
    ensures PyDict.Get(r.fields, "error") == Some(JStr(e))
  {
    JObj([("error", JStr(e))])
  }

  /** Solve's fallback for a reply that does not decode: the extracted text as the answer. */
  function SolveFallback(text: string): (r: Json)
    ensures r.JObj? && PyDict.Keys(r.fields) == ["answer", "steps", "knowledge_points", "tips"]
    ensures PyDict.Get(r.fields, "answer") == Some(JStr(text))
    ensures PyDict.Get(r.fields, "steps") == Some(JArr([]))
    ensures PyDict.Get(r.fields, "knowledge_points") == Some(JArr([]))
    ensures PyDict.Get(r.fields, "tips") == Some(JStr(""))
  {
    var d := [("answer", JStr(text)), ("steps", JArr([])), ("knowledge_points", JArr([])), ("tips", JStr(""))];
    PyDict.GetUnique(d, 0);
    PyDict.GetUnique(d, 1);
    PyDict.GetUnique(d, 2);
    PyDict.GetUnique(d, 3);
    JObj(d)
  }

  /** Review's fallback for a reply that does not decode. */
  function ReviewFallback(text: string): (r: Json)
    ensures r.JObj? && PyDict.Keys(r.fields) == ["overall_feedback", "overall_score"]
    ensures PyDict.Get(r.fields, "overall_feedback") == Some(JStr(text))
    ensures PyDict.Get(r.fields, "overall_score") == Some(JNum(0.0))
  {
    var d := [("overall_feedback", JStr(text)), ("overall_score", JNum(0.0))];
    PyDict.GetUnique(d, 0);
    PyDict.GetUnique(d, 1);
    JObj(d)
  }

  /**
   * How the JSON tasks treat the endpoint's outcome: a raised call gives
   * `onError` of its message; a reply is fence-extracted and decoded, and a
   * reply that does not decode gives `fallback` of the extracted text.
   */
  function Interpret(reply: Result<string, string>, parse: JsonLoads,
                     fallback: string -> Json, onError: string -> Json): (r: Json)
    ensures reply.Err? ==> r == onError(reply.error)
    ensures reply.Ok? ==>
      var text := ExtractJson(reply.value);
      r == (if parse(text).Some? then parse(text).value else fallback(text))
  {
    match reply
    case Err(e) => onError(e)
    case Ok(content) =>
      var text := ExtractJson(content);
      match parse(text)
      case Some(v) => v
      case None => fallback(text)
  }

  // ---------------------------------------------------------------------
  // Solve a question
  // ---------------------------------------------------------------------

  /** Python truthiness of an optional string: present and non-empty. */
  predicate Truthy(s: Option<string>) {
    s.Some? && s.value != ""
  }

  /**
   * The solve request: the fixed system message, then the user's question.
   * With an image the user message has two parts, a text that is never empty
   * (the question, or a stock request when the question is empty) and a data
   * URI from which the image's base64 text can be read back.
   */
  function SolveRequest(question: string, imageBase64: Option<string>): (r: Request)
    ensures |r.messages| == 2
    ensures r.messages[0] == Message("system", Plain(SOLVE_SYSTEM_PROMPT))
    ensures r.messages[1].role == "user"
    ensures r.temperature == 0.7 && r.maxTokens == 2000
    ensures !Truthy(imageBase64) ==> r.messages[1].content == Plain(question)
    ensures Truthy(imageBase64) ==>
      && r.messages[1].content.Multipart?
      && |r.messages[1].content.parts| == 2
      && r.messages[1].content.parts[0].TextPart?
      && r.messages[1].content.parts[0].text != ""
      && (question != "" ==> r.messages[1].content.parts[0].text == question)
      && r.messages[1].content.parts[1].ImageUrlPart?
      && StartsWith(r.messages[1].content.parts[1].url, DATA_URI_PREFIX)
      && r.messages[1].content.parts[1].url[|DATA_URI_PREFIX|..] == imageBase64.value
  {
    var user :=
      if Truthy(imageBase64) then
        var url := DATA_URI_PREFIX + imageBase64.value;
        assert url[..|DATA_URI_PREFIX|] == DATA_URI_PREFIX;
        Message("user", Multipart([
          TextPart(if question != "" then question else IMAGE_ONLY_TEXT),
          ImageUrlPart(url)]))
      else Message("user", Plain(question));
    Request([Message("system", Plain(SOLVE_SYSTEM_PROMPT)), user], 0.7, 2000)
  }

  /**
   * `solve_math_question`: when the call raises, a dict whose only key is
   * "error"; when the reply does not decode, the fallback whose answer is the
   * extracted text (not the raw reply) with empty steps, knowledge points and
   * tips; otherwise whatever the reply decodes to.
   */
  function SolveMathQuestion(question: string, imageBase64: Option<string>,
                             complete: Completion, parse: JsonLoads): (r: Json)
    ensures var reply := complete(SolveRequest(question, imageBase64));
      && (reply.Err? ==>
            r.JObj? && PyDict.Keys(r.fields) == ["error"] && PyDict.Get(r.fields, "error") == Some(JStr(reply.error)))
      && (reply.Ok? && parse(ExtractJson(reply.value)).None? ==>
            && r.JObj? && !HasKey(r, "error")
            && PyDict.Get(r.fields, "answer") == Some(JStr(ExtractJson(reply.value)))
            && PyDict.Get(r.fields, "steps") == Some(JArr([]))
            && PyDict.Get(r.fields, "knowledge_points") == Some(JArr([]))
            && PyDict.Get(r.fields, "tips") == Some(JStr("")))
      && (reply.Ok? && parse(ExtractJson(reply.value)).Some? ==> r == parse(ExtractJson(reply.value)).value)
  {
    Interpret(complete(SolveRequest(question, imageBase64)), parse, SolveFallback, ErrorResult)
  }

  // ---------------------------------------------------------------------
  // Review an essay
  // ---------------------------------------------------------------------

  /** The header in front of the essay: its type, then its title. */
  function ReviewHeader(title: string, essayType: string): string
  {
    "请批改这篇" + essayType + "：\n\n标题：" + title + "\n\n"
  }

  /**
   * The review request: the rubric system message, then one user text made
   * of the header naming type and title, followed by the essay unchanged.
   */
  function ReviewRequest(title: string, content: string, essayType: string): (r: Request)
    ensures |r.messages| == 2
    ensures r.messages[0] == Message("system", Plain(REVIEW_SYSTEM_PROMPT))
    ensures r.messages[1].role == "user" && r.messages[1].content.Plain?
    ensures StartsWith(r.messages[1].content.text, ReviewHeader(title, essayType))
    ensures r.messages[1].content.text[|ReviewHeader(title, essayType)|..] == content
    ensures r.temperature == 0.7 && r.maxTokens == 2000
  {
    var text := ReviewHeader(title, essayType) + content;
    assert text[..|ReviewHeader(title, essayType)|] == ReviewHeader(title, essayType);
    Request([Message("system", Plain(REVIEW_SYSTEM_PROMPT)), Message("user", Plain(text))], 0.7, 2000)
  }

  /**
   * `review_essay`: when the call raises, a dict whose only key is "error";
   * when the reply does not decode, exactly the feedback text with a score of
   * 0; otherwise the decoded value.
   */
  function ReviewEssay(title: string, content: string, essayType: string,
                       complete: Completion, parse: JsonLoads): (r: Json)
    ensures var reply := complete(ReviewRequest(title, content, essayType));
      && (reply.Err? ==>
            r.JObj? && PyDict.Keys(r.fields) == ["error"] && PyDict.Get(r.fields, "error") == Some(JStr(reply.error)))
      && (reply.Ok? && parse(ExtractJson(reply.value)).None? ==>
            && r.JObj? && PyDict.Keys(r.fields) == ["overall_feedback", "overall_score"]
            && PyDict.Get(r.fields, "overall_feedback") == Some(JStr(ExtractJson(reply.value)))
            && PyDict.Get(r.fields, "overall_score") == Some(JNum(0.0)))
      && (reply.Ok? && parse(ExtractJson(reply.value)).Some? ==> r == parse(ExtractJson(reply.value)).value)
  {
    Interpret(complete(ReviewRequest(title, content, essayType)), parse, ReviewFallback, ErrorResult)
  }

  // ---------------------------------------------------------------------
  // Chat
  // ---------------------------------------------------------------------

  /**
   * The chat request: one system message (the custom prompt when it is
   * present and non-empty, otherwise the tutor persona) followed by the
   * given history, unchanged and in order.
   */
  function ChatRequest(history: seq<Message>, systemPrompt: Option<string>): (r: Request)
    ensures |r.messages| == |history| + 1
    ensures r.messages[0].role == "system"
    ensures r.messages[0].content == Plain(if Truthy(systemPrompt) then systemPrompt.value else CHAT_SYSTEM_PROMPT)
    ensures r.messages[1..] == history
    ensures r.temperature == 0.8 && r.maxTokens == 1000
  {
    var system := Message("system", Plain(if Truthy(systemPrompt) then systemPrompt.value else CHAT_SYSTEM_PROMPT));
    assert ([system] + history)[1..] == history;
    Request([system] + history, 0.8, 1000)
  }

  /**
   * `chat`: the reply text, or, when the call raises, the apology followed by
   * the error text; it never fails.
   */
  function Chat(history: seq<Message>, systemPrompt: Option<string>, complete: Completion): string
  {
    match complete(ChatRequest(history, systemPrompt))
    case Ok(text) => text
    case Err(e) => CHAT_APOLOGY + e
  }

  /** The reply is the model's text when the call succeeds, and the apology followed by the error text otherwise. */
  lemma ChatSpec(history: seq<Message>, systemPrompt: Option<string>, complete: Completion)
    ensures var reply := complete(ChatRequest(history, systemPrompt));
      && (reply.Ok? ==> Chat(history, systemPrompt, complete) == reply.value)
      && (reply.Err? ==> StartsWith(Chat(history, systemPrompt, complete), CHAT_APOLOGY)
                         && Chat(history, systemPrompt, complete)[|CHAT_APOLOGY|..] == reply.error)
  {
    var reply := complete(ChatRequest(history, systemPrompt));
    if reply.Err? {
      var r := CHAT_APOLOGY + reply.error;
      assert r[..|CHAT_APOLOGY|] == CHAT_APOLOGY;
      assert r[|CHAT_APOLOGY|..] == reply.error;
    }
  }

  // ---------------------------------------------------------------------
  // Recommend exercises
  // ---------------------------------------------------------------------

  /** The recommendation request: the fixed system message, then subject and weak points joined by ", ". */
  function RecommendRequest(weakPoints: seq<string>, subject: string): (r: Request)
    ensures |r.messages| == 2
    ensures r.messages[0] == Message("system", Plain(RECOMMEND_SYSTEM_PROMPT))
    ensures r.messages[1] == Message("user", Plain(
      "学科：" + subject + "\n薄弱知识点：" + Join(weakPoints, ", ") + "\n请生成3道针对性练习题。"))
    ensures r.temperature == 0.8 && r.maxTokens == 2000
  {
    var text := "学科：" + subject + "\n薄弱知识点：" + Join(weakPoints, ", ") + "\n请生成3道针对性练习题。";
    Request([Message("system", Plain(RECOMMEND_SYSTEM_PROMPT)), Message("user", Plain(text))], 0.8, 2000)
  }

  /**
   * `recommend_exercises`: the decoded reply, or the empty list both when
   * the call raises and when the reply does not decode.
   */
  function RecommendExercises(weakPoints: seq<string>, subject: string,
                              complete: Completion, parse: JsonLoads): (r: Json)
    ensures var reply := complete(RecommendRequest(weakPoints, subject));
      && (reply.Err? ==> r == JArr([]))
      && (reply.Ok? && parse(ExtractJson(reply.value)).None? ==> r == JArr([]))
      && (reply.Ok? && parse(ExtractJson(reply.value)).Some? ==> r == parse(ExtractJson(reply.value)).value)
  {
    Interpret(complete(RecommendRequest(weakPoints, subject)), parse, _ => JArr([]), _ => JArr([]))
  }
}
