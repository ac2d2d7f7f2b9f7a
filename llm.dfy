/**
 * The summarisation call of `llm.py`: the request sent to the Ollama
 * `/api/chat` endpoint, the field read back from its JSON answer, and the
 * removal of DeepSeek-R1 `<think>...</think>` reasoning blocks.
 */
module Llm {
  import opened Wrappers
  import opened Text

  /** A JSON value as decoded by `Response.json()` (numbers restricted to integers). */
  datatype Json =
    | JNull
    | JBool(b: bool)
    | JNumber(n: int)
    | JString(s: string)
    | JArray(items: seq<Json>)
    | JObject(fields: map<string, Json>)

  /** An HTTP POST with a JSON body. */
  datatype ChatRequest = ChatRequest(url: string, body: Json, timeout: nat)

  const DefaultModel := "deepseek-r1:1.5b"
  const DefaultBaseUrl := "http://localhost:11434"
  const DefaultTimeout: nat := 120

  // ---------------------------------------------------------------------------
  // The request
  // ---------------------------------------------------------------------------

  /** The fixed text in front of the article body in the prompt. */
  const PromptHead := "你是新闻摘要助手。请只输出【要点总结】内容，不要输出标题，不要输出链接，不要输出任何【】标签，不要输出多余说明。\n    要求：\n    1）输出若干条要点，每条以“1.”“2.”编号开头\n    2）总字数<=200，客观精炼，包含关键数据\n    3）不要出现空行，不要出现Markdown，不要重复任何字段\n    正文：\n    "

  /** The fixed text after the article body in the prompt. */
  const PromptTail := "\n    "

  /** The prompt template filled with the article body. */
  function Prompt(content: string): string {
    PromptHead + content + PromptTail
  }

  /** Reads the article body back out of a prompt; `None` for text that is not a filled template. */
  function PromptContent(p: string): Option<string> {
    if |p| >= |PromptHead| + |PromptTail| && HasPrefix(p, PromptHead) && p[|p| - |PromptTail|..] == PromptTail
    then Some(p[|PromptHead|..|p| - |PromptTail|])
    else None
  }

  /** The prompt holds the article body unchanged between the fixed head and tail. */
  lemma PromptRoundTrip(content: string)
    ensures PromptContent(Prompt(content)) == Some(content)
  {
    var p := Prompt(content);
    assert p[..|PromptHead|] == PromptHead;
    assert p[|p| - |PromptTail|..] == PromptTail;
    assert p[|PromptHead|..|p| - |PromptTail|] == content;
  }

  /** The JSON body: the model name, one user message holding the prompt, and no streaming. */
  function Payload(model: string, prompt: string): Json {
    JObject(map[
      "model" := JString(model),
      "messages" := JArray([JObject(map["role" := JString("user"), "content" := JString(prompt)])]),
      "stream" := JBool(false)])
  }

  /** The request `summarize_with_ollama_api_chat` posts; the title is not an argument. */
  function BuildRequest(model: string, baseUrl: string, content: string, timeout: nat): ChatRequest {
    ChatRequest(baseUrl + "/api/chat", Payload(model, Prompt(content)), timeout)
  }

  /** The messages of a request body, `None` when the body does not carry a message list. */
  function Messages(body: Json): Option<seq<Json>> {
    if body.JObject? && "messages" in body.fields && body.fields["messages"].JArray?
    then Some(body.fields["messages"].items)
    else None
  }

  /** A chat message's role and content, when it has both as strings. */
  function MessageParts(m: Json): Option<(string, string)> {
    if m.JObject? && "role" in m.fields && "content" in m.fields
       && m.fields["role"].JString? && m.fields["content"].JString?
    then Some((m.fields["role"].s, m.fields["content"].s))
    else None
  }

  /**
   * The request goes to `/api/chat` under the base URL, with exactly the keys
   * `model`, `messages` and `stream`, streaming off, and exactly one message:
   * a user message whose prompt gives back the article body.
   */
  lemma RequestShape(model: string, baseUrl: string, content: string, timeout: nat)
    ensures var req := BuildRequest(model, baseUrl, content, timeout);
      && HasPrefix(req.url, baseUrl) && req.url[|baseUrl|..] == "/api/chat"
      && req.body.JObject? && req.body.fields.Keys == {"model", "messages", "stream"}
      && req.body.fields["model"] == JString(model)
      && req.body.fields["stream"] == JBool(false)
      && Messages(req.body).Some? && |Messages(req.body).value| == 1
      && MessageParts(Messages(req.body).value[0]).Some?
      && MessageParts(Messages(req.body).value[0]).value.0 == "user"
      && PromptContent(MessageParts(Messages(req.body).value[0]).value.1) == Some(content)
  {
    var req := BuildRequest(model, baseUrl, content, timeout);
    assert req.url[..|baseUrl|] == baseUrl;
    PromptRoundTrip(content);
  }

  // ---------------------------------------------------------------------------
  // The response
  // ---------------------------------------------------------------------------

  /**
   * `data.get("message", {}).get("content", "")`, followed by the regular
   * expression substitution that needs a string: `None` where one of them raises
   * (the answer or its message is not an object, the content is not a string).
   * A missing `message`, or a message without `content`, gives the empty
   * summary rather than an error.
   */
  function ResponseContent(data: Json): (r: Option<string>)
    ensures !data.JObject? ==> r.None?
    ensures data.JObject? && "message" !in data.fields ==> r == Some("")
    ensures data.JObject? && "message" in data.fields && !data.fields["message"].JObject? ==> r.None?
    ensures data.JObject? && "message" in data.fields && data.fields["message"].JObject?
      ==> var inner := data.fields["message"].fields;
          && ("content" !in inner ==> r == Some(""))
          && ("content" in inner && inner["content"].JString? ==> r == Some(inner["content"].s))
          && ("content" in inner && !inner["content"].JString? ==> r.None?)
  {
    match data
    case JObject(fields) =>
      var message := if "message" in fields then fields["message"] else JObject(map[]);
      (match message
       case JObject(inner) =>
         var content := if "content" in inner then inner["content"] else JString("");
         (match content
          case JString(s) => Some(s)
          case _ => None)
       case _ => None)
    case _ => None
  }

  // ---------------------------------------------------------------------------
  // Removing reasoning blocks
  // ---------------------------------------------------------------------------

  const Open := "<think>"
  const Close := "</think>"

  /** The first index at or after `k` where `sub` occurs in `s`. */
  function FindFrom(s: string, sub: string, k: nat): (r: Option<nat>)
    ensures r.Some? ==> k <= r.value && r.value + |sub| <= |s|
    decreases |s| - k
  {
    if k + |sub| > |s| then None
    else if OccursAt(s, sub, k) then Some(k)
    else FindFrom(s, sub, k + 1)
  }

  /** `FindFrom` reports an occurrence with none before it, and `None` only when there is none at all. */
  lemma {:induction false} FindFromSpec(s: string, sub: string, k: nat)
    ensures var r := FindFrom(s, sub, k);
      && (r.Some? ==> OccursAt(s, sub, r.value) && forall i :: k <= i < r.value ==> !OccursAt(s, sub, i))
      && (r.None? ==> forall i :: k <= i ==> !OccursAt(s, sub, i))
    decreases |s| - k
  {
    if k + |sub| <= |s| && !OccursAt(s, sub, k) {
      FindFromSpec(s, sub, k + 1);
    }
  }

  /**
   * `re.sub(r"<think>.*?</think>", "", s, flags=re.S)`: scanning left to right,
   * a `<think>` followed somewhere later by `</think>` starts a match that ends
   * at the nearest such `</think>`; the match is dropped and the scan resumes
   * after it. `.` matches newlines too, so a block may span lines.
   */
  function RemoveThink(s: string): (r: string)
    ensures |r| <= |s|
    decreases |s|
  {
    if s == [] then []
    else match BlockEnd(s)
      case Some(e) => RemoveThink(s[e..])
      case None => [s[0]] + RemoveThink(s[1..])
  }

  /**
   * Where a match starting at the front of `s` ends: `None` when `s` does not
   * start with `<think>` or no `</think>` follows it.
   */
  function BlockEnd(s: string): (r: Option<nat>)
    ensures r.Some? ==> |Open| + |Close| <= r.value <= |s|
  {
    if !HasPrefix(s, Open) then None
    else match FindFrom(s, Close, |Open|)
      case Some(j) => Some(j + |Close|)
      case None => None
  }

  /** `_clean_deepseek_output`: reasoning blocks removed, then `strip()`. */
  function Clean(text: string): string {
    Strip(RemoveThink(text))
  }

  /** The cleaned summary has no whitespace at either end. */
  lemma CleanIsStripped(text: string)
    ensures var r := Clean(text); r == [] || (!IsSpace(r[0]) && !IsSpace(r[|r| - 1]))
  {
    StripSpec(RemoveThink(text));
  }

  /** An occurrence in `s[1..]` is one in `s`, one place further on, and the other way round. */
  lemma OccursInTail(s: string, sub: string, k: nat)
    requires |s| > 0
    ensures OccursAt(s[1..], sub, k) <==> OccursAt(s, sub, k + 1)
  {
    if k + 1 + |sub| <= |s| {
      assert s[1..][k..k + |sub|] == s[k + 1..k + 1 + |sub|];
    }
  }

  /** Where no `<think>` starts, the first character is copied. */
  lemma RemoveThinkCopies(s: string)
    requires s != [] && !OccursAt(s, Open, 0)
    ensures RemoveThink(s) == [s[0]] + RemoveThink(s[1..])
  {
    assert !HasPrefix(s, Open) by {
      if |Open| <= |s| {
        assert s[0..|Open|] == s[..|Open|];
      }
    }
  }

  /** A prefix in which no `<think>` starts is copied unchanged. */
  lemma {:induction false} CopiesPrefixWithoutOpen(s: string, i: nat)
    requires i <= |s|
    requires forall k :: 0 <= k < i ==> !OccursAt(s, Open, k)
    ensures RemoveThink(s) == s[..i] + RemoveThink(s[i..])
    decreases i
  {
    if i > 0 {
      NoOpenInTail(s, i);
      CopiesPrefixWithoutOpen(s[1..], i - 1);
      assert s[1..][i - 1..] == s[i..];
      CopyStep(s, i);
    }
  }

  lemma NoOpenInTail(s: string, i: nat)
    requires 0 < i <= |s|
    requires forall k :: 0 <= k < i ==> !OccursAt(s, Open, k)
    ensures forall k :: 0 <= k < i - 1 ==> !OccursAt(s[1..], Open, k)
  {
    forall k | 0 <= k < i - 1 ensures !OccursAt(s[1..], Open, k) {
      OccursInTail(s, Open, k);
    }
  }

  lemma CopyStep(s: string, i: nat)
    requires 0 < i <= |s| && !OccursAt(s, Open, 0)
    requires RemoveThink(s[1..]) == s[1..][..i - 1] + RemoveThink(s[i..])
    ensures RemoveThink(s) == s[..i] + RemoveThink(s[i..])
  {
    RemoveThinkCopies(s);
    TakeAfterHead(s, i);
    ConsAssoc(s[0], s[1..][..i - 1], RemoveThink(s[i..]));
  }

  lemma ConsAssoc(c: char, a: string, b: string)
    ensures [c] + (a + b) == ([c] + a) + b
  {
  }

  lemma TakeAfterHead(s: string, i: nat)
    requires 0 < i <= |s|
    ensures s[..i] == [s[0]] + s[1..][..i - 1]
  {
  }


  /** The first occurrence at or after `k` is the one `FindFrom` reports. */
  lemma {:induction false} FindFromFirst(s: string, sub: string, k: nat, j: nat)
    requires k <= j && OccursAt(s, sub, j)
    requires forall i :: k <= i < j ==> !OccursAt(s, sub, i)
    ensures FindFrom(s, sub, k) == Some(j)
    decreases j - k
  {
    if k < j {
      FindFromFirst(s, sub, k + 1, j);
    }
  }

  /** A `<think>` at the start with a `</think>` after it: the block up to the nearest one is dropped. */
  lemma DropsLeadingBlock(t: string, j: nat)
    requires HasPrefix(t, Open) && FindFrom(t, Close, |Open|) == Some(j)
    ensures RemoveThink(t) == RemoveThink(t[j + |Close|..])
  {
  }

  /**
   * The leftmost match: where the first `<think>` of `pre + <think>a</think>v`
   * is the one after `pre` and `a` holds no `</think>`, `pre` is kept, the block
   * is dropped and the scan goes on in `v`.
   */
  lemma LeftmostBlock(pre: string, a: string, v: string)
    requires forall k :: 0 <= k < |pre| ==> !OccursAt(pre + Open + a + Close + v, Open, k)
    requires !Contains(a, Close)
    ensures RemoveThink(pre + Open + a + Close + v) == pre + RemoveThink(v)
  {
    var block := Open + a + Close + v;
    assert pre + Open + a + Close + v == pre + block;
    SplitAt(pre, block);
    CopiesPrefixWithoutOpen(pre + block, |pre|);
    BlockDropped(a, v);
  }

  /** With no `</think>` after the first `<think>`, nothing is removed. */
  lemma {:induction false} UnclosedOpenKept(s: string)
    requires forall k :: !OccursAt(s, Close, k)
    ensures RemoveThink(s) == s
    decreases |s|
  {
    if s != [] {
      if HasPrefix(s, Open) {
        FindFromSpec(s, Close, |Open|);
        assert FindFrom(s, Close, |Open|).None?;
      }
      forall k: nat ensures !OccursAt(s[1..], Close, k) {
        OccursInTail(s, Close, k);
      }
      UnclosedOpenKept(s[1..]);
      assert s == [s[0]] + s[1..];
    }
  }

  /** Text without `</think>` (a lone `<think>` included) is left as it is. */
  lemma NoCloseUnchanged(s: string)
    requires !Contains(s, Close)
    ensures RemoveThink(s) == s
  {
    UnclosedOpenKept(s);
  }

  /** Text without `<think>` (a lone `</think>` included) is left as it is. */
  lemma NoOpenUnchanged(s: string)
    requires !Contains(s, Open)
    ensures RemoveThink(s) == s
  {
    CopiesPrefixWithoutOpen(s, |s|);
    assert s[..|s|] == s && s[|s|..] == [];
  }

  /** Text without `<think>` comes back from `_clean_deepseek_output` only trimmed. */
  lemma CleanWithoutOpen(s: string)
    requires !Contains(s, Open)
    ensures Clean(s) == Strip(s)
  {
    NoOpenUnchanged(s);
  }

  /** A text without `<` holds neither marker. */
  lemma NoAngleNoMarker(s: string, marker: string)
    requires '<' !in s && |marker| > 0 && marker[0] == '<'
    ensures !Contains(s, marker)
  {
    forall i | 0 <= i && i + |marker| <= |s| ensures !OccursAt(s, marker, i) {
      assert s[i..i + |marker|][0] == s[i];
    }
  }

  /** In `<think>a</think>v`, where `a` holds no `</think>`, the first `</think>` is the one after `a`. */
  lemma CloseAfterBody(a: string, v: string)
    requires !Contains(a, Close)
    ensures FindFrom(Open + a + Close + v, Close, |Open|) == Some(|Open| + |a|)
  {
    var u := Open + a + Close + v;
    var j := |Open| + |a|;
    assert OccursAt(u, Close, j) by { assert u[j..j + |Close|] == Close; }
    forall i | |Open| <= i < j ensures !OccursAt(u, Close, i) {
      if i + |Close| <= j {
        assert u[i..i + |Close|] == a[i - |Open|..i - |Open| + |Close|];
        assert !OccursAt(a, Close, i - |Open|);
      } else {
        assert u[i..i + |Close|][j - i] == u[j] == '<';
      }
    }
    FindFromFirst(u, Close, |Open|, j);
  }

  /** Where `a` holds no `</think>`, the block `<think>a</think>` in front of `v` is dropped whole. */
  lemma BlockDropped(a: string, v: string)
    requires !Contains(a, Close)
    ensures RemoveThink(Open + a + Close + v) == RemoveThink(v)
  {
    var u := Open + a + Close + v;
    assert HasPrefix(u, Open) by { assert u[..|Open|] == Open; }
    CloseAfterBody(a, v);
    DropsLeadingBlock(u, |Open| + |a|);
    assert u[|Open| + |a| + |Close|..] == v;
  }

  /**
   * The usual DeepSeek-R1 answer, a reasoning block followed by the numbered
   * points: only the points are left.
   */
  lemma ReasoningThenPoints(reasoning: string, points: string)
    requires '<' !in reasoning && '<' !in points
    requires points == [] || (!IsSpace(points[0]) && !IsSpace(points[|points| - 1]))
    ensures Clean(Open + reasoning + Close + points) == points
  {
    NoAngleNoMarker(reasoning, Close);
    BlockDropped(reasoning, points);
    NoAngleNoMarker(points, Open);
    NoOpenUnchanged(points);
    StripSpec(points);
  }

  /**
   * One pass is not enough: removing the inner block of `<thi<think></think>nk>x</think>`
   * brings together a new block `<think>x</think>`, which only a second cleaning removes.
   */
  lemma CleanNotIdempotent(x: string)
    requires '<' !in x
    ensures Clean("<thi" + Open + Close + "nk>" + x + Close) == Open + x + Close
    ensures Clean(Clean("<thi" + Open + Close + "nk>" + x + Close)) == []
  {
    var once := Open + x + Close;
    InnerBlockRemoved(x);
    StripSpec(once);
    NoAngleNoMarker(x, Close);
    BlockDropped(x, []);
    assert once == Open + x + Close + [];
    StripSpec([]);
  }

  /** The first pass over `<thi<think></think>nk>x</think>` drops only the inner block. */
  lemma InnerBlockRemoved(x: string)
    requires '<' !in x
    ensures RemoveThink("<thi" + Open + Close + "nk>" + x + Close) == Open + x + Close
  {
    var rest := "nk>" + x + Close;
    Regroup("<thi", Open, Close, "nk>", x, Close);
    NoOpenBeforeInner(rest);
    NoAngleNoMarker([], Close);
    LeftmostBlock("<thi", [], rest);
    RestHasNoOpen(x);
    NoOpenUnchanged(rest);
    Rejoin(x);
  }

  lemma Regroup(a: string, b: string, c: string, d: string, e: string, f: string)
    ensures a + b + c + d + e + f == a + b + [] + c + (d + e + f)
  {
  }

  /** Dropping the inner block joins `<thi` and `nk>` into a new `<think>`. */
  lemma Rejoin(x: string)
    ensures "<thi" + ("nk>" + x + Close) == Open + x + Close
  {
    assert "<thi" + "nk>" == Open;
  }

  /** No `<think>` starts inside the `<thi` in front of the inner block. */
  lemma NoOpenBeforeInner(rest: string)
    ensures forall k :: 0 <= k < 4 ==> !OccursAt("<thi" + Open + [] + Close + rest, Open, k)
  {
    var u := "<thi" + Open + [] + Close + rest;
    forall k | 0 <= k < 4 ensures !OccursAt(u, Open, k) {
      assert u[k..k + |Open|][4] == u[k + 4] != 'n';
    }
  }

  lemma RestHasNoOpen(x: string)
    requires '<' !in x
    ensures !Contains("nk>" + x + Close, Open)
  {
    var rest := "nk>" + x + Close;
    forall k | 0 <= k && k + |Open| <= |rest| ensures !OccursAt(rest, Open, k) {
      if k < 3 {
        assert rest[k..k + |Open|][0] == rest[k] != '<';
      } else if k < 3 + |x| {
        assert rest[k..k + |Open|][0] == rest[k] == x[k - 3];
      } else {
        assert rest[3 + |x|..] == Close;
        if k == 3 + |x| {
          assert rest[k..k + |Open|][1] == rest[k + 1] == '/';
        } else {
          assert rest[k..k + |Open|][0] == rest[k] == '/';
        }
      }
    }
  }

  // ---------------------------------------------------------------------------
  // The call
  // ---------------------------------------------------------------------------

  /**
   * `summarize_with_ollama_api_chat`: `post` stands for the HTTP round trip and
   * JSON decoding, `None` where it raises (connection error, timeout, an error
   * status, a body that is not JSON). `None` overall means the call raised.
   */
  function Summarize(title: string, content: string, model: string, baseUrl: string, timeout: nat,
                     post: ChatRequest -> Option<Json>): Option<string>
  {
    match post(BuildRequest(model, baseUrl, content, timeout))
    case None => None
    case Some(data) =>
      match ResponseContent(data)
      case None => None
      case Some(summary) => Some(Clean(summary))
  }

  /** The title is accepted but plays no part: the request and the summary depend only on the rest. */
  lemma SummaryIgnoresTitle(t1: string, t2: string, content: string, model: string, baseUrl: string,
                            timeout: nat, post: ChatRequest -> Option<Json>)
    ensures Summarize(t1, content, model, baseUrl, timeout, post) == Summarize(t2, content, model, baseUrl, timeout, post)
  {
  }

  /**
   * The outcome of a call: it fails exactly when the POST fails or the answer's
   * fields are not usable, and otherwise is the cleaned content, which an answer
   * without a message makes empty.
   */
  lemma SummarizeOutcome(title: string, content: string, model: string, baseUrl: string, timeout: nat,
                         post: ChatRequest -> Option<Json>)
    ensures var answer := post(BuildRequest(model, baseUrl, content, timeout));
      var r := Summarize(title, content, model, baseUrl, timeout, post);
      && (r.None? <==> answer.None? || ResponseContent(answer.value).None?)
      && (answer == Some(JObject(map[])) ==> r == Some(""))
      && (r.Some? ==> r.value == [] || (!IsSpace(r.value[0]) && !IsSpace(r.value[|r.value| - 1])))
  {
    var answer := post(BuildRequest(model, baseUrl, content, timeout));
    if answer.Some? && ResponseContent(answer.value).Some? {
      CleanIsStripped(ResponseContent(answer.value).value);
    }
    if answer == Some(JObject(map[])) {
      assert ResponseContent(JObject(map[])) == Some("");
      StripSpec(RemoveThink(""));
    }
  }
}
