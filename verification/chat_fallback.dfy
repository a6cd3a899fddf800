/** The web-search fallback of the two chat front-ends (MarkDownOllama_v3.py
    and ThalesDocsGPT.py): the test that decides the index has no answer,
    the truncation of the fetched context, and the follow-up query. */
module ChatFallback {
  import opened Wrappers
  import opened Strings

  const DocumentsMissPhrase: string := "The documents provided do not contain information"
  const IndexMissPhrase: string := "The index provided does not contain information"

  /** The two operand kinds of the gate: a string literal, or the result of `in`. */
  datatype PyValue = PyStr(s: string) | PyBool(b: bool)

  predicate Truthy(v: PyValue) {
    match v
    case PyStr(s) => s != ""
    case PyBool(b) => b
  }

  /** Python's `left or right`: `left` when it is truthy, else `right`. */
  function PyOr(left: PyValue, right: PyValue): (r: PyValue)
    ensures Truthy(r) <==> Truthy(left) || Truthy(right)
  {
    if Truthy(left) then left else right
  }

  /** The gate as written: `"<documents phrase>" or "<index phrase>" in response`.
      `in` binds tighter than `or`, so the left operand is the bare literal,
      which is truthy: the gate is open for every response. */
  function MissGateAsWritten(response: string): (open: bool)
    ensures open
  {
    Truthy(PyOr(PyStr(DocumentsMissPhrase), PyBool(Contains(response, IndexMissPhrase))))
  }

  /** The gate as evidently meant: open exactly when either phrase occurs in
      the response. */
  function MissGate(response: string): (miss: bool)
    ensures miss <==> Contains(response, DocumentsMissPhrase) || Contains(response, IndexMissPhrase)
  {
    Truthy(PyOr(PyBool(Contains(response, DocumentsMissPhrase)), PyBool(Contains(response, IndexMissPhrase))))
  }

  /** An empty response contains neither phrase, yet the written gate opens. */
  lemma MissGateEmptyResponse()
    ensures MissGateAsWritten("") && !MissGate("")
  {
    assert !Contains("", DocumentsMissPhrase);
    assert !Contains("", IndexMissPhrase);
  }

  // ---------------------------------------------------------------------
  // Context truncation

  /** `data[:limit] if len(data) > limit else data` */
  function Truncate<T>(data: seq<T>, limit: nat): (r: seq<T>)
    ensures |r| <= limit
    ensures IsPrefix(r, data)
    ensures |data| <= limit ==> r == data
    ensures |data| > limit ==> |r| == limit
  {
    if |data| > limit then data[..limit] else data
  }

  const OllamaBudget: nat := 10000
  const GptBudget: nat := 3000

  /** MarkDownOllama_v3.py line 123. */
  function OllamaContext<T>(webData: seq<T>): (r: seq<T>)
    ensures |r| <= OllamaBudget && IsPrefix(r, webData)
    ensures |webData| <= OllamaBudget ==> r == webData
    ensures |webData| > OllamaBudget ==> |r| == OllamaBudget
  {
    Truncate(webData, OllamaBudget)
  }

  /** ThalesDocsGPT.py line 100. */
  function GptContext<T>(webData: seq<T>): (r: seq<T>)
    ensures |r| <= GptBudget && IsPrefix(r, webData)
    ensures |webData| <= GptBudget ==> r == webData
    ensures |webData| > GptBudget ==> |r| == GptBudget
  {
    Truncate(webData, GptBudget)
  }

  // ---------------------------------------------------------------------
  // Follow-up query

  /** The backslash at the end of the first source line joins the two
      lines inside the string, keeping the 24 spaces that indent the second. */
  const Indent: string := "                        "

  const ContextLabel: string := "Relevant Context: "

  /** The text handed to the second `chat` call; both front-ends build it alike. */
  function FollowUpQuery(prompt: string, context: string): (q: string)
    ensures IsPrefix(prompt + " \n ", q)
    ensures IsSuffix(ContextLabel + context, q)
    ensures |q| == |prompt| + 3 + |Indent| + |ContextLabel| + |context|
  {
    var q := prompt + " \n " + Indent + ContextLabel + context;
    assert q == (prompt + " \n ") + (Indent + (ContextLabel + context));
    assert q == (prompt + " \n " + Indent) + (ContextLabel + context);
    q
  }

  /** Given the prompt, the context is read back from the query's tail. */
  function ContextOf(q: string, prompt: string): string
    requires |q| >= |prompt| + 3 + |Indent| + |ContextLabel|
  {
    q[|prompt| + 3 + |Indent| + |ContextLabel|..]
  }

  lemma FollowUpRoundTrip(prompt: string, context: string)
    ensures ContextOf(FollowUpQuery(prompt, context), prompt) == context
  {
    var q := FollowUpQuery(prompt, context);
    assert q == (prompt + " \n " + Indent + ContextLabel) + context;
  }

  /** Different prompts or different contexts give different queries. */
  lemma FollowUpInjective(p1: string, c1: string, p2: string, c2: string)
    requires FollowUpQuery(p1, c1) == FollowUpQuery(p2, c2)
    requires |p1| == |p2| || c1 == c2
    ensures p1 == p2 && c1 == c2
  {
    var q := FollowUpQuery(p1, c1);
    assert |p1| == |p2|;
    assert p1 == q[..|p1|];
    assert p2 == q[..|p2|];
    FollowUpRoundTrip(p1, c1);
    FollowUpRoundTrip(p2, c2);
  }

  /** The second query one turn sends, if any: with the gate corrected, only a
      response that admits the miss leads to a follow-up, and that follow-up
      carries the fetched context cut to the front-end's budget. */
  function SecondQuery(response: string, prompt: string, webData: string, budget: nat): (q: Option<string>)
    ensures q.Some? <==> Contains(response, DocumentsMissPhrase) || Contains(response, IndexMissPhrase)
    ensures q.Some? ==> IsPrefix(prompt + " \n ", q.value)
    ensures q.Some? ==> |q.value| == |prompt| + 3 + |Indent| + |ContextLabel| + |Truncate(webData, budget)|
    ensures q.Some? ==> ContextOf(q.value, prompt) == Truncate(webData, budget)
    ensures q.Some? ==> |ContextOf(q.value, prompt)| <= budget
  {
    if MissGate(response) then
      var q := FollowUpQuery(prompt, Truncate(webData, budget));
      FollowUpRoundTrip(prompt, Truncate(webData, budget));
      Some(q)
    else None
  }
}
