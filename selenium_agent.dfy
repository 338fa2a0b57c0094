/** The script-generation agent: it hands one test case and the target page's
    markup to the chat model, strips any Markdown code fences from the reply
    and returns it as `{"script": ...}`, or `{"error": ...}` when the call
    raises. The model itself is an input: a function from the prompt's two
    variables to the text it answers or the exception it raises. */
module SeleniumAgent {
  import opened Outcomes
  import opened PyStrings
  import opened Fences

  const PYTHON_FENCE := "```python"

  /** `response.replace("```python", "").replace("```", "").strip()`: no fence
      marker survives anywhere in the text, and neither end is whitespace. */
  function CleanScript(response: string): (code: string)
    ensures !Contains(code, FENCE)
    ensures code == [] || (!IsSpace(code[0]) && !IsSpace(code[|code| - 1]))
  {
    var unfenced := Replace(Replace(response, PYTHON_FENCE, ""), FENCE, "");
    NoFenceAfterRemoval(Replace(response, PYTHON_FENCE, ""));
    StripKeepsAbsent(unfenced, FENCE);
    Strip(unfenced)
  }

  /** A reply with no fence at all is only trimmed. */
  lemma CleanScriptUnfenced(response: string)
    requires !Contains(response, FENCE)
    ensures CleanScript(response) == Strip(response)
  {
    AbsentExtension(response, PYTHON_FENCE, FENCE);
    ReplaceAbsent(response, PYTHON_FENCE, "");
    ReplaceAbsent(response, FENCE, "");
  }

  /** Cleaning a cleaned script changes nothing. */
  lemma CleanScriptIdempotent(response: string)
    ensures CleanScript(CleanScript(response)) == CleanScript(response)
  {
    var code := CleanScript(response);
    CleanScriptUnfenced(code);
    StripOfStripped(code);
  }

  /** In `body + "```"`, with `body` free of fences, every "```" starts within
      the last three characters: inside the closing marker, or on one of the
      body's trailing backticks that run on into it. */
  lemma FenceOnlyAtClose(body: string, j: nat)
    requires !Contains(body, FENCE)
    requires MatchAt(body + FENCE, FENCE, j)
    ensures |body| < j + |FENCE|
  {
    if j + |FENCE| <= |body| {
      assert (body + FENCE)[j..j + |FENCE|] == body[j..j + |FENCE|];
      assert MatchAt(body, FENCE, j);
      assert false;
    }
  }

  /** The opening "```python" is removed and the rest passes on untouched. */
  lemma DropPythonFence(closed: string)
    ensures Replace(PYTHON_FENCE + closed, PYTHON_FENCE, "") == Replace(closed, PYTHON_FENCE, "")
  {
    var s := PYTHON_FENCE + closed;
    assert s[..|PYTHON_FENCE|] == PYTHON_FENCE;
    assert s[|PYTHON_FENCE|..] == closed;
  }

  /** A fence-free body followed by the closing "```" holds no "```python": it
      would start with a "```" too early to fit. */
  lemma NoPythonFenceInBody(body: string)
    requires !Contains(body, FENCE)
    ensures !Contains(body + FENCE, PYTHON_FENCE)
  {
    var closed := body + FENCE;
    if Contains(closed, PYTHON_FENCE) {
      var j: nat :| j <= |closed| && MatchAt(closed, PYTHON_FENCE, j);
      PrefixPatternMatches(closed, PYTHON_FENCE, FENCE, j);
      FenceOnlyAtClose(body, j);
      assert false;
    }
  }

  /** Removing "```" from a fence-free body plus the closing marker gives the
      body back, its trailing backticks included: the leftmost match takes the
      first three backticks of the closing run and leaves the rest. */
  lemma DropClosingFence(body: string)
    requires !Contains(body, FENCE)
    ensures Replace(body + FENCE, FENCE, "") == body
  {
    var closed := body + FENCE;
    assert closed[|body|..|body| + |FENCE|] == FENCE;
    assert MatchAt(closed, FENCE, |body|);
    var j := Find(closed, FENCE).value;
    FenceOnlyAtClose(body, j);
    ReplaceSkipsPrefix(closed, FENCE, "", j);
    var tail := closed[j + |FENCE|..];
    forall t | 0 <= t < |tail| ensures tail[t] == body[j + t] {
      MatchAtChar(closed, FENCE, j, t);
    }
    assert closed[j..][..|FENCE|] == FENCE;
    assert closed[j..][|FENCE|..] == tail;
    assert tail == body[j..];
    assert closed[..j] + body[j..] == body;
  }

  /** A reply wrapped in a "```python" fence comes back as its trimmed body: the
      "python" language tag goes with the opening marker instead of being left
      behind by the generic "```" removal, and backticks the body ends with
      survive. */
  lemma CleanScriptFencedBlock(body: string)
    requires !Contains(body, FENCE)
    ensures CleanScript(PYTHON_FENCE + body + FENCE) == Strip(body)
  {
    var closed := body + FENCE;
    assert PYTHON_FENCE + body + FENCE == PYTHON_FENCE + closed;
    DropPythonFence(closed);
    NoPythonFenceInBody(body);
    ReplaceAbsent(closed, PYTHON_FENCE, "");
    DropClosingFence(body);
  }

  /** `generate_script`: the model sees the test case only as the text `describe`
      gives it (`str(test_case)`) and the page markup; a raised exception becomes
      `{"error": str(e)}`, a reply becomes `{"script": <cleaned reply>}`. */
  function GenerateScript<T>(testCase: T, html: string, describe: T -> string,
                             model: (string, string) -> Attempt<string>): (reply: map<string, string>)
    ensures reply.Keys == {"script"} || reply.Keys == {"error"}
    ensures "script" in reply ==> !Contains(reply["script"], FENCE)
    ensures "script" in reply ==> model(describe(testCase), html).Ok?
                                  && reply["script"] == CleanScript(model(describe(testCase), html).value)
    ensures "error" in reply <==> model(describe(testCase), html).Raised?
    ensures "error" in reply ==> reply["error"] == model(describe(testCase), html).message
  {
    match model(describe(testCase), html)
    case Ok(response) => map["script" := CleanScript(response)]
    case Raised(message) => map["error" := message]
  }

  /** Records the modelling choice at the call to the model: two test cases
      with the same text representation yield the same reply, because only
      `str(test_case)` reaches the model. It follows from the signature of
      `GenerateScript`, not from its body. */
  lemma TestCaseSeenAsText<T>(a: T, b: T, html: string, describe: T -> string,
                              model: (string, string) -> Attempt<string>)
    requires describe(a) == describe(b)
    ensures GenerateScript(a, html, describe, model) == GenerateScript(b, html, describe, model)
  {
  }
}
