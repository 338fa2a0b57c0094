/** The test-generation agent: it retrieves the top documents for a query,
    joins their text into the prompt's context, asks the chat model for a JSON
    list of test cases, cuts the JSON out of any Markdown fence in the reply
    and parses it. Every failure along the way becomes an error dictionary.

    The similarity ranking (or the exception retrieval raised), the model and
    the JSON parser are inputs: `model(context, query)` is the text the model
    answers or the exception it raises, `parse(text)` is `json.loads(text)`. */
module RagAgent {
  import opened Outcomes
  import opened PyStrings
  import opened Fences
  import Ingestion

  const CONTEXT_SEPARATOR := "\n\n"
  const JSON_FENCE := "```json"
  const NO_DOCS_MESSAGE := "No relevant documentation found. Please upload documents first."
  const INTERNAL_ERROR := "Internal Server Error"

  /** What `generate_tests` returns: the parsed JSON value, or a dictionary of
      strings describing an error. */
  datatype Reply<J> = Payload(value: J) | ErrorDict(fields: map<string, string>)

  function NoDocsReply<J>(): Reply<J> {
    ErrorDict(map["error" := NO_DOCS_MESSAGE])
  }

  function InternalError<J>(details: string): Reply<J> {
    ErrorDict(map["error" := INTERNAL_ERROR, "details" := details])
  }

  // ---------------------------------------------------------------- context

  /** `[d.page_content for d in docs]` */
  function PageContents(docs: seq<Ingestion.Document>): (contents: seq<string>)
    ensures |contents| == |docs|
    ensures forall i :: 0 <= i < |docs| ==> contents[i] == docs[i].pageContent
  {
    seq(|docs|, i requires 0 <= i < |docs| => docs[i].pageContent)
  }

  /** `"\n\n".join(...)` over the page contents, in retrieval order. */
  function BuildContext(docs: seq<Ingestion.Document>): string {
    Join(PageContents(docs), CONTEXT_SEPARATOR)
  }

  /** The context is empty exactly when nothing was retrieved or a single
      document with empty text was; two empty documents already give "\n\n". */
  lemma ContextEmptyIff(docs: seq<Ingestion.Document>)
    ensures BuildContext(docs) == [] <==> |docs| == 0 || (|docs| == 1 && docs[0].pageContent == [])
  {
    JoinEmptyIff(PageContents(docs), CONTEXT_SEPARATOR);
  }

  /** The context lists the documents in retrieval order: one more document
      adds a separator and its text at the end. */
  lemma ContextAppend(docs: seq<Ingestion.Document>, d: Ingestion.Document)
    ensures BuildContext(docs + [d])
            == if docs == [] then d.pageContent else BuildContext(docs) + CONTEXT_SEPARATOR + d.pageContent
  {
    assert PageContents(docs + [d]) == PageContents(docs) + [d.pageContent];
    JoinAppend(PageContents(docs), d.pageContent, CONTEXT_SEPARATOR);
  }

  // ---------------------------------------------------------------- fence extraction

  /** The post-processing of the model's reply: trim it; if it contains
      "```json", keep what lies between the first "```json" and the next "```";
      otherwise, if it contains "```", keep what lies between the first two
      "```"; trim again. No "```" survives. */
  function ExtractPayload(raw: string): (payload: string)
    ensures !Contains(payload, FENCE)
  {
    var text := Strip(raw);
    if Contains(text, JSON_FENCE) then
      var inner := Split(Split(text, JSON_FENCE)[1], FENCE)[0];
      StripKeepsAbsent(inner, FENCE);
      Strip(inner)
    else if Contains(text, FENCE) then
      var inner := Split(Split(text, FENCE)[1], FENCE)[0];
      StripKeepsAbsent(inner, FENCE);
      Strip(inner)
    else
      text
  }

  /** A reply without any "```" is only trimmed. */
  lemma ExtractUnfenced(raw: string)
    requires !Contains(raw, FENCE)
    ensures ExtractPayload(raw) == Strip(raw)
  {
    StripKeepsAbsent(raw, FENCE);
    AbsentExtension(Strip(raw), JSON_FENCE, FENCE);
  }

  /** The closing "```" is not the start of a run of four or five backticks
      that goes on into a second "```json". */
  predicate ClosingFenceStandsAlone(a: string) {
    var k := |Before(a, FENCE)|;
    !MatchAt(a, JSON_FENCE, k + 1) && !MatchAt(a, JSON_FENCE, k + 2)
  }

  /** Every "```json" is also a "```", so the first "```" comes no later than
      the first "```json". */
  lemma FenceNoLaterThanJson(a: string)
    ensures |Before(a, FENCE)| <= |Before(a, JSON_FENCE)|
  {
    var m := |Before(a, JSON_FENCE)|;
    if Contains(a, JSON_FENCE) {
      assert JSON_FENCE[..|FENCE|] == FENCE;
      PrefixPatternMatches(a, JSON_FENCE, FENCE, m);
    }
  }

  /** Cutting at the first "```json" and then at the first "```" is cutting at
      the first "```", unless the "```json" starts inside that "```". */
  lemma BeforeJsonThenFence(a: string)
    requires ClosingFenceStandsAlone(a)
    ensures Before(Before(a, JSON_FENCE), FENCE) == Before(a, FENCE)
  {
    var k := |Before(a, FENCE)|;
    var m := |Before(a, JSON_FENCE)|;
    FenceNoLaterThanJson(a);
    if k < m < k + |FENCE| {
      // the first "```json" would start at k + 1 or k + 2
      assert false;
    }
    BeforeOfPrefix(a, FENCE, m);
  }

  /** A "```json" fence wins, wherever a plain "```" stands: the payload is the
      trimmed text between the first "```json" and the next "```", or all of
      the text after "```json" when no "```" follows it. */
  lemma ExtractJsonFence(raw: string)
    requires Contains(Strip(raw), JSON_FENCE)
    requires ClosingFenceStandsAlone(After(Strip(raw), JSON_FENCE))
    ensures ExtractPayload(raw) == Strip(Before(After(Strip(raw), JSON_FENCE), FENCE))
    ensures !Contains(After(Strip(raw), JSON_FENCE), FENCE)
            ==> ExtractPayload(raw) == Strip(After(Strip(raw), JSON_FENCE))
  {
    var text := Strip(raw);
    var a := After(text, JSON_FENCE);
    SplitSecond(text, JSON_FENCE);
    SplitHead(Before(a, JSON_FENCE), FENCE);
    BeforeJsonThenFence(a);
  }

  /** Without "```json", the payload is the trimmed text between the first and
      the second "```", or all of the text after a lone "```". */
  lemma ExtractGenericFence(raw: string)
    requires !Contains(Strip(raw), JSON_FENCE) && Contains(Strip(raw), FENCE)
    ensures ExtractPayload(raw) == Strip(Before(After(Strip(raw), FENCE), FENCE))
    ensures !Contains(After(Strip(raw), FENCE), FENCE)
            ==> ExtractPayload(raw) == Strip(After(Strip(raw), FENCE))
  {
    var text := Strip(raw);
    SplitSecond(text, FENCE);
    SplitHead(After(text, FENCE), FENCE);
  }

  // ---------------------------------------------------------------- the whole call

  /** `generate_tests`: retrieve, build the context, stop early on an empty
      one, call the model, extract and parse; any exception raised by
      retrieval, the model or the parser becomes an internal-error dictionary. */
  function GenerateTests<J>(query: string, ranking: Attempt<seq<Ingestion.Document>>,
                            model: (string, string) -> Attempt<string>,
                            parse: string -> Attempt<J>): (reply: Reply<J>)
    ensures reply.ErrorDict? ==>
              (reply.fields.Keys == {"error"} && reply.fields["error"] == NO_DOCS_MESSAGE)
              || (reply.fields.Keys == {"error", "details"} && reply.fields["error"] == INTERNAL_ERROR)
    ensures reply.Payload? ==>
              ranking.Ok? && BuildContext(Ingestion.Retrieve(ranking.value)) != []
              && model(BuildContext(Ingestion.Retrieve(ranking.value)), query).Ok?
              && parse(ExtractPayload(model(BuildContext(Ingestion.Retrieve(ranking.value)), query).value))
                 == Ok(reply.value)
    ensures ranking.Ok? && BuildContext(Ingestion.Retrieve(ranking.value)) != []
            && model(BuildContext(Ingestion.Retrieve(ranking.value)), query).Ok?
            && parse(ExtractPayload(model(BuildContext(Ingestion.Retrieve(ranking.value)), query).value)).Ok?
            ==> reply == Payload(parse(ExtractPayload(model(BuildContext(Ingestion.Retrieve(ranking.value)), query).value)).value)
  {
    match ranking
    case Raised(e) => InternalError(e)
    case Ok(ranked) =>
      var context := BuildContext(Ingestion.Retrieve(ranked));
      if context == [] then NoDocsReply()
      else
        match model(context, query)
        case Raised(e) => InternalError(e)
        case Ok(raw) =>
          match parse(ExtractPayload(raw))
          case Raised(e) => InternalError(e)
          case Ok(v) => Payload(v)
  }

  /** The "no documentation" reply comes exactly when retrieval found nothing,
      or only one document and that one empty. */
  lemma NoDocsIff<J>(query: string, ranked: seq<Ingestion.Document>,
                     model: (string, string) -> Attempt<string>, parse: string -> Attempt<J>)
    ensures GenerateTests(query, Ok(ranked), model, parse) == NoDocsReply()
            <==> |ranked| == 0 || (|ranked| == 1 && ranked[0].pageContent == [])
  {
    var top := Ingestion.Retrieve(ranked);
    ContextEmptyIff(top);
    if |ranked| >= 1 {
      assert top[0] == ranked[0];
    }
    if GenerateTests(query, Ok(ranked), model, parse) == NoDocsReply() {
      assert "details" !in NoDocsReply<J>().fields;
    }
  }

  /** On an empty context neither the model nor the parser is consulted: any
      other model and parser give the same reply. */
  lemma EmptyContextSkipsModel<J>(query: string, ranked: seq<Ingestion.Document>,
                                  model1: (string, string) -> Attempt<string>, parse1: string -> Attempt<J>,
                                  model2: (string, string) -> Attempt<string>, parse2: string -> Attempt<J>)
    requires |ranked| == 0 || (|ranked| == 1 && ranked[0].pageContent == [])
    ensures GenerateTests(query, Ok(ranked), model1, parse1) == GenerateTests(query, Ok(ranked), model2, parse2)
  {
    ContextEmptyIff(Ingestion.Retrieve(ranked));
  }

  /** Whichever stage raises, the reply is the internal-error dictionary with
      that exception's message, and nothing is raised to the caller. */
  lemma FailuresAreInternalErrors<J>(query: string, ranking: Attempt<seq<Ingestion.Document>>,
                                     model: (string, string) -> Attempt<string>, parse: string -> Attempt<J>)
    ensures ranking.Raised? ==> GenerateTests(query, ranking, model, parse) == InternalError(ranking.message)
    ensures ranking.Ok? && BuildContext(Ingestion.Retrieve(ranking.value)) != []
            ==> var answer := model(BuildContext(Ingestion.Retrieve(ranking.value)), query);
                (answer.Raised? ==> GenerateTests(query, ranking, model, parse) == InternalError(answer.message))
                && (answer.Ok? && parse(ExtractPayload(answer.value)).Raised?
                    ==> GenerateTests(query, ranking, model, parse)
                        == InternalError(parse(ExtractPayload(answer.value)).message))
  {
  }
}
