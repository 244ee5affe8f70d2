/** The request pipeline of the two POST handlers in server.js: the
    categories guard, one call to the completion service, the cleanup of its
    text, one JSON parse, and the mapping of the outcome to an HTTP response.
    The completion service and `JSON.parse` are parameters of the model: the
    handler sees only success or failure of the one and the value or failure
    of the other. */
module Handler {
  import opened Strings
  import opened JsValues
  import opened Cleanup
  import Fences
  import NumberedList

  datatype Option<+T> = None | Some(value: T)

  /** `/generate-questions-old` (Legacy) and `/generate-questions` (Current). */
  datatype Route = Legacy | Current

  /** What varies in the prompt sent to the completion service; the fixed
      instruction prose is not modelled. The legacy route embeds the
      numbered category list, the current one `JSON.stringify(categories)`,
      kept here as the categories themselves. */
  datatype Prompt = LegacyPrompt(categoryList: string) | CurrentPrompt(categories: seq<JsValue>)

  /** The completion call throws (network, service, or a missing message
      content whose `trim` fails), or yields the message text. */
  datatype Upstream = Failed | Completed(content: string)

  datatype Body<+V> =
    | ErrorBody(error: string)
    | ErrorWithOutput(error: string, rawOutput: string)
    | DataBody(jeopardyData: V)

  datatype Response<+V> = Response(status: nat, body: Body<V>)

  /** What one request does: the prompts it sends to the completion service,
      the texts it hands to `JSON.parse`, and the response it answers. */
  datatype Exchange<+V> = Exchange(requests: seq<Prompt>, parsed: seq<string>, response: Response<V>)

  const RequestFailed: string := "AI request failed"
  const InvalidJson: string := "AI returned invalid JSON"

  /** The 400 message of each route, which neither 500 message can be
      mistaken for. */
  function GuardMessage(route: Route): (m: string)
    ensures m != [] && m != RequestFailed && m != InvalidJson
  {
    match route
    case Legacy => "Categories array is required"
    case Current => "A list of categories is required"
  }

  /** The guard `!categories || !Array.isArray(categories) ||
      categories.length === 0`, negated: it lets a request through exactly
      when `categories` is a non-empty array. */
  function Accepts(categories: JsValue): (ok: bool)
    ensures ok <==> categories.Array? && |categories.elems| > 0
  {
    !(!Truthy(categories) || !categories.Array? || |categories.elems| == 0)
  }

  /** The legacy prompt carries the numbered list, one line per category
      when no category's text holds a line break; the current prompt
      carries the categories themselves. */
  function BuildPrompt(route: Route, categories: seq<JsValue>): (p: Prompt)
    ensures p.LegacyPrompt? <==> route == Legacy
    ensures p.CurrentPrompt? ==> p.categories == categories
    ensures route == Legacy && |categories| >= 1
      && (forall i :: 0 <= i < |categories| ==> '\n' !in Text(categories[i]))
      ==> |Split(p.categoryList, '\n')| == |categories|
  {
    if route == Legacy && |categories| >= 1
      && (forall i :: 0 <= i < |categories| ==> '\n' !in Text(categories[i]))
    then
      NumberedList.OneLinePerCategory(categories);
      LegacyPrompt(NumberedList.Render(categories))
    else
      match route
      case Legacy => LegacyPrompt(NumberedList.Render(categories))
      case Current => CurrentPrompt(categories)
  }

  /** The text each route hands to `JSON.parse`: the legacy route only trims,
      the current route runs the full cleanup. */
  function ParserInput(route: Route, content: string): (text: string)
    ensures route == Current ==> EndsWith(text, "]")
    ensures route == Legacy ==> |text| <= |content| && TrimmedEnds(text)
    ensures route == Current ==> |text| <= |content| + 1
  {
    match route
    case Legacy => Trim(content)
    case Current => Cleaned(content)
  }

  /** The outcome of one completion call: request failure, parse failure
      with the text that failed, or the parsed value passed through as it
      is. */
  function Outcome<V>(route: Route, upstream: Upstream, parse: string -> Option<V>): (r: (seq<string>, Response<V>))
    ensures r.1.status in {200, 500}
    ensures r.0 == [] <==> upstream.Failed?
    ensures |r.0| <= 1
  {
    match upstream
    case Failed => ([], Response(500, ErrorBody(RequestFailed)))
    case Completed(content) =>
      var text := ParserInput(route, content);
      match parse(text)
      case None => ([text], Response(500, ErrorWithOutput(InvalidJson, text)))
      case Some(data) => ([text], Response(200, DataBody(data)))
  }

  /** One request to `route` with the given `categories` field (`Undefined`
      when the body has none). */
  function Handle<V>(route: Route, categories: JsValue, complete: Prompt -> Upstream, parse: string -> Option<V>): (x: Exchange<V>)
    ensures |x.parsed| <= |x.requests| <= 1
    ensures x.response.status == 400 <==> x.requests == []
  {
    if !Accepts(categories) then
      Exchange([], [], Response(400, ErrorBody(GuardMessage(route))))
    else
      var prompt := BuildPrompt(route, categories.elems);
      var (parsed, response) := Outcome(route, complete(prompt), parse);
      Exchange([prompt], parsed, response)
  }

  /** A request is answered 400 exactly when `categories` is missing or is
      not a non-empty array; then nothing is sent to the completion service
      and nothing is parsed. */
  lemma Rejected<V>(route: Route, categories: JsValue, complete: Prompt -> Upstream, parse: string -> Option<V>)
    ensures var x := Handle(route, categories, complete, parse);
      (x.response.status == 400 <==> !(categories.Array? && |categories.elems| > 0))
      && (x.response.status == 400 ==>
            x.requests == [] && x.parsed == [] && x.response.body == ErrorBody(GuardMessage(route)))
  {
  }

  /** An accepted request sends exactly one prompt, built from the
      categories in their input order. */
  lemma AcceptedSendsOnePrompt<V>(route: Route, categories: JsValue, complete: Prompt -> Upstream, parse: string -> Option<V>)
    requires categories.Array? && |categories.elems| > 0
    ensures Handle(route, categories, complete, parse).requests == [BuildPrompt(route, categories.elems)]
    ensures route == Legacy ==>
      BuildPrompt(route, categories.elems) == LegacyPrompt(NumberedList.Render(categories.elems))
  {
  }

  /** A failed completion call gives 500 with the generic message, no
      `rawOutput`, and no parse attempt. */
  lemma UpstreamFailure<V>(route: Route, categories: JsValue, complete: Prompt -> Upstream, parse: string -> Option<V>)
    requires categories.Array? && |categories.elems| > 0
    requires complete(BuildPrompt(route, categories.elems)) == Failed
    ensures var x := Handle(route, categories, complete, parse);
      x.response == Response(500, ErrorBody(RequestFailed)) && x.parsed == []
  {
  }

  /** Text that does not parse gives 500 with the parse-failure message and
      the very text that was handed to the parser as `rawOutput`; the
      completion is not retried. */
  lemma ParseFailure<V>(route: Route, categories: JsValue, complete: Prompt -> Upstream, parse: string -> Option<V>, content: string)
    requires categories.Array? && |categories.elems| > 0
    requires complete(BuildPrompt(route, categories.elems)) == Completed(content)
    requires parse(ParserInput(route, content)) == None
    ensures var x := Handle(route, categories, complete, parse);
      x.response == Response(500, ErrorWithOutput(InvalidJson, ParserInput(route, content)))
      && x.parsed == [ParserInput(route, content)]
      && |x.requests| == 1
  {
  }

  /** Text that parses gives 200 with the parsed value as `jeopardyData`,
      unchecked against any schema. */
  lemma Success<V>(route: Route, categories: JsValue, complete: Prompt -> Upstream, parse: string -> Option<V>, content: string, data: V)
    requires categories.Array? && |categories.elems| > 0
    requires complete(BuildPrompt(route, categories.elems)) == Completed(content)
    requires parse(ParserInput(route, content)) == Some(data)
    ensures var x := Handle(route, categories, complete, parse);
      x.response == Response(200, DataBody(data)) && x.parsed == [ParserInput(route, content)]
  {
  }

  /** The four outcomes cover every request: the status is 200, 400 or 500;
      `rawOutput` appears exactly on a parse failure; data exactly on 200. */
  lemma OutcomesPartition<V>(route: Route, categories: JsValue, complete: Prompt -> Upstream, parse: string -> Option<V>)
    ensures var x := Handle(route, categories, complete, parse);
      var accepted := categories.Array? && |categories.elems| > 0;
      var up := if accepted then complete(BuildPrompt(route, categories.elems)) else Failed;
      && x.response.status in {200, 400, 500}
      && (x.response.body.DataBody? <==> x.response.status == 200)
      && (x.response.body.ErrorWithOutput? <==>
            accepted && up.Completed? && parse(ParserInput(route, up.content)).None?)
      && (x.response.status == 500 <==> accepted && (up.Failed? || parse(ParserInput(route, up.content)).None?))
      && |x.requests| <= 1 && |x.parsed| <= |x.requests|
  {
  }

  /** On the current route every text handed to the parser, and so every
      `rawOutput`, ends with "]". */
  lemma CurrentParsesBracketed<V>(categories: JsValue, complete: Prompt -> Upstream, parse: string -> Option<V>)
    ensures var x := Handle(Current, categories, complete, parse);
      (forall t :: t in x.parsed ==> EndsWith(t, "]"))
      && (x.response.body.ErrorWithOutput? ==> EndsWith(x.response.body.rawOutput, "]"))
  {
    var x := Handle(Current, categories, complete, parse);
    if Accepts(categories) {
      var up := complete(BuildPrompt(Current, categories.elems));
      if up.Completed? {
        assert x.parsed == [Cleaned(up.content)];
      }
    }
  }

  /** The legacy route deletes no fence and repairs no bracket: the parser
      receives the completion text trimmed and nothing more, and a parse
      failure reports that same text. */
  lemma LegacyOnlyTrims<V>(categories: JsValue, complete: Prompt -> Upstream, parse: string -> Option<V>, content: string)
    requires categories.Array? && |categories.elems| > 0
    requires complete(BuildPrompt(Legacy, categories.elems)) == Completed(content)
    ensures var x := Handle(Legacy, categories, complete, parse);
      && x.parsed == [Trim(content)]
      && (parse(Trim(content)).None? ==> x.response.body == ErrorWithOutput(InvalidJson, Trim(content)))
    ensures TrimmedEnds(content) ==> ParserInput(Legacy, content) == content
  {
    if TrimmedEnds(content) {
      TrimNoop(content);
    }
  }

  /** A truncated array reaches the legacy parser as it is and the current
      parser closed. */
  lemma RoutesDifferOnTruncation()
    ensures ParserInput(Legacy, "[1") == "[1"
    ensures ParserInput(Current, "[1") == "[1]"
  {
    var s := "[1";
    assert |s| == 2 && s[0] == '[' && s[1] == '1';
    assert !IsWs('[') && !IsWs('1');
    assert '`' !in s;
    assert TrimmedEnds(s);
    assert !EndsWith(s, "]");
    TrimNoop(s);
    PassThrough(s);
  }

  /** A fenced truncated array reaches the legacy parser with its fences
      and unclosed, and the current parser bare and closed. */
  lemma RoutesDifferOnFences()
    ensures ParserInput(Legacy, "```json[1```") == "```json[1```"
    ensures ParserInput(Current, "```json[1```") == "[1]"
  {
    var f := "```json[1```";
    assert f[0] == '`' && f[|f| - 1] == '`';
    BracketNotWs();
    TrimNoop(f);
    assert f == Fences.Tagged + "[1" + Fences.Plain;
    RoutesDifferOnTruncation();
    FencedLikeUnfenced("[1");
  }
}
