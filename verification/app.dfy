/** The pure part of backend/app.py: `extract_command_and_query`, which reads
    an optional `/mode` prefix off a query with the regular expression
    `/(\w+)\s+(.*)`, and the preparation `ask` does before building its
    prompt: the query is stripped and must not be empty, the chunk router is
    asked, and its context is cut to 16000 characters. */
module App {
  import opened Wrappers
  import opened Py
  import opened Hits
  import Router

  /** The most context characters passed on to the prompt. */
  const CONTEXT_LIMIT: nat := 16000

  /** The mode reported when the query carries no command. */
  const DEFAULT_MODE: string := "default"

  /** `COMMAND_INSTRUCTIONS`: the instruction for each mode. */
  const COMMAND_INSTRUCTIONS: map<string, string> := map[
    "analyze" := "Perform a rigorous analytical breakdown. Prioritize logic, facts, and structured reasoning.",
    "summarize" := "Synthesize a precise, conceptual summary faithful to the source context.",
    "philosophize" := "Explore deeper meanings through epistemic, ontological, and existential analysis.",
    "compare" := "Systematically compare perspectives or cases. Emphasize contrast, nuance, and implications.",
    "decolonize" := "Interrogate through a decolonial lens, questioning dominant narratives and power structures.",
    "reflect" := "Engage in deep, introspective, strategic synthesis of all context. Simulate sovereign reflection, integrate across domains.",
    "default" := "Analyze with a sovereign, strategic mind. Prioritize coherence, logic, and evidence-based reasoning."
  ]

  /** `COMMAND_INSTRUCTIONS["default"]`. */
  const DEFAULT_INSTRUCTION: string :=
    "Analyze with a sovereign, strategic mind. Prioritize coherence, logic, and evidence-based reasoning."

  // ---------------------------------------------------------------------------
  // extract_command_and_query
  // ---------------------------------------------------------------------------

  /** The regular-expression `.`: any character but a newline. */
  predicate NotLF(c: char) {
    c != '\n'
  }

  /** The mode, the query and the instruction. */
  datatype Command = Command(mode: string, query: string, instruction: string)

  /** Where `re.match(r"/(\w+)\s+(.*)", raw)` puts its groups: `\w+` takes the
      maximal word run after the slash (length `word`); `\s+` takes the whole
      whitespace run after it (length `space`), since `(.*)` may be empty.
      `None` when there is no match. */
  datatype Groups = Groups(word: nat, space: nat)

  function Match(raw: string): (g: Option<Groups>)
    ensures g.Some? ==> 1 + g.value.word + g.value.space <= |raw|
  {
    if |raw| == 0 || raw[0] != '/' then None
    else
      var word := RunLength(IsWordChar, raw[1..]);
      if word == 0 || 1 + word == |raw| then None
      else if !IsSpace(raw[1 + word]) then None
      else Some(Groups(word, RunLength(IsSpace, raw[1 + word..])))
  }

  /** `COMMAND_INSTRUCTIONS.get(mode, COMMAND_INSTRUCTIONS["default"])`. */
  function Instruction(mode: string): (s: string)
    ensures mode in COMMAND_INSTRUCTIONS ==> s == COMMAND_INSTRUCTIONS[mode]
    ensures mode !in COMMAND_INSTRUCTIONS ==> s == DEFAULT_INSTRUCTION
  {
    if mode in COMMAND_INSTRUCTIONS then COMMAND_INSTRUCTIONS[mode] else DEFAULT_INSTRUCTION
  }

  /** `extract_command_and_query(raw)`. */
  function ExtractCommandAndQuery(raw: string): (c: Command)
    ensures Match(raw).None? ==> c == Command(DEFAULT_MODE, raw, DEFAULT_INSTRUCTION)
    ensures c.instruction == Instruction(c.mode)
    ensures '\n' !in c.query || c.query == raw
  {
    match Match(raw)
    case None => Command(DEFAULT_MODE, raw, DEFAULT_INSTRUCTION)
    case Some(g) =>
      var mode := LowerStr(raw[1..1 + g.word]);
      var rest := raw[1 + g.word + g.space..];
      Command(mode, rest[..RunLength(NotLF, rest)], Instruction(mode))
  }

  /** `raw` starts with a slash, `k` word characters and a whitespace
      character. */
  predicate CommandAt(raw: string, k: nat) {
    1 <= k < |raw| - 1 && raw[0] == '/' && All(IsWordChar, raw[1..k + 1]) && IsSpace(raw[k + 1])
  }

  /** The regular expression matches exactly when `raw` is a slash, one or
      more word characters, and a whitespace character. */
  lemma MatchIff(raw: string)
    ensures Match(raw).Some? <==> exists k :: CommandAt(raw, k)
  {
    if |raw| > 0 && raw[0] == '/' {
      var word := RunLength(IsWordChar, raw[1..]);
      if exists k :: CommandAt(raw, k) {
        var k: nat :| CommandAt(raw, k);
        assert raw[1..][..k] == raw[1..k + 1];
        RunLengthCovers(IsWordChar, raw[1..], k);
      } else if Match(raw).Some? {
        assert raw[1..][..word] == raw[1..word + 1];
        assert CommandAt(raw, word);
      }
    }
  }

  /** On a match, `raw` is the slash, the command word, the whitespace after
      it, the query, and either nothing or a newline and whatever follows: the
      query runs up to the first newline. */
  lemma ExtractOnMatch(raw: string)
    requires Match(raw).Some?
    ensures var c := ExtractCommandAndQuery(raw); var g := Match(raw).value;
      && 1 + g.word + g.space + |c.query| <= |raw|
      && raw == [raw[0]] + raw[1..1 + g.word] + raw[1 + g.word..1 + g.word + g.space] + c.query
                + raw[1 + g.word + g.space + |c.query|..]
      && (1 + g.word + g.space + |c.query| < |raw| ==> raw[1 + g.word + g.space + |c.query|] == '\n')
  {
    var g := Match(raw).value;
    var i, j := 1 + g.word, 1 + g.word + g.space;
    var rest := raw[j..];
    var n := RunLength(NotLF, rest);
    assert ExtractCommandAndQuery(raw).query == rest[..n];
    SplitAround(raw, i, j, n);
    assert j + n < |raw| ==> raw[j + n] == rest[n];
  }

  /** `s` is its first character, the slices `[1, i)` and `[i, j)`, `n`
      characters from `j`, and the rest. */
  lemma SplitAround(s: string, i: nat, j: nat, n: nat)
    requires 1 <= i <= j && j + n <= |s|
    ensures s == [s[0]] + s[1..i] + s[i..j] + s[j..][..n] + s[j + n..]
  {
    assert s[j..][..n] == s[j..j + n];
  }

  /** On a match the command word is one or more word characters, the mode is
      that word lower-cased, the whitespace after it is non-empty, and the
      query neither starts with whitespace nor holds a newline. */
  lemma ExtractParts(raw: string)
    requires Match(raw).Some?
    ensures var c := ExtractCommandAndQuery(raw); var g := Match(raw).value;
      && raw[1..1 + g.word] != "" && All(IsWordChar, raw[1..1 + g.word])
      && c.mode == LowerStr(raw[1..1 + g.word])
      && raw[1 + g.word..1 + g.word + g.space] != "" && All(IsSpace, raw[1 + g.word..1 + g.word + g.space])
      && (|c.query| > 0 ==> !IsSpace(c.query[0]))
      && '\n' !in c.query
  {
    var g := Match(raw).value;
    var rest := raw[1 + g.word + g.space..];
    var q := rest[..RunLength(NotLF, rest)];
    assert raw[1..][..g.word] == raw[1..1 + g.word];
    assert raw[1 + g.word..][..g.space] == raw[1 + g.word..1 + g.word + g.space];
    assert rest == raw[1 + g.word..][g.space..];
    assert forall i :: 0 <= i < |q| ==> q[i] != '\n' by {
      assert All(NotLF, q);
    }
  }

  /** The mode has no upper-case letter; a command with a table entry gets
      that entry, any other keeps its own name as the mode and gets the
      default instruction. */
  lemma ModeAndInstruction(raw: string)
    requires Match(raw).Some?
    ensures var c := ExtractCommandAndQuery(raw);
      && |c.mode| > 0 && All(IsWordChar, c.mode) && (forall i :: 0 <= i < |c.mode| ==> !IsUpper(c.mode[i]))
      && (c.mode in COMMAND_INSTRUCTIONS ==> c.instruction == COMMAND_INSTRUCTIONS[c.mode])
      && (c.mode !in COMMAND_INSTRUCTIONS ==> c.instruction == DEFAULT_INSTRUCTION)
  {
    var g := Match(raw).value;
    assert raw[1..][..g.word] == raw[1..1 + g.word];
  }

  /** A bare `/cmd` with nothing after it does not match and is passed on
      as the query unchanged. */
  lemma BareCommand()
    ensures ExtractCommandAndQuery("/cmd") == Command(DEFAULT_MODE, "/cmd", DEFAULT_INSTRUCTION)
  {
    assert Match("/cmd").None? by {
      var word := RunLength(IsWordChar, "/cmd"[1..]);
      assert word <= 3;
      if word == 3 {
      } else {
        assert "/cmd"[1..][word] == "/cmd"[1 + word];
      }
    }
  }

  // ---------------------------------------------------------------------------
  // ask
  // ---------------------------------------------------------------------------

  /** What `ask` reads of the router's dictionary with `.get`: `None` for a
      missing key. */
  datatype RoutedView = RoutedView(context: Option<string>, domain: Option<string>, sources: Option<seq<string>>)

  /** The chunk router's dictionary always has all three keys. */
  function ViewOf(r: Router.Routed): (v: RoutedView)
    ensures v.context.Some? && v.domain.Some? && v.sources.Some?
  {
    RoutedView(Some(r.context), Some(r.domain), Some(r.sources))
  }

  /** Why `ask` does not reach the prompt: an empty query is answered with
      status 400, and a router that raises is answered with status 500. */
  datatype AskError = EmptyQuery | RouterFailed(e: HitError)

  /** Everything the prompt is built from. */
  datatype AskPlan = AskPlan(
    mode: string,
    query: string,
    instruction: string,
    context: string,
    domain: string,
    sources: seq<string>)

  /** The defaults and the cut `ask` applies to what the router returns. */
  function PlanFrom(c: Command, v: RoutedView): (p: AskPlan)
    ensures p.mode == c.mode && p.query == c.query && p.instruction == c.instruction
    ensures |p.context| <= CONTEXT_LIMIT && p.context <= v.context.GetOr("")
    ensures |v.context.GetOr("")| <= CONTEXT_LIMIT ==> p.context == v.context.GetOr("")
    ensures |v.context.GetOr("")| > CONTEXT_LIMIT ==> |p.context| == CONTEXT_LIMIT
    ensures p.domain == v.domain.GetOr(Router.FALLBACK_DOMAIN)
    ensures p.sources == v.sources.GetOr([])
  {
    AskPlan(c.mode, c.query, c.instruction, Slice(v.context.GetOr(""), 0, CONTEXT_LIMIT),
            v.domain.GetOr(Router.FALLBACK_DOMAIN), v.sources.GetOr([]))
  }

  /** `ask()` up to the prompt. `body` is the request's `"query"` value,
      `None` when it is missing; `route` is `route_query` with its search. */
  function Ask(body: Option<string>, route: string -> Result<Router.Routed, HitError>): (r: Result<AskPlan, AskError>)
    ensures r == Err(EmptyQuery) <==> Strip(body.GetOr("")) == ""
    ensures r.Ok? ==> |r.value.context| <= CONTEXT_LIMIT
  {
    var query := Strip(body.GetOr(""));
    if query == "" then Err(EmptyQuery)
    else
      var c := ExtractCommandAndQuery(query);
      match route(c.query)
      case Err(e) => Err(RouterFailed(e))
      case Ok(routed) => Ok(PlanFrom(c, ViewOf(routed)))
  }

  /** A non-empty query is routed with the extracted query; the plan carries
      the router's domain and sources and the first 16000 characters of its
      context. */
  lemma AskRoutes(body: Option<string>, route: string -> Result<Router.Routed, HitError>)
    requires Strip(body.GetOr("")) != ""
    ensures var c := ExtractCommandAndQuery(Strip(body.GetOr(""))); var r := Ask(body, route);
      && (r.Err? <==> route(c.query).Err?)
      && (r.Ok? ==>
            && r.value.mode == c.mode && r.value.query == c.query
            && r.value.domain == route(c.query).value.domain
            && r.value.sources == route(c.query).value.sources
            && r.value.context <= route(c.query).value.context
            && |r.value.context| == if |route(c.query).value.context| <= CONTEXT_LIMIT then |route(c.query).value.context| else CONTEXT_LIMIT)
  {
  }
}
