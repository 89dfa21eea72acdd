/** From configuration text and request text to the handler that serves it. */
module Session {
  import opened Text
  import opened ConfigTree
  import opened ConfigLexer
  import opened ConfigMachine
  import opened Routing
  import opened NginxConfigs
  import opened Dispatching
  import opened HttpRequest
  import opened Lookup
  import opened Numerals
  import opened StatusCounter

  /** Which handler and block serve a request text under a configuration: what a scan of the tree for the
      first segment of the parsed path finds first. */
  function Served(value: Config, data: string): Option<Handler>
    requires Indexable(value)
  {
    FirstMatch(HandlersOf(value), FirstSegment(Handled(data).uri_path))
  }

  /** How the read from the socket ended. */
  datatype ReadError = NoError | EndOfFile | Failed

  /** What a handler answers. */
  datatype Reply = Reply(output: string, status: nat)

  /** How handlers answer: by their name, the printed configuration they take their attributes from, and the
      request. */
  type Handlers = (string, string, Parsed) -> Option<Reply>

  /** The answer to a request text under a configuration. */
  function Answer(value: Config, data: string, handlers: Handlers): Option<Reply>
    requires Indexable(value)
  {
    match Served(value, data)
    case Some(h) => handlers(h.name, Print(h.block, 0), Handled(data))
    case None => handlers("error", Print([], 0), Handled(data))
  }

  /** Who answers: the handler statement that is first, in post-order, with the first segment of the requested path
      as its url; it is given its own block, as printed, and the request. The error handler otherwise, with an
      empty configuration. */
  lemma AnswerIs(value: Config, data: string, handlers: Handlers)
    requires Indexable(value)
    ensures var url := FirstSegment(Handled(data).uri_path);
            || (exists p, h :: StandsFirst(value, url, p, h) &&
                  Answer(value, data, handlers) == handlers(h.name, Print(h.block, 0), Handled(data)))
            || (Answer(value, data, handlers) == handlers("error", "", Handled(data)) &&
                forall p, h :: StandsAt(value, p, h) ==> h.url != url)
  {
    hide StandsFirst, StandsAt, FirstMatch, HandlersOf, Indexable, Handled;
    FirstMatchIsFirst(value, FirstSegment(Handled(data).uri_path));
  }

  /** What a session does with the text it received: after a clean read the handler that serves the request
      answers, and its answer is counted under the path and written; after a failed one nothing happens. */
  method handle_read(error: ReadError, data: string, config: NginxConfig, urls: map<string, string>,
                     handlers: Handlers, status: StatusObject, ghost value: Config, ghost nodes: set<object>)
    returns (written: Option<string>)
    requires RepConfig(config, value, nodes) && Indexable(value)
    requires status.Valid() && |status.history| < INT_LIMIT - 1 && status !in nodes
    modifies status
    ensures status.Valid()
    ensures error != NoError ==> written == None && status.history == old(status.history)
    ensures error == NoError ==>
              match Answer(value, data, handlers)
              case Some(r) =>
                && written == Some(r.output)
                && status.history == old(status.history) + [(Handled(data).uri_path, Numeral(r.status))]
              case None => written == Some("") && status.history == old(status.history)
  {
    hide Served, Handled, Indexable, RepConfig, Print, Tally, Numeral;
    if error != NoError {
      return None;
    }
    var req, name, text := Dispatch(data, config, urls, value, nodes);
    var resp := handlers(name, text, Parsed(req.method_, req.uri_path_, req.http_version_, req.header_fields_, req.body_));
    match resp
    case None =>
      written := Some("");
    case Some(r) =>
      written := Some(r.output);
      status.addStatusEntry(req.uri_path_, Numeral(r.status));
  }

  /** The request is parsed, the tables are built, and handler and configuration are chosen. */
  method Dispatch(data: string, config: NginxConfig, urls: map<string, string>, ghost value: Config, ghost nodes: set<object>)
    returns (req: Request, name: string, text: string)
    requires RepConfig(config, value, nodes) && Indexable(value)
    ensures req.Fields() == Handled(data)
    ensures match Served(value, data)
            case Some(h) => name == h.name && text == Print(h.block, 0)
            case None => name == "error" && text == Print([], 0)
  {
    hide Handled, Indexable, HandlersOf, RepConfig, FirstMatch, Print;
    req := Request.request_handler(data);
    var dispatcher := new Dispatcher(config, urls, value, nodes);
    var chosen;
    name, chosen := dispatcher.generateResponse(req.uri_path_, value, nodes);
    ghost var served := Served(value, data);
    ghost var block := if served.Some? then served.value.block else [];
    if served.None? { EmptyConfig(chosen); }
    text := chosen.ToString(0, block, if served.Some? then nodes else {chosen});
  }

  lemma EmptyConfig(c: NginxConfig)
    requires c.statements_ == []
    ensures RepConfig(c, [], {c})
  {
  }

  /** A server is started on a configuration text exactly when the text is in the grammar and the port read
      from the printed tree is not zero. */
  method StartServer(text: string) returns (config: NginxConfig?, ghost nodes: set<object>)
    requires ParseText(text).ok ==> FitsInt(PortOf(Print(ParseText(text).tree, 0)))
    ensures config != null <==> exists c :: Derives(text, c) && PortOf(Print(c, 0)) != 0
    ensures config != null ==> ParseText(text).ok && PortOf(Print(ParseText(text).tree, 0)) != 0
    ensures config != null ==> RepConfig(config, ParseText(text).tree, nodes)
    ensures fresh(nodes)
  {
    hide RepConfig, ParseText, Derives, RepStatements, PortOf, Print;
    config := new NginxConfig();
    var stream := new CharStream(text);
    var parser := new NginxConfigParser();
    ghost var tree := ParseText(text).tree;
    OneTree(text);
    var ok, built := parser.Parse(stream, config);
    nodes := built + {config};
    if !ok {
      return null, nodes;
    }
    assert config.statements_[0..] == config.statements_;
    ParsedIntoEmpty(config, tree, built);
    var port := config.GetPort(tree, nodes);
    if port == 0 {
      return null, nodes;
    }
  }

  /** A started server answers its first request as the derived tree says. */
  method ServeText(text: string, data: string, handlers: Handlers) returns (started: bool, written: Option<string>)
    requires ParseText(text).ok ==>
               FitsInt(PortOf(Print(ParseText(text).tree, 0))) &&
               (PortOf(Print(ParseText(text).tree, 0)) != 0 ==> Indexable(ParseText(text).tree))
    ensures started <==> exists c :: Derives(text, c) && PortOf(Print(c, 0)) != 0
    ensures started ==> ParseText(text).ok && PortOf(Print(ParseText(text).tree, 0)) != 0
    ensures started ==> written == match Answer(ParseText(text).tree, data, handlers)
                                   case Some(r) => Some(r.output)
                                   case None => Some("")
  {
    hide Answer, Indexable, RepConfig, ParseText, Derives, PortOf, Print, Tally, Handled;
    var config, nodes := StartServer(text);
    if config == null {
      return false, None;
    }
    var status := new StatusObject();
    written := handle_read(NoError, data, config, map[], handlers, status, ParseText(text).tree, nodes);
    return true, written;
  }

  lemma OneTree(text: string)
    ensures forall c :: Derives(text, c) ==> ParseText(text) == Outcome(true, c)
    ensures ParseText(text).ok ==> Derives(text, ParseText(text).tree)
  {
    hide ParseText, Derives;
    forall c ensures Derives(text, c) ==> ParseText(text) == Outcome(true, c) { ParserIsGrammar(text, c); }
    ParserIsGrammar(text, ParseText(text).tree);
  }
}
