/** The request dispatcher: two tables built once from the configuration, looked up by the first
    segment of the path. */
module Dispatching {
  import opened Text
  import opened ConfigTree
  import opened Routing
  import opened NginxConfigs

  class Dispatcher {
    const tables: Tables

    /** The tables index the configuration `value`. */
    ghost predicate Indexes(value: Config, nodes: set<object>)
      requires Indexable(value)
      reads tables, nodes
    {
      && NamesAdded(map[], tables.handlerTable_, HandlersOf(value))
      && BlocksAdded(map[], tables.configTable_, HandlersOf(value), nodes)
    }

    constructor (config: NginxConfig, urls: map<string, string>, ghost value: Config, ghost nodes: set<object>)
      requires RepConfig(config, value, nodes) && Indexable(value)
      ensures Indexes(value, nodes) && fresh(tables)
      ensures NamesAdded(urls, tables.url_handlers_map_, HandlersOf(value))
    {
      tables := new Tables(urls);
      new;
      config.ParseString(0, tables, value, nodes);
    }

    /** Chooses handler and configuration as a linear scan of the tree would: the first handler whose
        printed url is the path's first segment, else the error handler with an empty configuration. Where
        every handler block declares its url, that is the first one declaring the segment. */
    method generateResponse(full_url: string, ghost value: Config, ghost nodes: set<object>)
      returns (name: string, chosen: NginxConfig)
      requires Indexable(value) && Indexes(value, nodes)
      ensures match FirstMatch(HandlersOf(value), FirstSegment(full_url))
              case Some(h) => name == h.name && RepConfig(chosen, h.block, nodes)
              case None => name == "error" && fresh(chosen) && chosen.statements_ == []
      ensures (exists p, h :: StandsFirst(value, FirstSegment(full_url), p, h) &&
                              name == h.name && RepConfig(chosen, h.block, nodes)) ||
              (name == "error" && chosen.statements_ == [] &&
               forall p, h :: StandsAt(value, p, h) ==> h.url != FirstSegment(full_url))
      ensures Declaring(value) ==> exists r ::
                FirstDeclaring(HandlersOf(value), FirstSegment(full_url), r) &&
                (match r
                 case Some(h) => name == h.name && RepConfig(chosen, h.block, nodes)
                 case None => name == "error" && chosen.statements_ == [])
    {
      hide Declaring, Indexable, HandlersOf, RepConfig, FirstMatch, FirstDeclaring, StandsFirst, StandsAt;
      var uri := ReadSegment(full_url);
      FirstMatchIsFirst(value, uri);
      if Declaring(value) { FirstMatchDeclares(value, uri); }
      if uri in tables.handlerTable_ {
        name := tables.handlerTable_[uri];
        chosen := tables.configTable_[uri];
      } else {
        name := "error";
        chosen := new NginxConfig();
      }
    }
  }

  /** The path up to the first slash behind its first character. */
  method ReadSegment(full_url: string) returns (uri: string)
    ensures uri == FirstSegment(full_url)
  {
    var i := 1;
    while i < |full_url| && full_url[i] != '/'
      invariant 1 <= i && (i <= |full_url| || full_url == "")
      invariant full_url != "" ==> Free(full_url[1..i], {'/'})
    {
      assert full_url[1..i+1] == full_url[1..i] + [full_url[i]];
      i := i + 1;
    }
    if full_url != "" {
      assert forall k | 0 <= k < i - 1 :: full_url[1..][k] == full_url[1..i][k];
      SpanIs(full_url[1..], {'/'}, i - 1);
    }
    uri := if i <= |full_url| then full_url[..i] else full_url;
  }

  /** Both tables have the same keys, and a key's two entries come from one and the same statement. */
  lemma TablesAgree(names: map<string, string>, blocks: map<string, NginxConfig>, c: Config, nodes: set<object>)
    requires Indexable(c) && NamesAdded(map[], names, HandlersOf(c)) && BlocksAdded(map[], blocks, HandlersOf(c), nodes)
    ensures names.Keys == blocks.Keys
    ensures forall k | k in names :: exists h ::
              h in HandlersOf(c) && h.url == k && names[k] == h.name && RepConfig(blocks[k], h.block, nodes)
  {
    hide Indexable, HandlersOf, RepConfig, FirstMatch;
    forall k | k in names
      ensures exists h :: h in HandlersOf(c) && h.url == k && names[k] == h.name && RepConfig(blocks[k], h.block, nodes)
    {
      var h := FirstMatch(HandlersOf(c), k).value;
      assert h in HandlersOf(c) && h.url == k;
    }
  }
}
