# Verified model of the meme web server

A Dafny 4.11 model of the server's own logic: the Nginx-style configuration parser and printer, the index the
dispatcher builds from a configuration, the HTTP request parser, the text codecs, the meme table with its ids,
tokens and lock, the page templates, and the status counter. `dafny verify dfyconfig.toml` checks everything.

How the files hang together:

- `Text.dfy`: substring search, replace-all and compressed splitting, as `std::string` and Boost define them.
- `ConfigTree.dfy`, `ConfigLexer.dfy`, `ConfigLexicon.dfy`, `ConfigMachine.dfy`, `ConfigDescent.dfy`,
  `ConfigRoundTrip.dfy`: configuration trees as values with their token yield and printed form; the lexer, and what it
  does to every text by its characters; the stack machine and its grammar; a recursive-descent parser with the same
  result; printing against parsing. `Yield` is the grammar Config = Stmt+,
  Stmt = WORD+ (`;` or `{` Stmt* `}`): a text is in the language when it lexes to the yield of some tree.
- `NginxConfig.dfy`: the same parser and printer as classes that build and walk objects in place. `RepConfig(c, v,
  nodes)` says that the object `c` and everything below it, all within `nodes`, is the tree `v`.
- `Lookup.dfy`, `Routing.dfy`, `Dispatcher.dfy`, `Session.dfy`: text lookup in printed configurations and what it
  means for the tree, the two routing tables, and the way from configuration text and request text to a handler.
- `HttpRequest.dfy`, `UrlCodec.dfy`, `HtmlSearch.dfy`, `FormBody.dfy`, `PageTemplate.dfy`: requests, codecs,
  searching encoded fields, posted forms, filled pages. `MemePages.dfy`: the edit and delete pages with their token
  check.
- `Numerals.dfy`, `MemeStore.dfy`, `MemeRuns.dfy`, `MemeProtocol.dfy`: numerals under text order, the table's
  statements, sequential runs, and concurrent runs under the mutex.
- `StatusCounter.dfy`: the list of counted responses.

Where the code does not do what one might expect, the model follows the code and the exact condition is proved:

- Decoding HTML does not undo encoding when the text itself holds one of `&quot;` `&apos;` `&lt;` `&gt;` `&nbsp;`,
  because `&amp;` is decoded first (`HtmlRoundTrip`, `HtmlRoundTripFails`).
- Ids are counted up from the greatest id as text. Done as one operation, a creation overwrites a live row exactly
  when that text is all nines and the next number is taken (`CreateOverwrites`); with deletes between its two
  statements, exactly when that row was not deleted meanwhile (`CreateReplacesExactly`). The first 90001 creations
  never do (`RunKeeps`, `CreateNeverReplaces`); the one after them can (`NextCreateOverwrites`).
- With m > 0 ids given out, one of them is given out again exactly when the greatest live id as text is not 9999 + m
  (`IdGivenOutAgain`, `DeletedIdReturns`).
- An edit may name any text as the id. When such an id is the greatest and has no int in front, the next create
  throws and the lock stays taken (`CreateThrowsExactly`, `EditBlocksCreates`).
- Deletes do not take the lock, so an edit can bring a row back that was deleted between its two statements
  (`EditUndoesDelete`, `DeletedRowReturns`).
- The token check does not look at the id of the request, so the token of one meme deletes another
  (`DeleteCarriedOut`, `TokenDeletesAnother`).
- A page is filled one placeholder kind after another, so a value that holds a later slot's placeholder, such as a
  meme named `meme_object_top`, is itself filled in. The passes are one simultaneous substitution exactly when the
  later passes leave the values alone (`SimultaneousExactly`).
- A configuration inside the grammar starts no server unless "listen" leads to a port other than 0 (`StartServer`).
- The body of a request is its last line, so a body with line ends is cut, and a header name with a colon-blank
  is cut there (`RequestRoundTrip`).
- A posted text loses pluses, the first literal `%2F`, and everything from a NUL on, since columns are read back as
  C strings (`ShownExactly`).
- A search for an encoded term can hit fields that do not hold it, when an entity can run into the term
  (`SearchIsExact`).

## Model

| member | source | states |
|---|---|---|
| `Text.ReplaceAt` | src/url_parser.cc:48-53 | the replace-all the codecs and pages call keeps what stands before the first occurrence found, replaces that, and goes on behind it |
| `Text.ReplaceAbsent` | src/url_parser.cc:48-53 | a text without an occurrence is left alone |
| `Text.SplitPieces` | src/request.cc:80-84 | pieces of a compressed split hold no delimiter, and only the first and the last can be empty |
| `ConfigLexer.CharStream.Get` | src/config_parser.cc:192-196 | reading takes the next character, and only at the end makes the stream not good |
| `ConfigLexer.CharStream.Unget` | src/config_parser.cc:255 | the last character read is back in front of the rest |
| `ConfigLexer.ParseToken` | src/config_parser.cc:189-270 | the character loop finds exactly the token, value and rest that the definition by first character and terminator names, for every text |
| `ConfigLexer.ScanIsNextToken` | src/config_parser.cc:191-269 | the character machine started on any text agrees with the definition that spans to a terminator |
| `ConfigLexer.TokenLiesInText` | src/config_parser.cc:252-269 | a token is the text between skipped blanks and the rest, words have the word shape, cut-off words and comments give EOF, and every token but the last takes a character |
| `ConfigLexicon.BlanksSkipped` | src/config_parser.cc:221-225 | blank, tab, line feed and carriage return in front of a token are skipped |
| `ConfigLexicon.MarkTokens` | src/config_parser.cc:198-222 | the three marks are tokens by themselves |
| `ConfigLexicon.CommentToken` | src/config_parser.cc:206-251 | a comment runs from a number sign to a line feed or carriage return, which it takes; cut off, it ends the text |
| `ConfigLexicon.QuoteToken` | src/config_parser.cc:210-245 | a quoted word runs to the same quote, whatever stands between; left open it is an error |
| `ConfigLexicon.WordToken` | src/config_parser.cc:226-269 | a word runs to a blank, tab, line feed, semicolon or brace, which stays; other characters belong to it; cut off, it is lost |
| `ConfigLexicon.LexBlank` | src/config_parser.cc:221-225 | blanks count for nothing in what is parsed |
| `ConfigLexicon.LexMarks` | src/config_parser.cc:198-220 | each mark is one token of what is parsed |
| `ConfigLexicon.LexComment` | src/config_parser.cc:288-291 | a comment counts for nothing in what is parsed |
| `ConfigLexicon.LexQuote` | src/config_parser.cc:282-286 | a quoted word is one word token; an open quote makes the text unreadable |
| `ConfigMachine.StepConsumes` | src/config_parser.cc:293-364 | each accepted token extends what the open frames have read by exactly that token |
| `ConfigMachine.Sound` | src/config_parser.cc:272-371 | from any reachable state, an accepting run has built a tree whose yield is all tokens read before and after |
| `ConfigMachine.RunYield` | src/config_parser.cc:296-345 | from between statements, the tokens of any derivation add its tree to the innermost block and nothing else |
| `ConfigMachine.ParserIsGrammar` | src/config_parser.cc:272-371 | a text is accepted with a tree exactly when the grammar derives that tree from it; the tree is unique; a text with no derivation is rejected |
| `ConfigDescent.DescendSound` | src/config_parser.cc:292-363 | a recursive-descent parser for statements returns the tree whose yield it consumed and stops only where no statement can start |
| `ConfigDescent.DescendComplete` | src/config_parser.cc:292-363 | in front of anything that cannot start a statement, it recovers every derivable tree from its yield and leaves the rest untouched |
| `ConfigDescent.StackIsDescent` | src/config_parser.cc:272-371 | the stack parser accepts exactly the texts that parser reads to the end, and builds the same tree |
| `ConfigRoundTrip.LexPrint` | src/config_parser.cc:19-27 | the printed form of a well-formed tree at any depth lexes to the tree's yield, whatever follows it |
| `ConfigRoundTrip.LexPrintStatement` | src/config_parser.cc:143-171 | the same for one statement, indented and with its block |
| `ConfigRoundTrip.ParsedIsWellFormed` | src/config_parser.cc:189-371 | whatever is accepted is a non-empty tree of valid words |
| `ConfigRoundTrip.PrintThenParse` | src/config_parser.cc:143-371 | parsing the printed form gives the tree back, at every depth, exactly for the non-empty well-formed trees |
| `ConfigRoundTrip.ParseThenPrint` | src/config_parser.cc:143-371 | printing and parsing what was parsed once changes nothing |
| `NginxConfigs.NginxConfigStatement.ToString` | src/config_parser.cc:143-171 | the statement object prints as the tree it stands for |
| `NginxConfigs.NginxConfig.ToString` | src/config_parser.cc:19-27 | the configuration object prints as the tree it stands for |
| `NginxConfigs.StartStatement` | src/config_parser.cc:296-307 | a word after a finished statement or brace appends a new statement with that word to the innermost configuration; every level of the stack still stands for its frame |
| `NginxConfigs.ContinueStatement` | src/config_parser.cc:306-307 | a word after a word is appended to the innermost open statement only |
| `NginxConfigs.FinishStatement` | src/config_parser.cc:312-316 | a semicolon needs no change to any object for the open statement to become a finished leaf |
| `NginxConfigs.OpenBlock` | src/config_parser.cc:317-327 | an opening brace hangs a new configuration below the open statement and pushes it |
| `NginxConfigs.CloseBlock` | src/config_parser.cc:328-345 | popping makes the inner configuration and its statement a finished block one level up |
| `NginxConfigs.StackIsTree` | src/config_parser.cc:273-275 | at any moment the objects added to the outermost configuration are the tree the frames stand for |
| `NginxConfigs.NginxConfigParser.Advance` | src/config_parser.cc:293-364 | one token does to stack, brackets and objects what the machine does, or stops with the machine's verdict |
| `NginxConfigs.NginxConfigParser.Turn` | src/config_parser.cc:279-365 | one turn of the loop reads a token, makes progress, keeps bracket count equal to stack depth minus one, and keeps the outcome of the rest |
| `NginxConfigs.NginxConfigParser.Parse` | src/config_parser.cc:272-371 | returns true exactly on the texts of the grammar and then has built the derived tree from new objects; earlier statements of the configuration stay, even on failure, where the tree left behind is the machine's |
| `NginxConfigs.ParsedIntoEmpty` | src/config_parser.cc:272-275 | parsed into an empty configuration, the whole object stands for the tree |
| `NginxConfigs.PeekURL` | src/config_parser.cc:47-59 | the text from one character after "url" to the next semicolon, the rest of the text when that length underflows, "" when absent |
| `NginxConfigs.NginxConfig.GetAttribute` | src/config_parser.cc:115-141 | the attribute text found in the printed configuration, cut at a NUL, "" without a semicolon |
| `NginxConfigs.NginxConfig.ParseString` | src/config_parser.cc:29-45 | all three tables are extended by the tree's handlers in post-order, the first entry for a url winning over later and earlier entries staying |
| `NginxConfigs.Tables.Insert` | src/config_parser.cc:40-42 | an entry is made in each table exactly where the url is not yet present |
| `Lookup.PeekIsAttribute` | src/config_parser.cc:47-59 | the two loops read the same: GetAttribute of "url" is the peeked url as a C string, and "" exactly where PeekURL would run out of the text |
| `Lookup.PeekedUrlIs` | src/config_parser.cc:47-59 | nothing without "url"; else what stands one character behind it up to the semicolon, and everything after a semicolon right behind it |
| `Lookup.LookupAgrees` | src/config_parser.cc:115-141 | if the first statement mentioning an attribute is the leaf with its values, text search returns those values joined by blanks |
| `Lookup.DeclaredReads` | src/config_parser.cc:143-171 | at any depth, the printed form of a tree shows a word first in front of the values of the first leaf that declares it, however deep that leaf stands |
| `Lookup.Layout` | src/config_parser.cc:143-171 | the printed form: four blanks for each level, one blank between words, a semicolon or the block on lines of its own |
| `Lookup.NestedLookupAgrees` | src/config_parser.cc:115-141 | an attribute declared anywhere in the tree, with no mention before, is what text search returns |
| `Lookup.PortIsDeclared` | src/config_parser.cc:61-89 | the port is the number declared first behind `listen`, however deep, and 0 when no word of the tree holds "listen" |
| `Lookup.UrlIsDeclared` | src/config_parser.cc:47-59 | the peeked url of a printed block is the url its first mention declares |
| `NginxConfigs.NginxConfig.GetPort` | src/config_parser.cc:61-89 | the port read from the printed tree |
| `Routing.FirstMatchDeclares` | src/dispatcher.cc:41-47 | when every handler block declares its url, looking up a printed url finds the first handler in post-order that declares it |
| `Routing.FirstMatchIsFirst` | src/config_parser.cc:32-44 | with statements placed by their indices: the handler found for a url is the handler statement with that url before which, in post-order, no other one stands; none is found when no handler statement has the url |
| `Routing.HandlersListed` | src/config_parser.cc:32-44 | handlers are entered in the post-order of their places, each once and none missing |
| `Routing.TableOfFirst` | src/config_parser.cc:40-42 | a table keeps its older entries, and for every other url of a handler statement gets the name of the first in post-order |
| `Routing.HandlersComplete` | src/config_parser.cc:32-44 | the handlers entered are those of the handler statements anywhere in the tree, and no others |
| `Routing.FirstMatch` | src/dispatcher.cc:41-47 | a linear scan: the first handler with the url, None exactly when there is none |
| `Routing.FirstSegmentIs` | src/dispatcher.cc:29-38 | the key looked up is the longest start of the path with no slash behind its first character |
| `Dispatching.Dispatcher.constructor` | src/dispatcher.cc:15-19 | both tables index the configuration, the status table keeps older entries |
| `Dispatching.Dispatcher.generateResponse` | src/dispatcher.cc:21-79 | handler name and block are those of the handler statement that is first in post-order among those with the path's first segment as url, else the error handler with an empty configuration; where all handler blocks declare their url, of the first that declares the segment |
| `Dispatching.TablesAgree` | src/config_parser.cc:38-43 | both tables have the same keys and a key's two entries come from one statement |
| `Session.handle_read` | src/session.cc:34-103 | after a clean read the handler that a linear scan of the tree finds answers from its printed block and the parsed request, and its answer is written and counted under the path; after a failed read nothing happens |
| `Session.AnswerIs` | src/dispatcher.cc:41-79 | the handler that is first in post-order for the first segment of the path answers, from its own block as printed and the parsed request; the error handler otherwise |
| `Session.StartServer` | src/server_main.cc:82-107 | a server starts exactly on texts of the grammar whose printed tree gives a port other than 0, and then holds the derived tree |
| `Session.ServeText` | src/server_main.cc:82-107 | a started server writes the answer of the handler the derived tree gives |
| `HttpRequest.Request.check_first_request_line` | src/request.cc:32-53 | accepts lines of three parts with a known method and version and then sets exactly these three fields |
| `HttpRequest.Request.parse_request` | src/request.cc:55-119 | sets method, path, version, ordered headers and body to what the text parses to; a malformed request changes nothing |
| `HttpRequest.Request.request_handler` | src/request.cc:14-30 | a text that starts with a request line gives its method, path and version; every other text gives GET /bad HTTP/1.1 with no headers and no body |
| `HttpRequest.RequestExactly` | src/request.cc:32-83 | a text is accepted exactly when its first line is a method, a target and a part holding "HTTP/1.1" with blanks between; a text without line feed never is |
| `HttpRequest.TextIsRead` | src/request.cc:63-115 | the lines between first and last give the headers and the last line is the body; carriage returns end lines exactly when an empty CRLF line occurs; empty lines count for nothing |
| `HttpRequest.HeadersAppend` | src/request.cc:98-113 | headers are read line by line, in order |
| `HttpRequest.BadLineDisregarded` | src/request.cc:101-107 | a line without colon-blank counts for nothing |
| `HttpRequest.HandledShape` | src/request.cc:32-119 | every request handed on has a known method, a non-empty path without blanks, a version part containing "HTTP/1.1", and a body without line feed |
| `HttpRequest.HeaderBack` | src/request.cc:101-113 | a header line always gives one header, and the one it was made of exactly when the name holds no colon-blank |
| `HttpRequest.RequestRoundTrip` | src/request.cc:55-119 | a serialised request (sections 3.1.1 and 3.2 of RFC 7230) parses back whole exactly when its body holds no line end and no header name a colon-blank |
| `HttpRequest.ProxyRequestParses` | src/proxy_handler.cc:100-104 | the request the proxy builds parses back to its path, host and headers |
| `UrlCodec.UrlDecode` | src/url_parser.cc:5-24 | the decoding loop computes the decoded text of every well-escaped input |
| `UrlCodec.HexTable` | src/url_parser.cc:14 | a digit has the value of its place in the table of hex digits, in either case |
| `UrlCodec.EscapeRoundTrip` | src/url_parser.cc:5-24 | whatever an escaper that writes digits from the table escapes is decoded back |
| `UrlCodec.DecodeInvertsEncode` | src/url_parser.cc:5-24 | a text is a percent-encoding (section 2.1 of RFC 3986) of s exactly when it is well-escaped and decodes to s, and each escape shortens it by two |
| `UrlCodec.HtmlEncode` | src/url_parser.cc:26-42 | the encoding loop writes the code word of every character |
| `UrlCodec.EncoderTable` | src/url_parser.cc:31-39 | each character is written as the table of six entities says, in order |
| `UrlCodec.DecoderTable` | src/url_parser.cc:48-53 | each of the six entities is decoded to its character |
| `UrlCodec.DecodeLeavesAlone` | src/url_parser.cc:44-55 | decoding leaves a text as it is exactly when it holds none of the six entities, and never lengthens it |
| `UrlCodec.PassCommutes` | src/url_parser.cc:49-53 | a pass over a partly encoded text takes off one code and does to the text underneath what it would do directly |
| `UrlCodec.DecodeOfEncode` | src/url_parser.cc:26-55 | decoding an encoded text applies the five later replacements to the text itself |
| `UrlCodec.HtmlRoundTrip` | src/url_parser.cc:26-55 | decoding undoes encoding exactly on texts without the five entities |
| `UrlCodec.HtmlRoundTripFails` | src/url_parser.cc:48-51 | a concrete text that does not survive |
| `HtmlSearch.EncodeAppend` | src/url_parser.cc:26-42 | encoding respects concatenation |
| `HtmlSearch.PrefixCode` | src/url_parser.cc:26-42 | encoded prefixes are prefixes: the code is uniquely decodable |
| `HtmlSearch.EncodeInjective` | src/url_parser.cc:26-42 | different texts have different encodings |
| `HtmlSearch.SearchFinds` | src/meme_handler.cc:879-880 | a field that holds the raw term is found by the encoded term |
| `HtmlSearch.SearchIsExact` | src/meme_handler.cc:879-880 | all hits are true hits exactly for terms no entity can run into |
| `HtmlSearch.SafeTerms` | src/meme_handler.cc:879-880 | terms starting with an encoded character, or with one that is in no entity, are of that kind |
| `FormBody.parseRequestBody` | src/meme_handler.cc:251-327 | the item loop with its early returns, the single-item token form and the final encoding compute the specified fields |
| `FormBody.ParsedValue` | src/meme_handler.cc:284-305 | the parsed value of a form-encoded text is the text with blanks for pluses and the first %2F turned into a slash |
| `FormBody.ReadForm` | src/meme_handler.cc:280-312 | items of a valid form are never cut short and the last pair with a key decides |
| `FormBody.PostedField` | src/meme_handler.cc:263-322 | name, top and bottom of a posted form of at least three pairs hold the encoded parsed value |
| `FormBody.PostedFields` | src/meme_handler.cc:278-322 | every field of a posted form: the image in its directory, marked "df-" exactly when some pair encodes deepfry=True; name, top and bottom encoded; all others as parsed |
| `FormBody.CutForm` | src/meme_handler.cc:286-289 | an item with more than one equals sign apart ends the form: the pairs before it stay as parsed |
| `FormBody.ShortBody` | src/meme_handler.cc:265-276 | a body of fewer than three items gives nothing, or its first item as it stands when it mentions "access" |
| `MemeRuns.FormToEditPage` | src/meme_handler.cc:62-84 | post, store, fetch and decode for the edit page bring back name, top and bottom as `Shown` says, for new and edited memes |
| `MemeRuns.ShownExactly` | src/meme_handler.cc:291-305 | the edit page shows the original text exactly when it holds no plus, no %2F, no NUL and none of the five entities |
| `PageTemplate.PassFillsSlot` | src/meme_handler.cc:417-422 | one global replacement on a page with some slots filled, by any values, fills exactly one more and does to the values on the page what it would do to each alone |
| `PageTemplate.AnyOrder` | src/meme_handler.cc:502-507 | replacing one placeholder kind after another, in every order and for all values, fills every slot with what the later passes make of its value |
| `PageTemplate.SimultaneousExactly` | src/meme_handler.cc:417-422 | the passes equal simultaneous substitution on every bracketed page exactly when the later passes leave each value as it is |
| `PageTemplate.CleanIsUndisturbed` | src/meme_handler.cc:417-422 | that holds when no value contains the placeholder of a slot filled after it |
| `PageTemplate.LastTwoExactly` | src/meme_handler.cc:421-422 | for two passes that test is exact, unless the later value is its own placeholder |
| `PageTemplate.FillPage` | src/meme_handler.cc:649-654 | for all values, the six replacements of a bracketed page fill the slots with the settled values, and are the simultaneous substitution when later passes leave the values alone |
| `PageTemplate.UncleanValueIsFilled` | src/meme_handler.cc:418-420 | a meme named like a later placeholder is itself replaced, so that the passes are not simultaneous |
| `MemePages.MemeHandler.HandleEdit` | src/meme_handler.cc:54-57 | with a good token the edit page is filled with the decoded texts, else the view page with the denial, or an error for a missing meme |
| `MemePages.MemeHandler.HandleDelete` | src/meme_handler.cc:58-61 | with a good token exactly the named row goes, else the table stays and the denial is shown |
| `MemePages.Columns` | src/meme_handler.cc:649-654 | which column fills which placeholder, on the edit page and on the view page |
| `MemePages.NoColumns` | src/meme_handler.cc:647-654 | the edit page of a meme that is not there shows its id and nothing else |
| `MemePages.DenialPage` | src/meme_handler.cc:410-422 | the denial is the view page with a remark before its end |
| `MemePages.FormDecides` | src/meme_handler.cc:62-84 | a posted form writes the row its meme_id names exactly when its posttype encodes "edit", keeping the token; otherwise the row of the next id with a token made for it; the row holds the form's texts and image, no other row changes |
| `MemePages.DeleteCarriedOut` | src/meme_handler.cc:58-61 | a delete of any live id is carried out exactly when the token is the master token or that of some live row; no other row ever changes |
| `MemePages.TokenDeletesAnother` | src/meme_handler.cc:130-149 | the token of one row deletes another |
| `MemePages.EditPageOfForm` | src/meme_handler.cc:62-84 | a posted form comes up on the edit page with its texts as `Shown` says, each in its placeholder, when no value is disturbed by a later one |
| `Numerals.EqualLengthOrder` | src/meme_handler.cc:722 | for digit texts of equal length, of any length, text order is number order |
| `Numerals.SuccessorGrows` | src/meme_handler.cc:729 | the next numeral is greater as text exactly when the numeral is not all nines |
| `Numerals.SelectMax` | src/meme_handler.cc:722 | the greatest text of a non-empty set of ids |
| `Numerals.LeadingNumberIs` | src/meme_handler.cc:729 | the number `stoi` and `atoi` read is the one the text spells out: blanks, a sign, digits, and anything but a digit |
| `Numerals.ReadingsAre` | src/meme_handler.cc:729 | `stoi` gives the number in front when it is an int and throws otherwise; `atoi` gives 0 without a number |
| `Numerals.StoiOfText` | src/meme_handler.cc:729 | `stoi` reads back what `to_string` writes, exactly for ints |
| `MemeStore.CreateOverwrites` | src/meme_handler.cc:719-757 | on any table of numeral ids, a create hits a live id exactly when the greatest text is all nines and its successor is live |
| `MemeStore.NextIdIsGreatest` | src/meme_handler.cc:689-729 | with at most 90000 ids given out, text maximum is numeric maximum and the next id exceeds every live one |
| `MemeStore.NextIsCounted` | src/meme_handler.cc:729 | the next id is one more than the number in front of the greatest id, whatever text that is |
| `MemeStore.gen_access_token` | src/meme_handler.cc:660-677 | the loop builds the text of letters and digits the random numbers give |
| `MemeStore.ScrambleLetters` | src/meme_handler.cc:664-673 | each letter is the one its random number picks from small letters, capitals and digits |
| `MemeStore.TokenSplits` | src/meme_handler.cc:137-140 | a token made for an id splits at its dash into that id |
| `MemeStore.MemeDatabase.AddToDatabase` | src/meme_handler.cc:679-788 | a create writes one row under the next id with a new token, or throws and changes nothing when the greatest id has no int in front; an edit rewrites its row keeping the token, or "00001" without one; all other rows stay |
| `MemeStore.MemeDatabase.HandlePost` | src/meme_handler.cc:62-84 | "edit" as posttype writes over the row named, anything else makes a new one; the id written is returned; the lock stays taken exactly when a create throws |
| `MemeStore.DeleteUndoesCreate` | src/meme_handler.cc:219-224 | deleting what was just created restores the table exactly when the creation replaced nothing: unless the greatest id was all nines with its successor taken |
| `MemeRuns.DeleteKeeps` | src/meme_handler.cc:219-224 | a delete keeps ids and tokens right and takes away one row exactly when the id is live |
| `MemeStore.CreatedIsFetched` | src/meme_handler.cc:790-836 | a created meme is fetched as posted exactly when no field holds a NUL, and all other rows are fetched as before |
| `MemeStore.MemeDatabase.GetAllFromDatabase` | src/meme_handler.cc:838-868 | every row once and no others, in some order |
| `MemeStore.ListedColumns` | src/meme_handler.cc:838-868 | a listed or fetched row without NULs shows id, texts, image and token as stored |
| `MemeStore.AuthorizedExactly` | src/meme_handler.cc:128-149 | on any table a token with text in front of a dash is accepted exactly when a row with that id holds it; one without a dash only if it is the master token |
| `MemeStore.MemeDatabase.verifyTokenAuthentication` | src/meme_handler.cc:120-153 | accepts the master token, or a token held by a row whose id is in front of the token's dash |
| `MemeRuns.RunKeeps` | src/meme_handler.cc:719-774 | after any run with live edits and at most 90001 creates: ids are numerals of the range given out, every token is made for its row, rows = creates minus effective deletes |
| `MemeRuns.CreateKeeps` | src/meme_handler.cc:719-735 | with at most 90000 ids given out, a create adds exactly one row and keeps ids and tokens right |
| `MemeRuns.EditKeeps` | src/meme_handler.cc:737-751 | an edit of a live id keeps its token and the number of rows |
| `MemeRuns.RunIdsHaveFiveDigits` | src/meme_handler.cc:689-729 | up to the 90000th create every live id has five digits |
| `MemeRuns.NextCreateOverwrites` | src/meme_handler.cc:722-757 | after 90001 creates and nothing else the next one replaces row 100000 |
| `MemeRuns.IssuedAreFirst` | src/meme_handler.cc:722-729 | in runs of any length, whatever is deleted and whichever ids given out are edited in between, the ids given out are the first ones without a gap, and all live ids are among them |
| `MemeRuns.IdGivenOutAgain` | src/meme_handler.cc:722-729 | in runs of any length, with m ids given out, a create is given one of them again exactly when m > 0 and the greatest live id as text is not 9999 + m |
| `MemeRuns.EarlyIdGivenOutAgain` | src/meme_handler.cc:722-729 | up to the 90000th create: exactly when the greatest id given out is no longer live |
| `MemeRuns.DeletedIdReturns` | src/meme_handler.cc:219-224 | a run in which it happens: the only meme is deleted and its id is given out again |
| `MemeRuns.LiveIdsRead` | src/meme_handler.cc:729 | after any run, with edits naming any text, every live id was named by an edit or can be read by `stoi` |
| `MemeRuns.CreateThrowsExactly` | src/meme_handler.cc:72-84 | after any such run the next create throws, keeping the lock, exactly when the greatest live id was written by an edit and has no int in front |
| `MemeRuns.EditBlocksCreates` | src/meme_handler.cc:737-774 | a run in which it happens: an edit names an id without digits |
| `MemeRuns.TokenDecides` | src/meme_handler.cc:130-149 | a non-master token is accepted exactly when a live row holds it, and at most one does |
| `MemeRuns.TokenBody` | src/meme_handler.cc:267-276 | a token form is read back as its token |
| `MemeProtocol.RunsAreSafe` | src/meme_handler.cc:72-84 | in all interleavings of locked posts and unlocked deletes with at most 90001 creates: one thread past the lock, live ids among those given out, a pending new id greater than every live id |
| `MemeProtocol.CreateNeverReplaces` | src/meme_handler.cc:756-774 | in all those runs an inserted new meme adds one row and leaves the others as they are |
| `MemeProtocol.SelectIsEnabled` | src/meme_handler.cc:722-729 | within the bound a creator always finds an id to count up from |
| `MemeProtocol.PostIsOneOperation` | src/meme_handler.cc:719-774 | with nobody in between, the two statements of a post are one operation on the table |
| `MemeProtocol.ReplacesOnlyAtPowers` | src/meme_handler.cc:722-757 | in concurrent runs of any length a creation can only replace a row whose id is a power of ten |
| `MemeProtocol.CreateReplacesExactly` | src/meme_handler.cc:719-774 | in concurrent runs of any length the INSERT of a creation replaces a row exactly when at its SELECT the greatest id was all nines with the numeral after it live, and that row was not deleted since |
| `MemeProtocol.TokensOfRuns` | src/meme_handler.cc:719-751 | in concurrent runs of any length every row holds the token made for its id or "00001", and no two rows share another one |
| `MemeProtocol.OthersOnlyDelete` | src/meme_handler.cc:72-84 | between the two statements of a post only deletes can happen, and they take away exactly their rows |
| `MemeProtocol.EditUndoesDelete` | src/meme_handler.cc:737-774 | an edit writes its row with the token from its SELECT; it brings a deleted row back with its token exactly when the row was live then and was deleted before the INSERT |
| `MemeProtocol.DeletedRowReturns` | src/meme_handler.cc:737-774 | a run in which it happens |
| `StatusCounter.StatusObject.addStatusEntry` | src/status_obj.cc:4-18 | the list stays the tally of the calls, extended by this one |
| `StatusCounter.StatusObject.getStatusEntries` | src/status_obj.cc:20-24 | the tally of the history |
| `StatusCounter.StatusObject.getStatusCalls` | src/status_obj.cc:26-35 | the unsigned sum returned as int is the number of calls |
| `StatusCounter.Tally` | src/status_obj.cc:4-18 | one entry per pair, in order of first appearance, counting its multiplicity in the history |
| `StatusCounter.TallyOld` | src/status_obj.cc:10-13 | a repeated call raises its one entry |
| `StatusCounter.TallyNew` | src/status_obj.cc:16 | a first call is appended with count one |
| `StatusCounter.TallyTotal` | src/status_obj.cc:26-35 | the counts add up to the number of calls |
| `StatusCounter.AppearanceOrder` | src/status_obj.cc:8-16 | entries stand in the order their pairs were first called |

## Left out

- Sockets, timers, logging, console output and the session's lifetime: plumbing without visible results.
- The database engine: the table is a map, each SQL statement one atomic step; failures to open or prepare, the row order of a plain SELECT, and LIKE's wildcards and case folding are not modelled. A search hit is modelled as the encoded term occurring in the stored field.
- MemeDelete: requires a canonical numeral, because the id is pasted into the statement and other texts would be read as SQL.
- AddToDatabase: requires a greatest id other than the limit of int, where counting up overflows.
- HandlePost: requires the lock to be free; a post that finds it taken waits. What becomes of the server after an exception is not modelled.
- HandleDelete: takes the error flag left by a deletion as a parameter, because the function ends without returning one.
- addStatusEntry: requires fewer than 2^31 - 1 earlier calls, where the count would overflow.
- PeekURL: requires a semicolon behind "url", because the loop otherwise reads past the end of the text.
- GetAttribute: requires the attribute to occur, because the function otherwise ends without a result.
- UrlDecode: requires two hex digits behind each percent sign, because the number read is otherwise undefined.
- parseRequestBody: requires an equals sign in every item it reads, because the second piece is otherwise missing.
- ParseString: requires every handler statement to be a block with a name and a readable url, because the code dereferences them.
- Dispatching.Dispatcher.constructor: leaves out the root, which serves nothing, and the first request and response, which nobody reads.
- Dispatching.Dispatcher.generateResponse: names the handler and its configuration; making the handler object from the name, running it, and the stored request and response are not modelled.
- Session.handle_read: how handlers answer is a parameter, a function of their name, their printed configuration and the request; logging, and what becomes of the session object, are left out.
- Session.StartServer: requires the number behind "listen" to fit an int, because `atoi` is undefined otherwise; failures to bind the port are I/O.
- LookupAgrees: asks that the attribute holds no line feed, which bare words never do.
- NestedLookupAgrees: asks that the attribute holds no blank, line feed, semicolon or brace, which the printer writes itself.
- Int overflow of string lengths, of nesting depth and of bracket counts is not modelled.
- Random numbers are a parameter of the operations that use them.
- The pages' file reading, `MemeList`, `MemeResult`, the page dispatch on `memepage_`, `StaticHandler`, `StatusHandler` and the fixed-answer handlers: straight-line code or I/O that would only add easy members.
- `GetRoot`, `Response`, `HandlerManager`, and the proxy's networking and HTML filter.
- Concurrency is modelled as the mutex protocol is written; that the shipped server runs one I/O thread is not used.
