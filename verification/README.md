# A verified model of the HTTP server's configuration, requests, sessions, messages and storage

The server reads an nginx-style configuration, turns its locations into a route table, parses
requests, keeps login sessions, a message board in numbered files, and a CRUD store of blobs under
decimal file names. The modules here model that code and prove what it is for:

* **Configuration** (`config_lexer`, `config_grammar`, `config_printer`, `config_layout`,
  `config_parser`, `config_routes`). The character state machine is proved against a one-pass scanner, the scanner
  against a definition of what a text splits into (tokens, blanks, comments). The explicit-stack
  machine is proved to decide the grammar `config ::= stmt*`, `stmt ::= word+ ';' | word* normal '{'
  stmt* '}'`: it accepts a token sequence with a tree exactly when the tree derives it. `Parse` runs
  that machine over heap objects; the stack is the rightmost path of an unshared tree. `ToString` is
  proved to print what parses back to the same tree, for every well-formed tree and depth, with gaps
  that are told from the tokens alone.
  `parseConfig` and the dispatcher are proved to give longest-prefix routing.
* **Requests** (`request_parser`, `request_round_trip`). The message format of section 2.1 of RFC 9112,
  the request line of section 3 and the field lines of section 5, and the round trip with the
  serialization.
* **Sessions** (`session_cookie`, `session_store`, `session_protocol`, `session_middleware`). The store over
  shared objects; the invisibility of cleanups; and a state machine of middleware requests in which
  each critical section is one step, so `get_session` is two.
* **Messages** (`message_store`, `message_board`, `message_posts`, `get_messages`). Rewriting the list to
  `<n>.json`, two independent readers of these files, each with the exact condition on the folders
  around them under which it gives the messages back, and all interleavings of posts.
* **Storage** (`file_stores`, `api_handler`, `api_laws`). The disk store and the in-memory store are one map
  of maps, the CRUD handler answers from it, and what a client can rely on over all runs of requests
  holds of the runs that serving requests produces.

`wrappers`, `text`, `streams`, `sorting`, `files` and `http_types` hold what these share: options,
decimal conversion, an input stream, `std::sort` and directory walks, directories of files and
folders, request records.

Assumptions, each a parameter or a precondition where it is used: the clock is an integer that does
not go back; a session token is issued once; a JSON decoder undoes the encoder and rejects the empty
text; an entity of the store is one plain path component; directory and unordered-map iteration may
come in any order; file operations succeed unless a folder is in the way. A `char` stands for a
byte, and end of file seen through `peek` is the character 255.

Where the code and its own words disagree the model follows the code. A quoted token at the very
end of the text is an error, because `peek` there is not a delimiter. The comment in the header says
that Parse accepts exactly the valid configurations; "valid" is the grammar above, so a block may only
follow an unquoted word. The persist-then-load law of the message store fails when a sub-directory
has the name of a message file (`FolderLosesMessage`); `PersistThenLoad` gives the exact condition.
The listing reads the same directory by the number each name starts with, so a sub-directory such as
`1abc` makes it show message 1 twice (`FolderSpoilsListing`); `EachReadOnce` gives the exact
condition, and `GetReturnsPersisted` what it means for the messages listed. `Parse` on an object that
already has statements adds to them, and then rejects a text without any.

## Model

| member | source | states |
|---|---|---|
| Text.StoiOfDecimal | src/disk_file_store.cc:36-62 | Parsing a decimal name gives its int back whatever non-digit text follows; outside the int range it fails |
| Text.StoiIffReads | src/disk_file_store.cc:62-62 | stoi gives a number exactly when the text is white space, a sign or none, the digits of that number and something else, and the number fits an int |
| Text.DecimalInjective | src/message_store.cc:141-149 | Different ints have different names, with or without an extension |
| ConfigTokens.TokenizeIffSplits | src/config_parser.cc:42-74 | A text tokenizes to a token list exactly when it is those token texts with white space and closed comments between them (the last comment may be open) and each token followed by what ends it |
| ConfigTokens.TokenTexts | src/config_parser.cc:42-74 | The texts of tokens, by their characters; in a quoted one its quote stands exactly behind an odd number of backslashes |
| ConfigTokens.GapTexts | src/config_parser.cc:149-189 | A gap is any row of blanks and closed comments |
| ConfigTokens.FollowsTexts | src/config_parser.cc:42-48 | A word ends before white space, a delimiter or the end of the text, a quoted token before white space or a delimiter |
| ConfigTokens.NextToken | src/config_parser.cc:138-195 | Every call that does not meet the end of the text consumes at least one character |
| ConfigTokens.InsertAfterToken | src/config_parser.cc:149-189 | Blanks, or comments behind a blank, put right after any token leave the token list unchanged |
| ConfigLexer.NextCharTerminatesQuotedToken | src/config_parser.cc:42-48 | True exactly before white space or a block delimiter, or on a stream no longer good; reads nothing |
| ConfigLexer.ConsumeQuotedToken | src/config_parser.cc:51-74 | Collects up to the first unescaped quote; the token is valid exactly when an end of token follows |
| ConfigLexer.ParseToken | src/config_parser.cc:138-195 | The state machine returns the kind and text of the scanner's next token and leaves its rest unread |
| ConfigGrammar.ParseTokensIffDerived | src/config_parser.cc:200-264 | The stack machine accepts a token sequence with a tree exactly when the tree is well formed and derives that sequence |
| ConfigGrammar.DerivationUnique | src/config_parser.cc:200-264 | A token sequence has at most one tree |
| ConfigGrammar.StepKeepsInv | src/config_parser.cc:218-263 | In every reachable state the open statement has words exactly when the last token was a word, and finished statements are well formed |
| ConfigGrammar.StepReads | src/config_parser.cc:218-263 | Each accepted token extends exactly by itself what the state has read |
| ConfigGrammar.StackDepth | src/config_parser.cc:201-251 | The stack has one frame more than blocks opened and not closed |
| ConfigPrinter.ParseTextIffDerived | src/config_parser.cc:200-264 | Parse accepts a text with a tree exactly when the tree is well formed and the text is the tree's tokens with gaps |
| ConfigPrinter.AllTokenizes | src/config_parser.cc:81-115 | Printed statements in front of any text tokenize to the statements' tokens in front of that text's tokens |
| ConfigPrinter.PrintThenParse | src/config_parser.cc:81-115 | Printing at any depth and parsing gives the same tree exactly for well-formed trees whose words are token texts |
| ConfigLayout.PrintIsLayout | src/config_parser.cc:81-115 | What is printed is told from the tree's tokens and the depth alone |
| ConfigLayout.PrintedGaps | src/config_parser.cc:93-115 | The printed text splits into the tree's tokens with exactly these gaps: one blank inside a line but none before a semicolon, a newline behind a semicolon or brace, and two blanks for each brace open at the start of a line |
| ConfigPrinter.AcceptedIsLegible | src/config_parser.cc:200-264 | Every accepted text has a well-formed tree of token texts |
| ConfigPrinter.PrintIsNormalForm | src/config_parser.cc:81-115 | Parse, print, parse gives the first tree again, and printing after parsing is idempotent |
| ConfigPrinter.PrintSeparatesTrees | src/config_parser.cc:81-88 | Two accepted texts print alike exactly when they have the same tree |
| ConfigPrinter.InsertingGapsKeepsTree | src/config_parser.cc:206-216 | Blanks and comments after a token do not change the parsed tree |
| ConfigParser.NginxConfigStatement.ToString | src/config_parser.cc:93-115 | Returns the printed form of the tree the object holds |
| ConfigParser.NginxConfig.ToString | src/config_parser.cc:81-88 | Returns the printed form of the tree the object holds |
| ConfigParser.RightmostPath | src/config_parser.cc:201-251 | In every state the blocks on the stack are each the block of the last statement of the one below, and behind a word the top block has a last statement, with words and no block |
| ConfigParser.StartStatement | src/config_parser.cc:221-223 | Adds an empty statement to the innermost block; the stack stays the rightmost path of an unshared tree |
| ConfigParser.AddWord | src/config_parser.cc:224-224 | The innermost block has a last statement with no block, which gets the word; all else stays |
| ConfigParser.OpenBlock | src/config_parser.cc:233-240 | The last statement gets a new block, which becomes the top of the stack, the rightmost path of an unshared tree |
| ConfigParser.EndStatement | src/config_parser.cc:227-231 | The open statement becomes a finished one of the same words |
| ConfigParser.CloseBlock | src/config_parser.cc:242-251 | The innermost block becomes the body of its statement, which is finished |
| ConfigParser.Switch | src/config_parser.cc:218-263 | The switch succeeds exactly when the machine steps, and the heap then holds the machine's next state, unshared |
| ConfigGrammar.StepBehind | src/config_parser.cc:218-263 | What the object held before changes no step of the stack machine and stays in front of what is read |
| ConfigParser.Parse | src/config_parser.cc:200-264 | Succeeds exactly on the texts of the language, except the ones without statements when the object has some; the object then holds what it held followed by the text's tree, in new objects, none shared |
| Dispatching.Dispatcher.RegisterRoute | src/dispatcher.cc:5-7 | Binds the path, replacing what it had |
| Dispatching.Dispatcher.Match | src/dispatcher.cc:9-22 | For every iteration order returns the entry of the longest registered prefix; without one, the empty entry it makes for the empty key |
| Dispatching.LongestUnique | src/dispatcher.cc:13-19 | A path has at most one longest registered prefix |
| ConfigRoutes.RegisterStatements | src/config_parser.cc:296-334 | The outcome is that of the first statement not accepted; when all are, the table and the port are what the statements register in order |
| ConfigRoutes.ParseConfig | src/config_parser.cc:287-342 | Accepts exactly the texts that parse and whose statements are accepted, then adds the NotFound route at the slash; the path of each location is bound to its handler, with the path and the second words inside its block as arguments |
| ConfigRoutes.CollectArgs | src/config_parser.cc:318-327 | The arguments are the path and, in order and one each, the second words of exactly the statements of the block that have one |
| ConfigRoutes.AcceptedIffRoutable | src/config_parser.cc:298-316 | Accepted exactly when ports are ints and location paths are pairwise distinct and not slash-ended |
| ConfigRoutes.FirstOffender | src/config_parser.cc:298-316 | A configuration not accepted throws exactly when the first statement that does not go is a port that is no int, and is rejected exactly when it is a location |
| ConfigRoutes.LastPortWins | src/config_parser.cc:299-301 | The last port statement gives the port |
| ConfigRoutes.PortStays | src/config_parser.cc:299-301 | Without a port statement the port stays |
| ConfigRoutes.RegisteredKeys | src/config_parser.cc:329-332 | The paths registered are those that were there and the location paths |
| ConfigRoutes.LocationsAreBound | src/config_parser.cc:302-339 | In any accepted configuration each location's path is bound to the handler it names, with the path and the second words inside its block as arguments |
| ConfigRoutes.RoutingLaw | src/config_parser.cc:296-341 | On an empty table every slash-led path has one longest prefix; NotFound answers exactly when no location path is a prefix, else that location |
| Streams.InputStream.GetLine | src/request_parser.cc:24-47 | Reads up to and drops a newline; fails exactly when nothing is left |
| Streams.LineSplits | src/request_parser.cc:24-47 | A line has no newline in it; one follows it, or nothing |
| RequestParser.FindLeftmost | src/request_parser.cc:15-15 | The leftmost occurrence, None exactly when there is none |
| RequestParser.ParseHeaders | src/request_parser.cc:46-61 | The loop computes the fold of the field lines up to a blank line |
| RequestParser.Parse | src/request_parser.cc:7-64 | Error or request as the specification of head, body, request line and fields says; an error returns an empty request |
| RequestRoundTrip.SerializedParses | src/request_parser.cc:7-64 | For every request line, field lines with and without a blank behind the colon, lines without a colon, and body: parsing gives what the request line says, the last-wins fields and the body |
| RequestRoundTrip.UnfinishedParses | src/request_parser.cc:15-53 | Without the closing blank line the head says the same and the body is empty; what stands behind an empty line inside the head is not read |
| RequestRoundTrip.RequestLineIff | src/request_parser.cc:32-43 | A request line gives method and path exactly when it has three words, the third starting with HTTP/ |
| RequestRoundTrip.NoLineIsError | src/request_parser.cc:24-27 | A text without a first line is an error |
| RequestRoundTrip.SerializeThenParse | tests/echo_handler_test.cc:27-31 | Parsing a request serialized with single blanks gives its method, path, last-wins fields and body; a version without HTTP/ is an error |
| RequestRoundTrip.LastFieldWins | src/request_parser.cc:60-60 | A field name is bound to its last value |
| RequestRoundTrip.OtherFieldsKeep | src/request_parser.cc:60-60 | A name that no field has stays as it was |
| RequestRoundTrip.FindEndOfHead | src/request_parser.cc:15-19 | The first blank line of a serialized request is the one that ends its head |
| SessionCookie.GenerateSessionToken | src/session_store.cc:8-19 | A token is the 32 hexadecimal digits drawn, so it can stand in a cookie pair |
| SessionCookie.FindCookieAnywhere | src/session_middleware_handler.cc:8-56 | In any cookie string the leftmost session= with a value behind it is found, with all up to the next semicolon |
| SessionCookie.SearchCookieString | src/session_middleware_handler.cc:48-56 | Searching a cookie string finds the match of its first pair that has one |
| SessionCookie.CookieRoundTrip | src/session_middleware_handler.cc:8-56 | The token of a session pair is extracted exactly when no earlier pair matches with something else |
| SessionCookie.SetCookieCarriesToken | src/session_middleware_handler.cc:37-37 | The cookie set on login carries the token |
| SessionCookie.ClearCookieCarriesNone | src/session_middleware_handler.cc:42-42 | The cookie set on logout carries no token |
| SessionCookie.HeadersCarryToken | src/session_middleware_handler.cc:48-68 | Headers give a token exactly when the first session pair of the cookies has it, or no pair has a session and it is all that follows "Bearer " |
| SessionTable.LookupAfter | src/session_store.cc:21-82 | What a lookup sees after each operation, as a function of what it saw before and nothing else |
| SessionTable.ApplyRespectsLive | src/session_store.cc:21-82 | Every operation answers from, and acts on, the sessions live now |
| SessionTable.CleanupsAreInvisible | src/session_store.cc:71-82 | Runs that differ in cleanups only give all get_session calls the same answers |
| SessionStores.SessionStore.CreateSession | src/session_store.cc:21-32 | Binds the token to a new session that expires in 24 hours; all else stays |
| SessionStores.SessionStore.ReadSession | src/session_store.cc:34-51 | Under the shared lock: the live session of the token, or nothing and whether an expired one is to be erased |
| SessionStores.SessionStore.GetSession | src/session_store.cc:34-52 | Returns the live session of the token and erases an expired one |
| SessionStores.SessionStore.InvalidateSession | src/session_store.cc:54-58 | Removes the token only |
| SessionStores.SessionStore.UpdateSessionData | src/session_store.cc:60-69 | Changes one entry of the data of one session; sessions share no data |
| SessionStores.SessionStore.CleanupExpiredSessions | src/session_store.cc:71-82 | The erase-while-iterating loop keeps exactly the sessions not yet expired, for every iteration order |
| SessionProtocol.NextKeepsInv | src/session_store.cc:34-52 | Every step of every thread keeps: sessions are standing logins, and a pending erase meets an absent or expired token |
| SessionProtocol.HandlerSeesUser | src/session_middleware_handler.cc:13-46 | In every interleaving, told from the steps alone, the wrapped handler sees a user exactly when an earlier "/login" was answered 200 with that user as body, issuing the token at most 24 hours ago, and no "/logout" with the token was answered since |
| SessionProtocol.StandingAsTold | src/session_middleware_handler.cc:32-43 | The login that stands in the log is the one the steps show |
| SessionProtocol.LateEraseIsHarmless | src/session_store.cc:43-49 | The erase after the lock was dropped removes no live session |
| SessionProtocol.TwoStepGetIsAtomic | src/session_store.cc:34-52 | Every interleaving leaves the live sessions of the run of atomic operations that its steps tell, in which get_session acts when it reads |
| SessionProtocol.StandingIffStands | src/session_middleware_handler.cc:32-43 | The standing login of a token is the one in the log with no later logout |
| SessionMiddleware.SessionMiddlewareHandler.HandleRequest | src/session_middleware_handler.cc:13-46 | The context handed on; the cookie that only a "/login" answered 200 and a "/logout" with a token set; a session is made by that login only, and an unexpired one ended by that logout only |
| SessionMiddleware.LookupThenRespond | src/session_middleware_handler.cc:18-43 | What the lookup erased on the way does not change who is logged in afterwards |
| SessionMiddleware.LoginThenVisit | src/session_middleware_handler.cc:13-46 | Through the handler: a visit with the cookie that a "/login" answered 200 set is passed on with the login's body as user for 24 hours, and not after |
| SessionMiddleware.LogoutThenVisit | src/session_middleware_handler.cc:39-43 | Through the handler: after a "/logout" a visit with its token is passed on without a user |
| MessageFiles.PersistThenLoad | src/message_store.cc:56-159 | Loading what was persisted gives the list back, whatever files were there, exactly when no folder has the name of one of its files |
| MessageFiles.FolderLosesMessage | src/message_store.cc:141-149 | A folder named like the first file: a list of one message is not given back |
| MessageFiles.PersistedContains | src/message_store.cc:117-159 | After a persist the directory has the folders it had and one file for each message not hidden by one, with its number and text |
| MessageFiles.FileListIs | src/message_store.cc:64-88 | The files read are the regular files whose name starts with a number, by number and then by name |
| MessageFiles.DecodedAt | src/message_store.cc:90-115 | The messages are those the files decode to, in order and one each |
| MessageFiles.StemKeepsNumber | src/message_store.cc:71-78 | A file's number is the same read with or without its extension, so both readers number files alike |
| MessageFiles.StrLeqIff | src/get_messages_handler.cc:110-113 | Comparing strings decides which one is a proper prefix or has the smaller character where they first differ |
| MessageFiles.WrittenFileList | src/message_store.cc:64-88 | In a written directory the numeric order is 1, 2, ... with only the numbers folders stand in the way of left out |
| MessageFiles.WrittenContains | src/message_store.cc:131-158 | The written directory has exactly the folders it had and one file for each message |
| MessageStores.MessageStore.Add | src/message_store.cc:42-49 | Appends the message |
| MessageStores.MessageStore.LoadFromFile | src/message_store.cc:56-115 | The list is what the numbered regular files, each once and in numeric order, decode to; empty without a directory |
| MessageStores.RemoveFiles | src/message_store.cc:131-139 | Removes exactly the regular files, for every order of the walk |
| MessageStores.MessageStore.PersistToFile | src/message_store.cc:117-159 | The path after a persist, for a missing path, a file and a directory |
| MessageStores.PersistAndReload | src/message_store.cc:56-159 | Persist then load through the store keeps the list exactly when no folder is in the way, at a plain file exactly when the list is empty |
| MessagePosts.PostMessageHandler.HandleRequest | src/post_message_handler.cc:39-74 | 405 for another verb, 401 without a user and 400 without content, each leaving list and directory alone; otherwise 201, the message is appended and the directory rewritten |
| MessagePosts.PostedIsOnDisk | src/post_message_handler.cc:66-72 | After every interleaving, told from the steps alone, the directory reads back as a prefix of the messages added with every one whose thread has persisted since, and all of them when no post is half done |
| MessagePosts.NextHoldsPrefix | src/post_message_handler.cc:66-72 | Each locked part keeps the directory a prefix, which never shrinks |
| GetMessages.GetMessagesHandler.HandleRequest | src/get_messages_handler.cc:44-119 | The status of each case; otherwise the reply to the values read from a sorted walk, for every order of the walk |
| GetMessages.CollectDocs | src/get_messages_handler.cc:79-106 | What `<id>`, or else `<id>.json`, parses to, in the order of the ids and one each |
| GetMessages.SortDocs | src/get_messages_handler.cc:110-118 | All values, none behind one with a later time stamp; with two or more and one without a string time stamp it throws |
| MessageListing.ReadAllShows | src/get_messages_handler.cc:79-106 | In a persisted directory exactly the numbers of messages that no folder hides are read, as their messages |
| MessageListing.ReadTimes | src/get_messages_handler.cc:70-106 | Each message is read once for its file and once more for every folder whose name starts with its number, but never when a folder has its number or file name itself |
| MessageListing.EachReadOnce | src/get_messages_handler.cc:70-106 | Every message is read exactly once if and only if no folder's name starts with the number of a message |
| MessageListing.GetReturnsPersisted | src/get_messages_handler.cc:69-118 | After a persist the values read are the stored messages, if no folder's name starts with the number of one; for different messages only then |
| MessageListing.FolderSpoilsListing | src/disk_file_store.cc:59-63 | With a folder named 1abc the listing of one message is not that message |
| MessageListing.ListingShowsPosts | src/get_messages_handler.cc:69-118 | After any interleaving of posts the listing is 200 with the first messages added, among them all answered ones, all of them when none is half done, and none behind one with a later time stamp |
| FileStores.DiskFileStore.NextId | src/disk_file_store.cc:17-30 | One more than the largest number a regular file's name starts with, 0 without any or for an unknown entity |
| FileStores.DiskFileStore.ReadDirectory | src/disk_file_store.cc:54-66 | None exactly for an unknown entity; else the numbers of all names, sorted, whatever order they are walked in |
| FileStores.WriteBlob | src/disk_file_store.cc:32-42 | For a plain entity name, on the map of maps: binds the entity and id, and nothing else changes |
| FileStores.ReadBlob | src/disk_file_store.cc:44-52 | For a plain entity name, on the map of maps: the data bound to the entity and id |
| FileStores.RemoveBlob | src/disk_file_store.cc:68-79 | For a plain entity name, on the map of maps: true exactly if bound, and then unbound, leaving the entity known |
| FileStores.ListBlobs | src/disk_file_store.cc:54-66 | For a plain entity name, on the map of maps: the ids ascending, None exactly for an unknown entity |
| FileStores.WalkLists | src/disk_file_store.cc:59-65 | A sorted walk of decimal names lists each id once, whatever the order |
| FileStores.FakeFileStore.NextId | src/fake_file_store.cc:4-7 | Counts up from 0 for each entity and leaves the blobs alone |
| FileStores.FakeFileStore.Write | src/fake_file_store.cc:9-14 | Binds the entity and id, and nothing else changes |
| FileStores.FakeFileStore.Read | src/fake_file_store.cc:16-22 | The data bound to the entity and id |
| FileStores.FakeFileStore.Remove | src/fake_file_store.cc:33-47 | True exactly if bound, and then unbound |
| FileStores.FakeFileStore.ReadDirectory | src/fake_file_store.cc:24-31 | The ids ascending, None exactly for an unknown entity |
| FileStores.RunBoth | src/disk_file_store.cc:32-79 | The same calls, on plain entity names and int ids, on a new store of each kind get the same answers, which are those told from the earlier calls |
| Shelves.AnswerUnique | src/fake_file_store.cc:9-47 | Every call has one right answer |
| ApiHandlers.ParseBuiltPath | src/api_handler.cc:11-23 | A path built from mount, entity and id parses to these; an id beyond int throws |
| ApiHandlers.ParseDigitsPath | src/api_handler.cc:11-23 | Any digits behind the entity are the id they read as |
| ApiHandlers.OtherPaths | src/api_handler.cc:11-23 | A path that does not parse is of neither form |
| ApiHandlers.ParsedPathIsBuilt | src/api_handler.cc:11-23 | A path that parses is built from the mount, an entity without slashes and digits |
| ApiHandlers.NextBlobId | src/disk_file_store.cc:17-30 | On the map of maps: one more than the largest id, at least 0 |
| ApiHandlers.ApiHandler.HandleRequest | src/api_handler.cc:25-163 | Status and reply to each verb and the table after it, on the map of maps, for every request it can serve |
| ApiLaws.StateHoldsLastStored | src/api_handler.cc:34-158 | The table after any run holds under each entity and id the body stored last and not deleted since |
| ApiLaws.GetAnswersLastStored | src/api_handler.cc:52-65 | GET is 200 with the body stored last, 404 exactly without one, and changes nothing |
| ApiLaws.PostTakesUnusedId | src/api_handler.cc:34-50 | POST is 201, takes the id behind the largest that holds something and changes no other entry |
| ApiLaws.ListAnswersStoredIds | src/api_handler.cc:67-82 | LIST is 200, strictly ascending, with exactly the ids GET finds; 404 exactly when nothing was ever stored |
| ApiLaws.PutStores | src/api_handler.cc:84-122 | PUT of valid JSON is 200 and what GET answers next, changing no other entry; anything else is 400 and changes nothing |
| ApiLaws.DeleteForgets | src/api_handler.cc:124-158 | DELETE is 200 exactly where GET finds something, else 404; then GET finds nothing, and no other entry changes |
| ApiLaws.OthersAreRefused | src/api_handler.cc:29-32 | A path that does not parse is 404 and every other verb on a path 400; nothing changes |
| ApiLaws.Serve | src/api_handler.cc:25-163 | Serving requests on an empty store gives a run of these laws and leaves its table on disk, stopping exactly at a request it cannot serve; with plain entities and small ids it serves all |
| ApiLaws.IdsGrowSlowly | src/api_handler.cc:34-50 | If every id named in a path is below a bound, then after n requests every id in the table is below that bound plus n |
| ApiLaws.FittingRequestsAreServed | src/api_handler.cc:34-50 | With plain entities and ids that leave room for one POST per request, every request of a run can be served |

## Left out

- Sockets, the thread pool, Beast responses, logging and `main`: input and output only.
- Echo, health, sleep, static, not-found, logout, login and registration handlers and the handler registry: single branches or plain maps; a wrapped handler is any function from request to response, and in the interleaved model any status and body.
- JSON text: encoders and decoders are functions that invert each other, replies say what their body means, and the JSON of a listing is the sequence of its messages.
- Random tokens: the digits drawn are a parameter, and that a token is not drawn twice is an assumption of the interleaved model.
- Real file systems: failing operations other than a folder in the way of a file; what lies in a sub-directory of an entity or message directory, of which only its name and whether it is empty matter here.
- Entity names that are not one plain path component (empty, with a slash, `.` or `..`): on disk these reach into other directories, and there the two stores differ, so the calls on the map of maps and the requests of a run ask for plain names.
- The root of a store as an entity beside others: only the listing of messages, whose store nobody writes to, reads the root.
- Concurrent API requests, and a listing that overlaps a persist: the handlers do not share a mutex there, so the model takes these requests one at a time.
- Which routes stay registered when `parseConfig` does not return true, and the value of the port then.
- POST on an entity that already holds the largest int id: `next_id` overflows there, so `CanServe` asks that the entity posted to has room.
- JSON values without any time stamp in a listing: the lookup of a missing key is undefined in the JSON library, and the model has it throw as the other values without a string time stamp do.
- SessionStores.SessionStore.CreateSession: reads the clock once, where the source reads it twice, for `created_at` and for `expires_at`; `created_at` is never used.
- MessageStores.MessageStore.PersistToFile: the counter of the files is unbounded here; the laws about reading back ask that the number of messages is an int.
- SessionMiddleware.SessionMiddlewareHandler.HandleRequest: the wrapped handler does not touch the session store itself, as none of the source's handlers does.
