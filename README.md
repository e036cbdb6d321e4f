# A to-do HTTP service: request handling and the record store

This project models the request-handling core of a small to-do HTTP server
written in Rust, `src/lib.rs`. A raw request text goes into
`process_request`, which does four things:

- it reads the request line, checks the protocol version and scans the
  `key: value` header lines;
- it cuts the body to the declared `Content-Length`;
- it routes method and path to one of five store operations: list, get,
  create, update or delete;
- it returns a status line and a body.

The store is a map from id to `Todo`, shared by all requests behind a mutex.

Modules, one per file:

- `Wrappers` (`wrappers.dfy`): `Option` and `Result`.
- `Text` (`text.dfy`): the Rust `str` operations the parser depends on, modelled
  one by one. These are `trim`, `lines`, `split_whitespace`, `split_once`,
  `eq_ignore_ascii_case`, `parse::<usize>`, `join` and byte-offset slicing.
  A slice that panics becomes `None`.
- `Json` (`json.dfy`): an abstract JSON document, looking up the `title`
  string, and serde's typed decoding into `UpdateTodoRequest`.
- `TodoStore` (`store.dfy`): the data types and the specification
  `Performs` of the five store operations. The `Store` class holds the map as
  a field, and its five methods change it in place.
- `Router` (`router.dfy`):
  - the two validators;
  - the routing table `Dispatch`;
  - the parsing steps as a pure decision `Route`;
  - the header loop `ScanHeaders`;
  - the `ProcessRequest` method, proved to carry out what `Route` decides.
- `Endpoints` (`endpoints.dfy`): the routing table, one rule per lemma. Each
  rule says which method and path reach which store operation and which
  answer every refusal gets, in both directions.
- `Wire` (`wire.dfy`): request texts as a client writes them, with CRLF line
  ends and any headers, with or without a `Content-Length`. It states what
  the parser makes of them, which length the headers declare, and each
  rejection of the request line and header block exactly.
- `Scenarios` (`scenarios.dfy`): whole requests and the store before and
  after them, including a create and a read followed from the text to the reply.

Three details of the parser shape what the model states:

- A request line is refused unless it has exactly three whitespace-separated
  parts (src/lib.rs:116); more parts are refused as well as fewer.
- The body is not taken from the text as sent. After the empty line, the rest
  is split into lines and joined again with line feeds (src/lib.rs:113, 149).
  So each CRLF inside the body becomes a bare line feed, and a final line feed
  is dropped (`Wire.ReadBody`).
- The rebuilt body is cut to the declared `Content-Length` in bytes
  (src/lib.rs:150). A cut past its end or inside a multi-byte character
  panics, and the model records that outcome as `Abort` / `Panicked`. A body
  that ends in a line feed and declares its full length hits this
  (`Scenarios.FinalLineFeedPanics`).

## Model

| member | source | states |
|---|---|---|
| Text.Trim | src/lib.rs:86 | `trim` yields the empty text exactly when every character is Unicode whitespace; otherwise it begins and ends with a non-whitespace character |
| Text.Lines | src/lib.rs:113 | `lines` yields no line containing a line feed, and no lines exactly for the empty text |
| Text.LinesCons | src/lib.rs:113-114 | a line ended by CRLF comes back as the first line, followed by the lines of the rest |
| Text.LinesOfCrlfJoin | src/lib.rs:113 | lines joined with CRLF are read back as the same lines when the last one is nonempty |
| Text.SplitWhitespace | src/lib.rs:115 | `split_whitespace` yields nonempty parts that contain no whitespace |
| Text.SplitJoinRoundTrip | src/lib.rs:115 | splitting tokens joined by single spaces gives back the tokens |
| Text.SplitOnce | src/lib.rs:137 | `split_once`: the text before and after the first occurrence of the separator, or None; its contract is `Text.SplitOnceSpec` |
| Text.SplitOnceSpec | src/lib.rs:137 | `split_once(": ")` fails exactly when the separator is absent; otherwise key, separator and value rebuild the line, split at the first separator |
| Text.SplitOnceHeader | src/lib.rs:137 | a header line whose name holds no ": " splits back into its name and value |
| Text.EqIgnoreAsciiCase | src/lib.rs:138 | `eq_ignore_ascii_case`, compared character by character; its contract is `Text.EqIgnoreAsciiCaseAll` |
| Text.EqIgnoreAsciiCaseAll | src/lib.rs:138 | `eq_ignore_ascii_case` holds exactly when lengths agree and the characters agree position by position up to ASCII case |
| Text.EqIgnoreAsciiCaseRefl | src/lib.rs:138 | every header name matches itself up to case |
| Text.ParseUsize | src/lib.rs:139 | a parsed `usize` never exceeds 2^64 - 1 |
| Text.Decimal | src/lib.rs:271 | `id.to_string()` is a nonempty run of decimal digits |
| Text.DecimalValue | src/lib.rs:271 | the decimal digits of an id have that id as their value |
| Text.ParseDecimal | src/lib.rs:158 | `parse::<usize>` of an id's decimal text is that id, or an error beyond 2^64 - 1; the text key a record is stored under determines its id |
| Text.ByteLen | src/lib.rs:150 | the UTF-8 length of a text is zero exactly for the empty text |
| Text.SliceBytes | src/lib.rs:150 | `&body[..n]` is a prefix of exactly `n` bytes; it fails (Rust panics) exactly when no prefix is `n` bytes long |
| Text.SliceWhole | src/lib.rs:150 | cutting a body at its own byte length keeps all of it |
| Text.ByteLenBounds | src/lib.rs:150 | a text has between one and four UTF-8 bytes per character |
| Text.ByteLenPrefix | src/lib.rs:150 | byte lengths add up over a prefix and the rest |
| Text.AsciiByteLen | src/lib.rs:150 | an ASCII text has one byte per character |
| Text.SliceAscii | src/lib.rs:150 | an ASCII body cut at `n` is its first `n` characters, and fails when `n` is past the end |
| Text.Join | src/lib.rs:149 | `join`: the items with the separator between consecutive ones; `Text.JoinAvoids` and `Wire.ReadBodyCrlf` state its properties |
| Text.JoinAvoids | src/lib.rs:149 | joining texts adds no character absent from the parts and the separator |
| Json.TitleField | src/lib.rs:174 | the title is found exactly when the document is an object whose `title` member is a string, and it is that string |
| Json.DecodeUpdate | src/lib.rs:20-24 | an object decodes exactly when `title`, if present, is a string or null and `completed`, if present, is a boolean or null; scalars never decode |
| Json.DecodeEncode | src/lib.rs:20-24 | decoding an encoded `UpdateTodoRequest` gives it back |
| Json.CompletedOfWrongType | src/lib.rs:202 | a `completed` member of another type makes the whole document fail to decode |
| TodoStore.Store.constructor | src/main.rs:7 | a new store is empty and keeps every record under its own id |
| TodoStore.Store.Values | src/lib.rs:264 | `db.values()` lists each stored record exactly once, in some key order |
| TodoStore.Store.List | src/lib.rs:262-267 | answers 200 with a listing of exactly the stored records and changes nothing |
| TodoStore.Store.Get | src/lib.rs:269-279 | answers 200 with the record under the id, or 404 "Todo not found."; changes nothing; in a store that keeps records under their ids, the record returned has the requested id |
| TodoStore.Store.Create | src/lib.rs:281-292 | stores and answers 201 with an uncompleted record whose id is the store's size plus one, replacing whatever that id held; keeps every record under its own id |
| TodoStore.Store.Update | src/lib.rs:294-315 | replaces the supplied fields of the record under the id and answers 200 with it, a record bearing that id; a missing id answers 404 and changes nothing; keeps every record under its own id |
| TodoStore.Store.Delete | src/lib.rs:317-326 | removes the record under the id and answers 200 "Todo has been deleted."; a missing id answers 404 and changes nothing; keeps every record under its own id |
| TodoStore.Performs | src/lib.rs:262-326 | the reply and the new store of each of the five operations, as the `Store` methods promise; `TodoStore.PerformsReplies` and the lemmas below state its properties |
| TodoStore.PerformsReplies | src/lib.rs:262-326 | every store operation replies (none panics), and the only id it can add is the store's size plus one |
| TodoStore.ListingSize | src/lib.rs:264-265 | a listing has one item per stored record and holds exactly the stored records |
| TodoStore.ListingValues | src/lib.rs:264 | an item is listed exactly when it is a stored record |
| TodoStore.DistinctKeys | src/lib.rs:264 | distinct keys covering the map are as many as its entries |
| TodoStore.CreateGrowsIff | src/lib.rs:283-289 | create writes id size+1 and keeps the other records; the store grows exactly when that id was free |
| TodoStore.CreateOnDenseIds | src/lib.rs:283-289 | while the ids in use are exactly 1..n, create adds id n+1 and keeps that shape |
| TodoStore.IdReuseAfterDelete | src/lib.rs:283-289 | deleting record 2 of records 1, 2, 3 and then creating gives the new record id 3, which replaces the old record 3 |
| TodoStore.GetAfterCreate | src/lib.rs:271 | reading the id just created returns the created record |
| TodoStore.AfterDelete | src/lib.rs:319 | after a delete, getting, updating or deleting that id answers 404 and changes nothing |
| TodoStore.UpdateIdempotent | src/lib.rs:300-306 | repeating an update changes neither the store nor the reply |
| TodoStore.UpdateFrame | src/lib.rs:300-306 | an update keeps the set of ids, the other records and the record's id, and sets exactly the supplied fields |
| Router.ValidateTitle | src/lib.rs:85-91 | a title is refused with "Title cannot be empty." exactly when it is all whitespace |
| Router.ValidateCompleted | src/lib.rs:93-99 | accepted exactly when `completed` was supplied; otherwise refused with the type message |
| Router.PathId | src/lib.rs:156-158 | an id is found only in a nonempty segment after `/todos/`, and it fits in a `usize` |
| Router.CreateAction | src/lib.rs:170-192 | the POST arm never panics, refuses only with 400, and never creates a record with a blank title |
| Router.UpdateRequestOf | src/lib.rs:202 | a PUT body decodes only when it parses to an object or an array |
| Router.UpdateAction | src/lib.rs:202-226 | the PUT arm never panics and refuses only with 400; an update it lets through targets the path's id, always sets `completed` and never sets a blank title |
| Router.Dispatch | src/lib.rs:152-257 | routing never panics |
| Router.BlankLine | src/lib.rs:133-136 | the header scan stops at the first empty line after the request line, or at the end |
| Router.DeclaredLength | src/lib.rs:132-140 | the length the last Content-Length header declares, an unparsable value read as 0; its contracts are `Router.DeclaredLengthSpec` and `Router.DeclaredLengthValue` |
| Router.DeclaredLengthSpec | src/lib.rs:132-140 | a length is declared exactly when some header is named Content-Length in any case, and it fits in a `usize` |
| Router.DeclaredLengthValue | src/lib.rs:137-140 | a declared length is the value of the last header named Content-Length, read as 0 when it does not parse as a `usize` |
| Router.HeaderMap | src/lib.rs:131-141 | the `headers` map, a later header replacing an earlier one of the same name; its contracts are `Router.HeaderMapEntries` and `Router.HeaderMapValue` |
| Router.HeaderMapEntries | src/lib.rs:131-141 | the header map has at most one entry per header line, and the last line's value is kept under its name |
| Router.HeaderMapValue | src/lib.rs:137-140 | every name in the header map is that of some header line, and the value kept under it is that of the last line with that name |
| Router.HeadersWellFormedAll | src/lib.rs:133-146 | the header block is accepted exactly when each of its lines splits at ": " |
| Router.ScanHeaders | src/lib.rs:131-147 | the header loop succeeds exactly when every line before the first empty line has the `key: value` shape; it then yields the header map (later headers replace earlier ones), the last Content-Length (an unparsable one read as 0) and the first body line |
| Router.BlankLineReached | src/lib.rs:133-136 | a scan that stops at an empty line or the end has found the first empty line |
| Router.MalformedHeader | src/lib.rs:141-145 | one line without ": " before the first empty line spoils the header block |
| Router.HeaderStep | src/lib.rs:137-140 | one more well-formed header extends the map and, if its name is Content-Length in any case, sets the length |
| Router.ReadRequest | src/lib.rs:113-150 | the parsing steps answer "Invalid request." exactly for the empty text, and refuse only with the four parsing messages (or panic on the cut) |
| Router.ReadMessage | src/lib.rs:131-150 | after the request line, a request is refused only for a bad header (400 "Invalid header format.") or aborts on a bad cut; otherwise it keeps its method and path |
| Router.Route | src/lib.rs:112-260 | the decision for a request text: parse, then route; a panic comes only from cutting the body, never from routing |
| Router.Execute | src/lib.rs:152-256 | carries out the routed action on the store: a refusal replies with its status and message and changes nothing; a panic replies nothing; an operation does what `Performs` says; keeps every record under its own id |
| Router.ProcessRequest | src/lib.rs:112-260 | on a store that keeps every record under its own id, answers and changes the store exactly as the parse-then-route decision `Route` prescribes, and keeps that invariant |
| Router.PerformsKeepsIds | src/lib.rs:281-326 | no store operation moves a record away from the key of its id |
| Wire.TokenHasNoLineFeed | src/lib.rs:115 | a request-line token never contains a line feed |
| Wire.NoColonNoSeparator | src/lib.rs:137 | a header name without a colon holds no ": " |
| Wire.OneLine | src/lib.rs:113 | a nonempty text without line feeds is one line |
| Wire.LinesThen | src/lib.rs:113 | CRLF-terminated lines come back ahead of the lines of what follows |
| Wire.HeadHasNoLineFeed | src/lib.rs:113 | no line of a well-formed request head contains a line feed |
| Wire.RequestLines | src/lib.rs:113 | a well-formed request text reads as its head lines, one empty line, then the lines of the body |
| Wire.ReadBody | src/lib.rs:149 | the body as the parser rebuilds it: the body's lines joined with line feeds; `Wire.ReadBodyOneLine`, `Wire.ReadBodyCrlf` and `Wire.ReadBodyFinalLineFeed` state what that does |
| Wire.ReadBodyOneLine | src/lib.rs:149 | a body without line feeds is rebuilt unchanged |
| Wire.ReadBodyCrlf | src/lib.rs:113-149 | a CRLF inside the body comes out as a bare line feed |
| Wire.ReadBodyFinalLineFeed | src/lib.rs:113-149 | a final line feed is dropped from the body |
| Wire.ReadsRequest | src/lib.rs:113-150 | a well-formed request with any headers and any body is read as its method, its path and its rebuilt body cut to the declared number of bytes; it aborts when that cut panics |
| Wire.MessageLines | src/lib.rs:113-146 | a request with any well-formed headers reads as its head lines, one empty line and the body's lines; its header block ends at that empty line, is accepted, and each line splits into its header |
| Wire.ReadsMessage | src/lib.rs:113-150 | a request with any well-formed headers is read as its method, its path and its rebuilt body cut to the length its header lines declare, 0 when they declare none; it aborts when that cut panics |
| Wire.RequestLineParts | src/lib.rs:115 | a request line written from three tokens splits back into them |
| Wire.UndeclaredByHeaders | src/lib.rs:137-140 | header lines none of which is named Content-Length declare no length |
| Wire.DeclaredByHeaders | src/lib.rs:137-140 | header lines declare the value of their last Content-Length header, whatever headers follow it, 0 when it does not parse |
| Wire.NoLengthHeader | src/lib.rs:137-150 | a request with no Content-Length header is read with the empty body, whatever body follows |
| Wire.LastLengthHeader | src/lib.rs:137-150 | the last Content-Length header, whatever headers follow it, sets the number of bytes of the rebuilt body that is kept, and a cut that panics aborts; a value that does not parse counts as 0 and gives the empty body |
| Wire.HeaderBlock | src/lib.rs:131-147 | the headers and Content-Length line of a well-formed request form an accepted header block that declares exactly that length |
| Wire.LengthHeader | src/lib.rs:138-140 | a last header `Content-Length: n` declares length n |
| Wire.WholeBody | src/lib.rs:150 | a body of at most (2^64 - 1) / 4 characters has a byte length that fits in a `usize`, and cut at that length it stays whole |
| Wire.AsciiBodyLength | src/lib.rs:149-150 | an ASCII body without line feeds is cut to the declared number of characters, and a longer declared length panics |
| Wire.DispatchRefusals | src/lib.rs:152-257 | routing refuses only with 400, 404 or 405 and one of the routing messages |
| Wire.ParsingRefusal | src/lib.rs:113-147 | a refusal with a parsing message comes from the parsing steps and never from routing |
| Wire.EmptyRequest | src/lib.rs:259 | "Invalid request." is the answer exactly to the empty text |
| Wire.RequestLineRules | src/lib.rs:115-129 | a request line is refused with 400 "Invalid request line." exactly when it does not have three parts, and with 505 exactly when it has three and the version is not HTTP/1.0, HTTP/1.1 or HTTP/2.0 |
| Wire.RequestLineChecks | src/lib.rs:115-129 | the same two rules at the parsing step, on the first line of any nonempty text |
| Wire.HeaderRule | src/lib.rs:141-145 | after a good request line, a header block with a line lacking ": " is answered 400 "Invalid header format." |
| Wire.ReadHeaderBlock | src/lib.rs:141-145 | the same rule at the parsing step |
| Wire.HeaderBlockLines | src/lib.rs:133-146 | a written header block reads back as its lines, ends at its empty line, and is accepted exactly when each line contains ": " |
| Wire.HeaderBlockSplits | src/lib.rs:113 | a written head and body read back as the head lines, one empty line and the body's lines |
| Wire.HeaderBlockShape | src/lib.rs:133-146 | nonempty header lines followed by an empty one end the scan there, and are accepted exactly when each contains ": " |
| Endpoints.RecordPathId | src/lib.rs:156-158 | the id in `/todos/<id>` is read back exactly, while it fits in a `usize` |
| Endpoints.PathIdSpellings | src/lib.rs:158 | `/todos/+7` and `/todos/007` name record 7; `/todos/`, `/todos/-7` and `/todos/7a` name none |
| Endpoints.MethodNotAllowed | src/lib.rs:252-256 | 405 "Method is not allowed." exactly for methods other than GET, POST, PUT and DELETE |
| Endpoints.EndpointNotFound | src/lib.rs:153-251 | 404 "Endpoint not found." exactly for a known method on a path it does not serve |
| Endpoints.InvalidId | src/lib.rs:156-246 | GET, PUT and DELETE on `/todos/<x>` answer 400 "Invalid ID." exactly when `x` is not a `usize` |
| Endpoints.BadRequestsOnly | src/lib.rs:170-231 | the body checks of POST and PUT refuse only with 400 and their own messages |
| Endpoints.ReadAndDeleteRoutes | src/lib.rs:153-241 | list, get and delete are reached exactly from GET `/todos`, GET `/todos/<id>` and DELETE `/todos/<id>` |
| Endpoints.CreateRoute | src/lib.rs:170-192 | POST `/todos` creates exactly when the body parses, has a string title and that title is not blank; otherwise 400 with "Invalid JSON format.", "Title is required." or "Title cannot be empty.", checked in that order |
| Endpoints.UpdateRoute | src/lib.rs:198-226 | PUT `/todos/<id>` updates with the supplied fields exactly when the body decodes, a supplied title is not blank and `completed` is supplied; otherwise 400: the deserialization message, else "Title cannot be empty." for a blank title, checked before the bool-type message for a missing `completed` |
| Endpoints.UpdateAlwaysSetsCompleted | src/lib.rs:210-219 | every update that reaches the store sets `completed`, so no PUT changes the title alone |
| Endpoints.UpdateWithoutCompleted | src/lib.rs:210-213 | a PUT object without `completed` (or with null) is refused with the bool-type message once its title passes |
| Endpoints.UpdateCompletedWrongType | src/lib.rs:202-224 | a `completed` of another type is refused with "JSON deserialization error occurred." |
| Scenarios.RecordPathToken | src/lib.rs:157 | a record path is one request-line token |
| Scenarios.RoutesRead | src/lib.rs:152 | a request that passes the parsing steps is routed by its method, path and body |
| Scenarios.ReadsWithBody | src/lib.rs:113-150 | a well-formed request whose body has no line feeds and declares its byte length is read with the whole body |
| Scenarios.FinalLineFeedPanics | src/lib.rs:149-150 | a well-formed request whose body ends in a line feed and declares its full byte length panics, since the rebuilt body is one byte shorter |
| Scenarios.ReadsBodiless | src/lib.rs:113-150 | a well-formed request declaring length 0 is read with the empty body |
| Scenarios.CreateRequest | src/lib.rs:170-180 | POST `/todos` whose body parses to an object with a nonblank string `title`, whatever its other members, answers 201 with an uncompleted record numbered size+1 and stores it |
| Scenarios.ListRequest | src/lib.rs:154-155 | GET `/todos` answers 200 with one item per record, exactly the stored records, and changes nothing |
| Scenarios.GetRequest | src/lib.rs:156-159 | GET `/todos/<id>` answers the record or 404 and changes nothing |
| Scenarios.DeleteMissingRequest | src/lib.rs:237-241 | DELETE of an absent id answers 404 "Todo not found." and changes nothing |
| Scenarios.TitleOnlyUpdateRequest | src/lib.rs:198-213 | a PUT carrying only a title never changes the store: a blank title is refused with "Title cannot be empty.", a nonblank one for the missing `completed` |
| Scenarios.CreateOverTheWire | src/lib.rs:112-180 | a well-formed POST `/todos` text whose body has no line feeds and parses to an object with a nonblank string `title`, handled by `process_request`, answers 201 with record size+1 and stores it |
| Scenarios.ReadsRecordGet | src/lib.rs:113-150 | a bodiless GET of a record's path is read as that request |
| Scenarios.GetOverTheWire | src/lib.rs:112-159 | a bodiless GET `/todos/<id>` text, handled by `process_request`, answers the record or 404 and changes nothing |

## Left out

- The thread pool and its workers (`ThreadPool`, `Worker`, the job channel) are not part of this model. Each request is one atomic step on the store; the mutex is not modelled and neither is lock poisoning. A worker's loop (src/lib.rs:66-74) does not catch a panic, so each panicking request ends one of the four workers (src/main.rs:9) for good. Once all four are gone the receiver is dropped, and the next `send(job).unwrap()` (src/lib.rs:55) panics in `main`. Four requests that declare too long a body are enough for this.
- `log_error` is not modelled: it appends a timestamped line to a file. It is assumed never to fail. When error.log cannot be opened or written, its `expect` calls (src/lib.rs:107, 109) panic. `get_todo`, `update_todo` and `delete_todo` call it on their 404 paths while they hold the store's lock (src/lib.rs:270-277, 300-313, 318-324), so such a panic would poison the lock, and every later `db.lock().unwrap()` would panic.
- `handle_connection` is not modelled: it reads at most 1024 bytes, decodes them lossily as UTF-8, and writes the response with its `Date` header. The model starts from the decoded request text and ends at the `(status, body)` pair.
- `main.rs` is not modelled.
- The text-to-JSON parser of serde_json is a function parameter `parse`. JSON numbers are integers, and an object is a map, so duplicate keys (which serde's typed decoding rejects) cannot be expressed.
- Json.DecodeUpdate: decodes the document `parse` yields, so POST (`from_str::<Value>`, src/lib.rs:172) and PUT (`from_str::<UpdateTodoRequest>`, src/lib.rs:202) read the body through the same parser. serde_json's typed decoding skips unknown members after checking only their syntax, so a PUT body can decode where `Value` parsing fails, for example `{"completed":true,"n":1e400}`, whose number is out of range. The model does not capture that difference.
- Serializing replies to JSON is not modelled: a reply carries the record, the records or the message as data (`Body`).
- The store is keyed by the id rather than by its decimal text. `Text.ParseDecimal` shows the two determine each other.
- `usize` is taken as 64 bits wide.
- TodoStore.Store.Create: does not model the overflow of `len() + 1`, because a store of 2^64 - 1 records cannot exist in memory.
- Text.Lines: follows `str::lines` of current Rust, which keeps a bare carriage return at the end of the last line; older toolchains strip it.
- Text.EqIgnoreAsciiCase: compares characters rather than bytes. This agrees with Rust whenever one side is ASCII, as `Content-Length` is.
- A panic (a body cut past the end or inside a character) is the outcome `Panicked`, the only failure the model gives `process_request`. Its effect on the connection is not modelled: the worker thread unwinds and no reply is sent.
- Router.ProcessRequest: the header map it builds is unused by the source and does not appear in the contract. Its contents are stated by `Router.ScanHeaders`.
