/**
 * `process_request`: one raw request text in, one `(status, body)` out, with
 * the store changed by at most one operation. The decision of what to do is
 * a pure function of the text (`Route`, built on `Dispatch`); the method
 * `ProcessRequest` parses the text step by step, scanning the header lines
 * in a loop, and then carries the decision out on the shared store.
 */
module Router {
  import opened Wrappers
  import opened Text
  import opened Json
  import opened TodoStore

  // ---------------------------------------------------------------- validators

  /** `Result<(), &str>` of the two validators. */
  datatype Validation = Accepted | Rejected(message: string)

  const TITLE_EMPTY := "Title cannot be empty."
  const COMPLETED_NOT_BOOL := "The 'completed' field must be of type bool."

  /** `validate_todo_title`: a title is refused exactly when it is all whitespace. */
  function ValidateTitle(title: string): (r: Validation)
    ensures r.Rejected? <==> Blank(title)
    ensures r.Rejected? ==> r.message == TITLE_EMPTY
  {
    if Trim(title) == [] then Rejected(TITLE_EMPTY) else Accepted
  }

  /** `validate_todo_completed`: the `completed` field must have been supplied. */
  function ValidateCompleted(completed: Option<bool>): (r: Validation)
    ensures r.Accepted? <==> completed.Some?
    ensures r.Rejected? ==> r.message == COMPLETED_NOT_BOOL
  {
    if completed.Some? then Accepted else Rejected(COMPLETED_NOT_BOOL)
  }

  // ---------------------------------------------------------------- routing

  const INVALID_REQUEST := "Invalid request."
  const INVALID_REQUEST_LINE := "Invalid request line."
  const VERSION_UNSUPPORTED := "HTTP version is not supported."
  const INVALID_HEADER := "Invalid header format."
  const INVALID_ID := "Invalid ID."
  const ENDPOINT_NOT_FOUND := "Endpoint not found."
  const INVALID_JSON := "Invalid JSON format."
  const TITLE_REQUIRED := "Title is required."
  const DESERIALIZATION_ERROR := "JSON deserialization error occurred."
  const METHOD_NOT_ALLOWED_MESSAGE := "Method is not allowed."

  const TODOS := "/todos"
  const TODO_PREFIX := "/todos/"

  /** What the router decides to do with a request. */
  datatype Action =
    | Refuse(status: string, message: string)  // answer with an error and leave the store alone
    | Run(op: Op)                              // carry out one store operation
    | Abort                                    // the handling thread panics

  predicate SupportedVersion(version: string) {
    version == "HTTP/1.1" || version == "HTTP/1.0" || version == "HTTP/2.0"
  }

  /**
   * `path.strip_prefix("/todos/")` followed by `parse::<usize>()`: an id is
   * found only in a nonempty segment, and it fits in a `usize`.
   */
  function PathId(path: string): (r: Option<nat>)
    requires TODO_PREFIX <= path
    ensures r.Some? ==> |path| > |TODO_PREFIX| && r.value <= USIZE_MAX
  {
    ParseUsize(path[|TODO_PREFIX|..])
  }

  /**
   * The `POST /todos` arm: parse the body, require a string title, validate
   * it. It refuses only with 400, and never creates a record with a blank title.
   */
  function CreateAction(body: string, parse: string -> Option<JVal>): (r: Action)
    ensures !r.Abort?
    ensures r.Refuse? ==> r.status == BAD_REQUEST
    ensures r.Run? ==> r.op.CreateTodo? && !Blank(r.op.title)
  {
    match parse(body)
    case None => Refuse(BAD_REQUEST, INVALID_JSON)
    case Some(json) =>
      match TitleField(json)
      case None => Refuse(BAD_REQUEST, TITLE_REQUIRED)
      case Some(title) =>
        match ValidateTitle(title)
        case Rejected(e) => Refuse(BAD_REQUEST, e)
        case Accepted => Run(CreateTodo(title))
  }

  /**
   * `serde_json::from_str::<UpdateTodoRequest>`: parse the body, then decode
   * it; only a text that parses to an object or an array can decode.
   */
  function UpdateRequestOf(body: string, parse: string -> Option<JVal>): (r: Option<UpdateRequest>)
    ensures r.Some? ==> parse(body).Some? && (parse(body).value.JObj? || parse(body).value.JArr?)
  {
    match parse(body)
    case None => None
    case Some(json) => DecodeUpdate(json)
  }

  /**
   * The `PUT /todos/{id}` arm: deserialize the body, validate title then
   * completed. It refuses only with 400; an update it lets through targets
   * `id`, always sets `completed` and never sets a blank title.
   */
  function UpdateAction(id: nat, body: string, parse: string -> Option<JVal>): (r: Action)
    ensures !r.Abort?
    ensures r.Refuse? ==> r.status == BAD_REQUEST
    ensures r.Run? ==> && r.op.UpdateTodo? && r.op.id == id && r.op.newCompleted.Some?
                       && (r.op.newTitle.Some? ==> !Blank(r.op.newTitle.value))
  {
    match UpdateRequestOf(body, parse)
    case None => Refuse(BAD_REQUEST, DESERIALIZATION_ERROR)
    case Some(UpdateRequest(title, completed)) =>
      if title.Some? && ValidateTitle(title.value).Rejected? then
        Refuse(BAD_REQUEST, ValidateTitle(title.value).message)
      else if ValidateCompleted(completed).Rejected? then
        Refuse(BAD_REQUEST, ValidateCompleted(completed).message)
      else Run(UpdateTodo(id, title, completed))
  }

  /** The `match method` of `process_request`: method and path to an action. */
  function Dispatch(verb: string, path: string, body: string, parse: string -> Option<JVal>): (r: Action)
    ensures !r.Abort?
  {
    if verb == "GET" then
      if path == TODOS then Run(ListTodos)
      else if TODO_PREFIX <= path then
        match PathId(path)
        case Some(id) => Run(GetTodo(id))
        case None => Refuse(BAD_REQUEST, INVALID_ID)
      else Refuse(NOT_FOUND, ENDPOINT_NOT_FOUND)
    else if verb == "POST" then
      if path == TODOS then CreateAction(body, parse) else Refuse(NOT_FOUND, ENDPOINT_NOT_FOUND)
    else if verb == "PUT" then
      if TODO_PREFIX <= path then
        match PathId(path)
        case Some(id) => UpdateAction(id, body, parse)
        case None => Refuse(BAD_REQUEST, INVALID_ID)
      else Refuse(NOT_FOUND, ENDPOINT_NOT_FOUND)
    else if verb == "DELETE" then
      if TODO_PREFIX <= path then
        match PathId(path)
        case Some(id) => Run(DeleteTodo(id))
        case None => Refuse(BAD_REQUEST, INVALID_ID)
      else Refuse(NOT_FOUND, ENDPOINT_NOT_FOUND)
    else Refuse(METHOD_NOT_ALLOWED, METHOD_NOT_ALLOWED_MESSAGE)
  }

  // ---------------------------------------------------------------- header block

  /** The index of the first empty line at or after `lo`, or `|ls|` if there is none. */
  function BlankLine(ls: seq<string>, lo: nat): (k: nat)
    requires lo <= |ls|
    ensures lo <= k <= |ls|
    ensures k < |ls| ==> ls[k] == []
    ensures forall i :: lo <= i < k ==> ls[i] != []
    decreases |ls| - lo
  {
    if lo == |ls| || ls[lo] == [] then lo else BlankLine(ls, lo + 1)
  }

  /** Every line in `ls[lo..hi]` has the shape `key: value` (HeadersWellFormedAll). */
  predicate HeadersWellFormed(ls: seq<string>, lo: nat, hi: nat)
    requires lo <= hi <= |ls|
    decreases hi
  {
    hi == lo || (HeadersWellFormed(ls, lo, hi - 1) && SplitOnce(ls[hi - 1], ": ").Some?)
  }

  /** The header block is well formed exactly when each of its lines splits at ": ". */
  lemma {:induction false} HeadersWellFormedAll(ls: seq<string>, lo: nat, hi: nat)
    requires lo <= hi <= |ls|
    ensures HeadersWellFormed(ls, lo, hi) <==> forall i :: lo <= i < hi ==> SplitOnce(ls[i], ": ").Some?
    decreases hi
  {
    if hi > lo {
      HeadersWellFormedAll(ls, lo, hi - 1);
    }
  }

  /** A header name that sets the body length. */
  predicate IsContentLength(key: string) {
    EqIgnoreAsciiCase(key, "Content-Length")
  }

  /**
   * The body length the headers `ls[lo..hi]` declare: the value of the last
   * `Content-Length` header (its name in any case), read as 0 when it does
   * not parse; None without such a header.
   */
  function DeclaredLength(ls: seq<string>, lo: nat, hi: nat): Option<nat>
    requires lo <= hi <= |ls| && HeadersWellFormed(ls, lo, hi)
    decreases hi
  {
    if hi == lo then None
    else
      var header := SplitOnce(ls[hi - 1], ": ").value;
      if IsContentLength(header.0) then Some(ParseUsize(header.1).GetOr(0))
      else DeclaredLength(ls, lo, hi - 1)
  }

  /** Line `i` is a header named Content-Length (in any case). */
  predicate ContentLengthAt(ls: seq<string>, i: nat)
    requires i < |ls|
  {
    SplitOnce(ls[i], ": ").Some? && IsContentLength(SplitOnce(ls[i], ": ").value.0)
  }

  /**
   * A length is declared exactly when some header is named Content-Length
   * (in any case), and it always fits in a `usize`.
   */
  lemma {:induction false} DeclaredLengthSpec(ls: seq<string>, lo: nat, hi: nat)
    requires lo <= hi <= |ls| && HeadersWellFormed(ls, lo, hi)
    ensures var d := DeclaredLength(ls, lo, hi);
      && (d.Some? ==> d.value <= USIZE_MAX)
      && (d.Some? <==> exists i :: lo <= i < hi && ContentLengthAt(ls, i))
    decreases hi
  {
    if hi > lo {
      DeclaredLengthSpec(ls, lo, hi - 1);
      if ContentLengthAt(ls, hi - 1) {
        assert lo <= hi - 1 < hi && ContentLengthAt(ls, hi - 1);
      }
    }
  }

  /**
   * A declared length is the value of the last Content-Length header of the
   * block, read as 0 when it does not parse as a `usize`.
   */
  lemma {:induction false} DeclaredLengthValue(ls: seq<string>, lo: nat, hi: nat) returns (i: nat)
    requires lo <= hi <= |ls| && HeadersWellFormed(ls, lo, hi) && DeclaredLength(ls, lo, hi).Some?
    ensures lo <= i < hi && ContentLengthAt(ls, i)
    ensures forall j :: i < j < hi ==> !ContentLengthAt(ls, j)
    ensures DeclaredLength(ls, lo, hi) == Some(ParseUsize(SplitOnce(ls[i], ": ").value.1).GetOr(0))
    decreases hi
  {
    var header := SplitOnce(ls[hi - 1], ": ").value;
    if IsContentLength(header.0) {
      i := hi - 1;
    } else {
      assert DeclaredLength(ls, lo, hi) == DeclaredLength(ls, lo, hi - 1);
      i := DeclaredLengthValue(ls, lo, hi - 1);
      forall j | i < j < hi ensures !ContentLengthAt(ls, j) {
        if j == hi - 1 {
          assert SplitOnce(ls[j], ": ").value == header;
        }
      }
    }
  }

  /** The header map built from `ls[lo..hi]`, a later header replacing an earlier one (HeaderMapValue). */
  function HeaderMap(ls: seq<string>, lo: nat, hi: nat): map<string, string>
    requires lo <= hi <= |ls| && HeadersWellFormed(ls, lo, hi)
    decreases hi
  {
    if hi == lo then map[]
    else
      var header := SplitOnce(ls[hi - 1], ": ").value;
      HeaderMap(ls, lo, hi - 1)[header.0 := header.1]
  }

  /**
   * The header map has at most one entry per header line, and the last
   * line's value is the one kept under its name.
   */
  lemma {:induction false} HeaderMapEntries(ls: seq<string>, lo: nat, hi: nat)
    requires lo <= hi <= |ls| && HeadersWellFormed(ls, lo, hi)
    ensures |HeaderMap(ls, lo, hi)| <= hi - lo
    ensures hi > lo ==> var header := SplitOnce(ls[hi - 1], ": ").value;
      header.0 in HeaderMap(ls, lo, hi) && HeaderMap(ls, lo, hi)[header.0] == header.1
    decreases hi
  {
    if hi > lo {
      HeaderMapEntries(ls, lo, hi - 1);
    }
  }

  /**
   * Every name in the header map is that of a header line, and the value
   * kept under it is that of the last line with the name.
   */
  lemma {:induction false} HeaderMapValue(ls: seq<string>, lo: nat, hi: nat, name: string) returns (i: nat)
    requires lo <= hi <= |ls| && HeadersWellFormed(ls, lo, hi) && name in HeaderMap(ls, lo, hi)
    ensures lo <= i < hi && SplitOnce(ls[i], ": ").Some? && SplitOnce(ls[i], ": ").value.0 == name
    ensures HeaderMap(ls, lo, hi)[name] == SplitOnce(ls[i], ": ").value.1
    ensures forall j :: i < j < hi && SplitOnce(ls[j], ": ").Some? ==> SplitOnce(ls[j], ": ").value.0 != name
    decreases hi
  {
    if SplitOnce(ls[hi - 1], ": ").value.0 == name {
      i := hi - 1;
    } else {
      i := HeaderMapValue(ls, lo, hi - 1, name);
    }
  }

  /**
   * The header loop of `process_request`: reads `key: value` lines from
   * `start` up to the first empty line (which it consumes), recording each
   * header and the declared body length; a line of another shape stops it
   * with `ok == false`. `next` is the index of the first body line.
   */
  method ScanHeaders(ls: seq<string>, start: nat)
    returns (ok: bool, headers: map<string, string>, contentLength: Option<nat>, next: nat)
    requires start <= |ls|
    ensures var end := BlankLine(ls, start);
      && ok == HeadersWellFormed(ls, start, end)
      && (ok ==> headers == HeaderMap(ls, start, end)
                 && contentLength == DeclaredLength(ls, start, end)
                 && next == if end < |ls| then end + 1 else end)
  {
    var i := start;
    headers, contentLength := map[], None;
    while i < |ls| && ls[i] != []
      invariant start <= i <= BlankLine(ls, start)
      invariant HeadersWellFormed(ls, start, i)
      invariant headers == HeaderMap(ls, start, i)
      invariant contentLength == DeclaredLength(ls, start, i)
      decreases |ls| - i
    {
      var split := SplitOnce(ls[i], ": ");
      if split.None? {
        MalformedHeader(ls, start, i);
        return false, headers, contentLength, i;
      }
      var key, value := split.value.0, split.value.1;
      HeaderStep(ls, start, i);
      if IsContentLength(key) {
        contentLength := Some(ParseUsize(value).GetOr(0));
      }
      headers := headers[key := value];
      i := i + 1;
    }
    BlankLineReached(ls, start, i);
    ok := true;
    next := if i < |ls| then i + 1 else i;
  }

  /** A scan that stops at the end or at an empty line has found the first empty line. */
  lemma BlankLineReached(ls: seq<string>, lo: nat, i: nat)
    requires lo <= |ls| && lo <= i <= BlankLine(ls, lo)
    requires i == |ls| || ls[i] == []
    ensures i == BlankLine(ls, lo)
  {
  }

  /** One line of another shape before the first empty line spoils the header block. */
  lemma MalformedHeader(ls: seq<string>, lo: nat, i: nat)
    requires lo <= |ls| && lo <= i <= BlankLine(ls, lo) && i < |ls| && ls[i] != []
    requires SplitOnce(ls[i], ": ").None?
    ensures !HeadersWellFormed(ls, lo, BlankLine(ls, lo))
  {
    HeadersWellFormedAll(ls, lo, BlankLine(ls, lo));
  }

  /** One more well-formed header line extends the header map and may set the length. */
  lemma HeaderStep(ls: seq<string>, lo: nat, i: nat)
    requires lo <= i < |ls| && HeadersWellFormed(ls, lo, i) && SplitOnce(ls[i], ": ").Some?
    ensures HeadersWellFormed(ls, lo, i + 1)
    ensures var header := SplitOnce(ls[i], ": ").value;
      && HeaderMap(ls, lo, i + 1) == HeaderMap(ls, lo, i)[header.0 := header.1]
      && DeclaredLength(ls, lo, i + 1)
         == if IsContentLength(header.0) then Some(ParseUsize(header.1).GetOr(0)) else DeclaredLength(ls, lo, i)
  {
  }

  // ---------------------------------------------------------------- the whole request

  /** A request that got past the parsing steps: its method, path and (cut) body. */
  datatype Request = Request(verb: string, path: string, body: string)

  /**
   * The parsing steps of `process_request`: the request line must have three
   * whitespace-separated parts and a supported version; the header and body
   * steps follow (`ReadMessage`). Err carries the answer to a request that
   * fails one of them.
   */
  function ReadRequest(text: string): (r: Result<Request, Action>)
    ensures r == Err(Refuse(BAD_REQUEST, INVALID_REQUEST)) <==> text == []
    ensures r.Err? && r.error.Refuse? ==>
      r.error.message in {INVALID_REQUEST, INVALID_REQUEST_LINE, VERSION_UNSUPPORTED, INVALID_HEADER}
  {
    var lines := Lines(text);
    if lines == [] then Err(Refuse(BAD_REQUEST, INVALID_REQUEST))
    else
      var parts := SplitWhitespace(lines[0]);
      if |parts| != 3 then Err(Refuse(BAD_REQUEST, INVALID_REQUEST_LINE))
      else if !SupportedVersion(parts[2]) then Err(Refuse(VERSION_NOT_SUPPORTED, VERSION_UNSUPPORTED))
      else ReadMessage(lines, parts[0], parts[1])
  }

  /**
   * The header and body steps: the lines after the request line, up to the
   * first empty line, must have the shape `key: value`; the body (the lines
   * after that empty line joined with line feeds) is cut to the declared
   * length, and a cut past the end or inside a character panics.
   */
  function ReadMessage(lines: seq<string>, verb: string, path: string): (r: Result<Request, Action>)
    requires lines != []
    ensures r.Err? ==> r.error == Refuse(BAD_REQUEST, INVALID_HEADER) || r.error == Abort
    ensures r.Ok? ==> r.value.verb == verb && r.value.path == path
  {
    var end := BlankLine(lines, 1);
    if !HeadersWellFormed(lines, 1, end) then Err(Refuse(BAD_REQUEST, INVALID_HEADER))
    else
      var first := if end < |lines| then end + 1 else end;
      match SliceBytes(Join(lines[first..], "\n"), DeclaredLength(lines, 1, end).GetOr(0))
      case None => Err(Abort)
      case Some(body) => Ok(Request(verb, path, body))
  }

  /**
   * What `process_request` decides for `request`: parse it, then route it. A
   * panic can only come from cutting the body, never from routing.
   */
  function Route(request: string, parse: string -> Option<JVal>): (r: Action)
    ensures r.Abort? ==> ReadRequest(request) == Err(Abort)
  {
    match ReadRequest(request)
    case Err(action) => action
    case Ok(Request(verb, path, body)) => Dispatch(verb, path, body, parse)
  }

  /** Carrying out action `a` on store `db` replies `out` and leaves the store `db'`. */
  ghost predicate Serves(db: Db, a: Action, out: Outcome, db': Db) {
    match a
    case Refuse(status, message) => out == Reply(status, Message(message)) && db' == db
    case Abort => out == Panicked && db' == db
    case Run(op) => Performs(db, op, out, db')
  }

  /** The store calls of `process_request`'s match arms. */
  method Execute(store: Store, a: Action) returns (out: Outcome)
    requires store.Valid()
    modifies store
    ensures Serves(old(store.db), a, out, store.db)
    ensures store.Valid()
  {
    match a
    case Refuse(status, message) =>
      out := Reply(status, Message(message));
    case Abort =>
      out := Panicked;
    case Run(op) =>
      match op
      case ListTodos => out := store.List();
      case GetTodo(id) => out := store.Get(id);
      case CreateTodo(title) => out := store.Create(title);
      case UpdateTodo(id, title, completed) => out := store.Update(id, title, completed);
      case DeleteTodo(id) => out := store.Delete(id);
  }

  /**
   * `process_request`: answers `request` as `Route` decides and changes the
   * store only through the one operation it runs, which keeps every record
   * under its own id. `parse` is the JSON library's parser.
   */
  method ProcessRequest(request: string, store: Store, parse: string -> Option<JVal>) returns (out: Outcome)
    requires store.Valid()
    modifies store
    ensures Serves(old(store.db), Route(request, parse), out, store.db)
    ensures store.Valid()
  {
    var lines := Lines(request);
    if lines == [] {
      return Reply(BAD_REQUEST, Message(INVALID_REQUEST));
    }
    var parts := SplitWhitespace(lines[0]);
    if |parts| != 3 {
      return Reply(BAD_REQUEST, Message(INVALID_REQUEST_LINE));
    }
    var verb, path, version := parts[0], parts[1], parts[2];
    if !SupportedVersion(version) {
      return Reply(VERSION_NOT_SUPPORTED, Message(VERSION_UNSUPPORTED));
    }
    var ok, headers, contentLength, next := ScanHeaders(lines, 1);
    if !ok {
      return Reply(BAD_REQUEST, Message(INVALID_HEADER));
    }
    var body := SliceBytes(Join(lines[next..], "\n"), contentLength.GetOr(0));
    if body.None? {
      return Panicked;
    }
    var action := Dispatch(verb, path, body.value, parse);
    assert Route(request, parse) == action;
    out := Execute(store, action);
  }

  /** No action moves a record away from the key of its id. */
  lemma PerformsKeepsIds(db: Db, a: Action, out: Outcome, db': Db)
    requires Serves(db, a, out, db') && IdsMatchKeys(db)
    ensures IdsMatchKeys(db')
  {
  }
}
