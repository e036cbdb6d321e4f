/**
 * Whole requests: what the store does for each route (`Router.Serves` of
 * `Router.Dispatch`), how a client-written request text is read
 * (`ReadsWithBody`, `ReadsBodiless`, `RoutesRead`), and the two put together
 * for one request, from the text on the wire to the reply and the store
 * after it (`CreateOverTheWire`; `Router.ProcessRequest` establishes `Serves`).
 */
module Scenarios {
  import opened Wrappers
  import opened Text
  import opened Json
  import opened TodoStore
  import opened Router
  import opened Wire
  import opened Endpoints

  /** A record path is one token of the request line. */
  lemma RecordPathToken(id: nat)
    ensures IsToken(RecordPath(id))
  {
    var p := RecordPath(id);
    var d := Decimal(id);
    forall i | 0 <= i < |p| ensures !IsWhitespace(p[i]) {
      if i >= |TODO_PREFIX| {
        assert p[i] == d[i - |TODO_PREFIX|];
        assert IsDigit(d[i - |TODO_PREFIX|]);
      }
    }
  }

  /** A request that reads well is dispatched on its method, path and body. */
  lemma RoutesRead(text: string, request: Request, parse: string -> Option<JVal>)
    requires ReadRequest(text) == Ok(request)
    ensures Route(text, parse) == Dispatch(request.verb, request.path, request.body, parse)
  {
  }

  /** A request carrying `body`, its length declared, with no other headers. */
  function WithBody(verb: string, path: string, version: string, body: string): string {
    RequestText(verb, path, version, [], ByteLen(body), body)
  }

  /** A bodiless request, with no headers but its `Content-Length: 0`. */
  function Bodiless(verb: string, path: string, version: string): string {
    RequestText(verb, path, version, [], 0, "")
  }

  /** A well-formed request with a body is read as its method, its path and its whole body. */
  lemma ReadsWithBody(verb: string, path: string, version: string, body: string)
    requires WellFormedHead(verb, path, version, [])
    requires '\n' !in body && 4 * |body| <= USIZE_MAX
    ensures ReadRequest(WithBody(verb, path, version, body)) == Ok(Request(verb, path, body))
  {
    WholeBody(body);
    ReadsRequest(verb, path, version, [], ByteLen(body), body);
    ReadBodyOneLine(body);
  }

  /**
   * A body ending in a line feed loses it when the parser rebuilds the body,
   * so declaring the body's own byte length cuts past the end: the handler panics.
   */
  lemma FinalLineFeedPanics(verb: string, path: string, version: string, body: string)
    requires WellFormedHead(verb, path, version, [])
    requires '\n' !in body && (body == [] || body[|body| - 1] != '\r') && 4 * (|body| + 1) <= USIZE_MAX
    ensures ReadRequest(WithBody(verb, path, version, body + "\n")) == Err(Abort)
  {
    var sent := body + "\n";
    WholeBody(sent);
    ReadsRequest(verb, path, version, [], ByteLen(sent), sent);
    ReadBodyFinalLineFeed(body);
    ByteLenPrefix(body, sent);
    assert sent[|body|..] == "\n";
    var cut := SliceBytes(body, ByteLen(sent));
    if cut.Some? {
      ByteLenPrefix(cut.value, body);
      assert false;
    }
  }

  /** A well-formed bodiless request is read as its method and path, with an empty body. */
  lemma ReadsBodiless(verb: string, path: string, version: string)
    requires WellFormedHead(verb, path, version, [])
    ensures ReadRequest(Bodiless(verb, path, version)) == Ok(Request(verb, path, ""))
  {
    ReadsRequest(verb, path, version, [], 0, "");
  }

  /**
   * POST /todos with a JSON object whose `title` member is a nonblank string,
   * whatever other members it has, creates the record under the next id and
   * answers 201 with it.
   */
  lemma CreateRequest(body: string, title: string, parse: string -> Option<JVal>,
                      db: Db, out: Outcome, db': Db)
    requires parse(body).Some? && TitleField(parse(body).value) == Some(title) && !Blank(title)
    requires Serves(db, Dispatch("POST", TODOS, body, parse), out, db')
    ensures out == Reply(CREATED, Record(Todo(|db| + 1, title, false)))
    ensures db' == db[|db| + 1 := Todo(|db| + 1, title, false)]
  {
    CreateRoute(body, parse);
    CreateServed(db, title, out, db');
  }

  /** Creating a record with `title` replies 201 with record |db|+1 and stores it there. */
  lemma CreateServed(db: Db, title: string, out: Outcome, db': Db)
    requires Serves(db, Run(CreateTodo(title)), out, db')
    ensures out == Reply(CREATED, Record(Todo(|db| + 1, title, false)))
    ensures db' == db[|db| + 1 := Todo(|db| + 1, title, false)]
  {
  }

  /** GET /todos answers 200 with every record and changes nothing. */
  lemma ListRequest(body: string, parse: string -> Option<JVal>, db: Db, out: Outcome, db': Db)
    requires Serves(db, Dispatch("GET", TODOS, body, parse), out, db')
    ensures db' == db && out.Reply? && out.status == OK && out.body.Records?
    ensures |out.body.todos| == |db| && forall t :: t in out.body.todos <==> t in db.Values
  {
    ListingSize(out.body.todos, db);
  }

  /** GET /todos/<id> answers the record, or 404 when there is none. */
  lemma GetRequest(id: nat, body: string, parse: string -> Option<JVal>, db: Db, out: Outcome, db': Db)
    requires id <= USIZE_MAX
    requires Serves(db, Dispatch("GET", RecordPath(id), body, parse), out, db')
    ensures db' == db
    ensures out == if id in db then Reply(OK, Record(db[id])) else Reply(NOT_FOUND, Message(TODO_NOT_FOUND))
  {
    RecordPathId(id);
  }

  /** DELETE /todos/<id> on an id that is not stored answers 404 and changes nothing. */
  lemma DeleteMissingRequest(id: nat, body: string, parse: string -> Option<JVal>, db: Db, out: Outcome, db': Db)
    requires id <= USIZE_MAX && id !in db
    requires Serves(db, Dispatch("DELETE", RecordPath(id), body, parse), out, db')
    ensures out == Reply(NOT_FOUND, Message(TODO_NOT_FOUND)) && db' == db
  {
    RecordPathId(id);
  }

  /** A PUT whose body sets only the title is refused, whatever the title: `completed` is required. */
  lemma TitleOnlyUpdateRequest(id: nat, body: string, title: string, parse: string -> Option<JVal>,
                               db: Db, out: Outcome, db': Db)
    requires id <= USIZE_MAX
    requires parse(body) == Some(JObj(map["title" := JStr(title)]))
    requires Serves(db, Dispatch("PUT", RecordPath(id), body, parse), out, db')
    ensures out.Reply? && out.status == BAD_REQUEST && db' == db
    ensures !Blank(title) ==> out == Reply(BAD_REQUEST, Message(COMPLETED_NOT_BOOL))
    ensures Blank(title) ==> out == Reply(BAD_REQUEST, Message(TITLE_EMPTY))
  {
    RecordPathId(id);
    UpdateRoute(RecordPath(id), id, body, parse);
    if !Blank(title) {
      UpdateWithoutCompleted(RecordPath(id), id, body, parse, map["title" := JStr(title)]);
    }
  }

  /**
   * End to end: a client's POST /todos whose one-line JSON body is an object
   * with a nonblank string `title`, written as `WithBody` writes it, creates
   * the record.
   */
  lemma CreateOverTheWire(version: string, body: string, title: string, parse: string -> Option<JVal>,
                          db: Db, out: Outcome, db': Db)
    requires WellFormedHead("POST", TODOS, version, [])
    requires '\n' !in body && 4 * |body| <= USIZE_MAX
    requires parse(body).Some? && TitleField(parse(body).value) == Some(title) && !Blank(title)
    requires Serves(db, Route(WithBody("POST", TODOS, version, body), parse), out, db')
    ensures out == Reply(CREATED, Record(Todo(|db| + 1, title, false)))
    ensures db' == db[|db| + 1 := Todo(|db| + 1, title, false)]
  {
    ReadsWithBody("POST", TODOS, version, body);
    RoutesRead(WithBody("POST", TODOS, version, body), Request("POST", TODOS, body), parse);
    CreateRequest(body, title, parse, db, out, db');
  }

  /** A bodiless GET of a record's path is read as that request. */
  lemma ReadsRecordGet(id: nat, version: string)
    requires IsToken(version) && SupportedVersion(version)
    ensures ReadRequest(Bodiless("GET", RecordPath(id), version)) == Ok(Request("GET", RecordPath(id), ""))
  {
    RecordPathToken(id);
    forall i | 0 <= i < |"GET"| ensures !IsWhitespace("GET"[i]) { }
    ReadsBodiless("GET", RecordPath(id), version);
  }

  /**
   * End to end: a client's bodiless GET of one record's path, written as
   * `Bodiless` writes it, answers that record or 404 and changes nothing.
   */
  lemma GetOverTheWire(id: nat, version: string, parse: string -> Option<JVal>, db: Db, out: Outcome, db': Db)
    requires id <= USIZE_MAX && IsToken(version) && SupportedVersion(version)
    requires Serves(db, Route(Bodiless("GET", RecordPath(id), version), parse), out, db')
    ensures db' == db
    ensures out == if id in db then Reply(OK, Record(db[id])) else Reply(NOT_FOUND, Message(TODO_NOT_FOUND))
  {
    ReadsRecordGet(id, version);
    RoutesRead(Bodiless("GET", RecordPath(id), version), Request("GET", RecordPath(id), ""), parse);
    GetRequest(id, "", parse, db, out, db');
  }
}
