/**
 * The routing table of `process_request` (`Router.Dispatch`): which method
 * and path reach which store operation, and which answer each refusal gets.
 */
module Endpoints {
  import opened Wrappers
  import opened Text
  import opened Json
  import opened TodoStore
  import opened Router

  /** The four methods the router serves. */
  predicate KnownMethod(verb: string) {
    verb == "GET" || verb == "POST" || verb == "PUT" || verb == "DELETE"
  }

  /** The path of one record: the prefix `/todos/` and the id's decimal digits. */
  function RecordPath(id: nat): string {
    TODO_PREFIX + Decimal(id)
  }

  // ---------------------------------------------------------------- ids in paths

  /** The id in a record path is read back exactly, as long as it fits in a `usize`. */
  lemma RecordPathId(id: nat)
    ensures TODO_PREFIX <= RecordPath(id)
    ensures PathId(RecordPath(id)) == if id <= USIZE_MAX then Some(id) else None
  {
    assert RecordPath(id)[|TODO_PREFIX|..] == Decimal(id);
    ParseDecimal(id);
  }

  /**
   * An id segment is read as `parse::<usize>` reads it: a leading `+` and
   * leading zeros are accepted, anything else that is not a digit is not.
   */
  lemma PathIdSpellings()
    ensures PathId("/todos/+7") == Some(7)
    ensures PathId("/todos/007") == Some(7)
    ensures PathId("/todos/") == None
    ensures PathId("/todos/-7") == None
    ensures PathId("/todos/7a") == None
  {
    assert "/todos/+7"[|TODO_PREFIX|..] == "+7";
    assert "+7"[1..] == "7";
    assert "/todos/007"[|TODO_PREFIX|..] == "007";
    assert DigitsValue("007") == 7 by {
      assert "007"[..2] == "00";
      assert "00"[..1] == "0";
      assert "0"[..0] == "";
    }
    assert "/todos/"[|TODO_PREFIX|..] == "";
    assert "/todos/-7"[|TODO_PREFIX|..] == "-7";
    assert !IsDigit("-7"[0]);
    assert "/todos/7a"[|TODO_PREFIX|..] == "7a";
    assert !IsDigit("7a"[1]);
  }

  // ---------------------------------------------------------------- refusals

  /** Exactly the methods other than GET, POST, PUT and DELETE are answered 405. */
  lemma MethodNotAllowed(verb: string, path: string, body: string, parse: string -> Option<JVal>)
    ensures Dispatch(verb, path, body, parse) == Refuse(METHOD_NOT_ALLOWED, METHOD_NOT_ALLOWED_MESSAGE)
      <==> !KnownMethod(verb)
  {
    if KnownMethod(verb) {
      BadRequestsOnly(verb, path, body, parse);
    }
  }

  /** A known method on a path it does not serve is answered 404 "Endpoint not found.". */
  lemma EndpointNotFound(verb: string, path: string, body: string, parse: string -> Option<JVal>)
    ensures Dispatch(verb, path, body, parse) == Refuse(NOT_FOUND, ENDPOINT_NOT_FOUND)
      <==> || (verb == "GET" && path != TODOS && !(TODO_PREFIX <= path))
           || (verb == "POST" && path != TODOS)
           || ((verb == "PUT" || verb == "DELETE") && !(TODO_PREFIX <= path))
  {
    BadRequestsOnly(verb, path, body, parse);
  }

  /** GET, PUT and DELETE on `/todos/<x>` answer 400 "Invalid ID." exactly when `x` is not a `usize`. */
  lemma InvalidId(verb: string, path: string, body: string, parse: string -> Option<JVal>)
    ensures Dispatch(verb, path, body, parse) == Refuse(BAD_REQUEST, INVALID_ID)
      <==> (verb == "GET" || verb == "PUT" || verb == "DELETE") && TODO_PREFIX <= path && PathId(path).None?
  {
    BadRequestsOnly(verb, path, body, parse);
  }

  /** The body checks of POST and PUT refuse with 400 and a message of their own. */
  lemma BadRequestsOnly(verb: string, path: string, body: string, parse: string -> Option<JVal>)
    ensures var a := Dispatch(verb, path, body, parse);
      a.Refuse? && a.message !in {ENDPOINT_NOT_FOUND, METHOD_NOT_ALLOWED_MESSAGE, INVALID_ID}
      ==> a.status == BAD_REQUEST && a.message in {INVALID_JSON, TITLE_REQUIRED, TITLE_EMPTY, DESERIALIZATION_ERROR, COMPLETED_NOT_BOOL}
  {
  }

  // ---------------------------------------------------------------- the routes to the store

  /** GET `/todos` lists, GET `/todos/<id>` reads, DELETE `/todos/<id>` deletes; nothing else does. */
  lemma ReadAndDeleteRoutes(verb: string, path: string, id: nat, body: string, parse: string -> Option<JVal>)
    ensures Dispatch(verb, path, body, parse) == Run(ListTodos) <==> verb == "GET" && path == TODOS
    ensures Dispatch(verb, path, body, parse) == Run(GetTodo(id))
      <==> verb == "GET" && TODO_PREFIX <= path && PathId(path) == Some(id)
    ensures Dispatch(verb, path, body, parse) == Run(DeleteTodo(id))
      <==> verb == "DELETE" && TODO_PREFIX <= path && PathId(path) == Some(id)
  {
  }

  /**
   * POST `/todos` creates exactly when the body parses, has a string
   * `title` and that title is not blank; the new record gets that title.
   * Otherwise it answers 400, checking in that order, each check with its own message.
   */
  lemma CreateRoute(body: string, parse: string -> Option<JVal>)
    ensures var a := Dispatch("POST", TODOS, body, parse);
      && (a.Run? <==> parse(body).Some? && TitleField(parse(body).value).Some? && !Blank(TitleField(parse(body).value).value))
      && (a.Run? ==> a.op == CreateTodo(TitleField(parse(body).value).value))
      && (a.Refuse? ==> a.status == BAD_REQUEST)
      && (parse(body).None? ==> a.message == INVALID_JSON)
      && (parse(body).Some? && TitleField(parse(body).value).None? ==> a.message == TITLE_REQUIRED)
      && (parse(body).Some? && TitleField(parse(body).value).Some? && Blank(TitleField(parse(body).value).value)
          ==> a == Refuse(BAD_REQUEST, TITLE_EMPTY))
  {
  }

  /**
   * PUT `/todos/<id>` updates exactly when the body deserializes, a supplied
   * title is not blank and `completed` is supplied; the update carries the
   * supplied fields. Otherwise it answers 400, checking the title before
   * `completed`.
   */
  lemma UpdateRoute(path: string, id: nat, body: string, parse: string -> Option<JVal>)
    requires TODO_PREFIX <= path && PathId(path) == Some(id)
    ensures var a := Dispatch("PUT", path, body, parse);
      var request := UpdateRequestOf(body, parse);
      && (a.Run? <==> request.Some?
                      && (request.value.title.Some? ==> !Blank(request.value.title.value))
                      && request.value.completed.Some?)
      && (a.Run? ==> a.op == UpdateTodo(id, request.value.title, request.value.completed))
      && (a.Refuse? ==> a.status == BAD_REQUEST)
      && (request.None? ==> a.message == DESERIALIZATION_ERROR)
      && (request.Some? && request.value.title.Some? && Blank(request.value.title.value)
          ==> a == Refuse(BAD_REQUEST, TITLE_EMPTY))
      && (request.Some? && (request.value.title.Some? ==> !Blank(request.value.title.value)) && request.value.completed.None?
          ==> a == Refuse(BAD_REQUEST, COMPLETED_NOT_BOOL))
  {
  }

  /** Every update that reaches the store sets `completed`: a PUT cannot change the title alone. */
  lemma UpdateAlwaysSetsCompleted(verb: string, path: string, body: string, parse: string -> Option<JVal>)
    ensures var a := Dispatch(verb, path, body, parse);
      a.Run? && a.op.UpdateTodo? ==> verb == "PUT" && a.op.newCompleted.Some?
  {
  }

  /**
   * A PUT body object without `completed` (or with `completed: null`) is
   * refused for that, once its title, if any, passes.
   */
  lemma UpdateWithoutCompleted(path: string, id: nat, body: string, parse: string -> Option<JVal>, fields: map<string, JVal>)
    requires TODO_PREFIX <= path && PathId(path) == Some(id)
    requires parse(body) == Some(JObj(fields))
    requires Member(fields, "completed") == JNull
    requires Member(fields, "title").JNull? || (Member(fields, "title").JStr? && !Blank(Member(fields, "title").s))
    ensures Dispatch("PUT", path, body, parse) == Refuse(BAD_REQUEST, COMPLETED_NOT_BOOL)
  {
  }

  /** A `completed` member of another type fails deserialization, whatever the title. */
  lemma UpdateCompletedWrongType(path: string, id: nat, body: string, parse: string -> Option<JVal>, fields: map<string, JVal>)
    requires TODO_PREFIX <= path && PathId(path) == Some(id)
    requires parse(body) == Some(JObj(fields))
    requires "completed" in fields && !fields["completed"].JBool? && !fields["completed"].JNull?
    ensures Dispatch("PUT", path, body, parse) == Refuse(BAD_REQUEST, DESERIALIZATION_ERROR)
  {
    CompletedOfWrongType(fields);
  }
}
