/**
 * An abstract JSON document, standing in for `serde_json::Value`, and the
 * two ways the router reads one: looking up a string `title`, and serde's
 * typed deserialization into `UpdateTodoRequest`. Parsing text into a
 * document is the JSON library's business and reaches the router as a
 * function parameter.
 */
module Json {
  import opened Wrappers

  datatype JVal =
    | JNull
    | JBool(b: bool)
    | JNum(n: int)
    | JStr(s: string)
    | JArr(items: seq<JVal>)
    | JObj(fields: map<string, JVal>)

  /**
   * `json.get("title").and_then(|v| v.as_str())`: the `title` member of an
   * object when it is a string; anything else (another type, no such member,
   * a document that is not an object) gives None.
   */
  function TitleField(v: JVal): (r: Option<string>)
    ensures r.Some? <==> v.JObj? && "title" in v.fields && v.fields["title"].JStr?
    ensures r.Some? ==> v.fields["title"] == JStr(r.value)
  {
    match v
    case JObj(fields) =>
      if "title" in fields && fields["title"].JStr? then Some(fields["title"].s) else None
    case _ => None
  }

  /** `UpdateTodoRequest`: the fields a PUT may carry. */
  datatype UpdateRequest = UpdateRequest(title: Option<string>, completed: Option<bool>)

  /** serde's `Option<String>`: `null` is None, a string is Some, anything else fails (outer None). */
  function OptionalString(v: JVal): Option<Option<string>> {
    match v
    case JNull => Some(None)
    case JStr(s) => Some(Some(s))
    case _ => None
  }

  /** serde's `Option<bool>`: `null` is None, a boolean is Some, anything else fails (outer None). */
  function OptionalBool(v: JVal): Option<Option<bool>> {
    match v
    case JNull => Some(None)
    case JBool(b) => Some(Some(b))
    case _ => None
  }

  /** Reads an optional member of an object: a missing member is None, like `null`. */
  function Member(fields: map<string, JVal>, key: string): JVal {
    if key in fields then fields[key] else JNull
  }

  /**
   * `serde_json::from_str::<UpdateTodoRequest>` after parsing: an object whose
   * `title` and `completed` members, when present, have the field's type
   * (other members are ignored), or an array of exactly two elements in field
   * order. None is a deserialization error.
   */
  function DecodeUpdate(v: JVal): (r: Option<UpdateRequest>)
    ensures v.JObj? ==>
      (r.Some? <==> OptionalString(Member(v.fields, "title")).Some?
                    && OptionalBool(Member(v.fields, "completed")).Some?)
    ensures !v.JObj? && !v.JArr? ==> r.None?
  {
    match v
    case JObj(fields) =>
      var title := OptionalString(Member(fields, "title"));
      var completed := OptionalBool(Member(fields, "completed"));
      if title.Some? && completed.Some? then Some(UpdateRequest(title.value, completed.value)) else None
    case JArr(items) =>
      if |items| != 2 then None
      else
        var title := OptionalString(items[0]);
        var completed := OptionalBool(items[1]);
        if title.Some? && completed.Some? then Some(UpdateRequest(title.value, completed.value)) else None
    case _ => None
  }

  /** `UpdateTodoRequest` serialized as an object that leaves absent fields out. */
  function EncodeUpdate(u: UpdateRequest): JVal {
    var withTitle := if u.title.Some? then map["title" := JStr(u.title.value)] else map[];
    JObj(if u.completed.Some? then withTitle["completed" := JBool(u.completed.value)] else withTitle)
  }

  /** Decoding an encoded update request gives it back. */
  lemma DecodeEncode(u: UpdateRequest)
    ensures DecodeUpdate(EncodeUpdate(u)) == Some(u)
  {
  }

  /**
   * A member `completed` that is present but neither a boolean nor `null`
   * makes the whole document fail to deserialize, whatever else it holds.
   */
  lemma CompletedOfWrongType(fields: map<string, JVal>)
    requires "completed" in fields && !fields["completed"].JBool? && !fields["completed"].JNull?
    ensures DecodeUpdate(JObj(fields)).None?
  {
  }
}
