/** The values the relay handles: connection tokens, client ids, the decoded
    inbound frames and the outbound frames it sends. */
module Messages {

  /** An opaque handle for one WebSocket connection; two handles are the same
      connection exactly when they are equal (the source compares with `===`). */
  type Conn = nat

  datatype Option<T> = None | Some(value: T)

  /** A `clientId` as it comes out of `JSON.parse`: any JSON value, or
      `undefined` when the field is missing. Strings, numbers, booleans and
      `null` are Map keys by value; an object or array is a Map key by identity,
      so it is represented by the identity of the parsed object together with
      what was parsed. */
  datatype Key =
    | Undefined
    | Null
    | Bool(b: bool)
    | Num(n: real)
    | Str(s: string)
    | Ref(identity: nat, content: Json)

  /** JavaScript truthiness of a key, as `if (disconnectedId)` tests it:
      exactly five key values are falsy, and every object is truthy. */
  predicate Truthy(k: Key)
    ensures Truthy(k) <==> k !in {Undefined, Null, Bool(false), Num(0.0), Str("")}
  {
    match k
    case Undefined => false
    case Null => false
    case Bool(b) => b
    case Num(n) => n != 0.0
    case Str(s) => s != ""
    case Ref(_, _) => true
  }

  /** A payload the relay forwards without looking inside (`color`, `touches`). */
  datatype Json =
    | JUndefined
    | JNull
    | JBool(b: bool)
    | JNum(n: real)
    | JStr(s: string)
    | JArray(items: seq<Json>)
    | JObject(fields: seq<(string, Json)>)

  /** Whether converting a parsed value to a string, as a template literal
      does, throws a `TypeError`. An object with its own `toString` key throws:
      JSON cannot make that key callable, and the inherited `valueOf` returns
      the object itself, not a primitive. An array is converted by `join`,
      which converts each element other than `null`; it throws when an element
      does. Primitives never throw. */
  predicate ToStringThrows(j: Json)
  {
    match j
    case JArray(items) => exists i :: 0 <= i < |items| && ToStringThrows(items[i])
    case JObject(fields) => exists i :: 0 <= i < |fields| && fields[i].0 == "toString"
    case _ => false
  }

  predicate KeyToStringThrows(k: Key)
  {
    k.Ref? && ToStringThrows(k.content)
  }

  /** Whether the registration log line, which interpolates the new client's
      id and color into a string, throws. */
  predicate RegistrationLogThrows(id: Key, color: Json)
  {
    KeyToStringThrows(id) || ToStringThrows(color)
  }

  /** An inbound frame after `JSON.parse`, classified by its `type` field. */
  datatype Inbound =
    | TouchUpdate(clientId: Key, color: Json, touches: Json)
    | ClearTouches(clientId: Key)
    | Unrecognized   // parsed, but `type` is neither of the two above
    | Malformed      // `JSON.parse` threw, or reading `data.type` threw

  /** An outbound frame before `JSON.stringify`. */
  datatype OutMsg =
    | TouchOut(clientId: Key, color: Json, touches: Json)
    | ClearOut(clientId: Key)

  /** One `ws.send` call: the connection written to and the frame. */
  datatype Send = Send(to: Conn, msg: OutMsg)
}
