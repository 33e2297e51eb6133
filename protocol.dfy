/**
  The wire records: a Request is `{"type": <int>, "data": {...}}` and a
  Response is `{"status": <int>, "data": {...}, "error_message": <string>}`.

  Both are C++ value types; `setData` and `setErrorMessage` update a local
  copy, so here they are functions that return the updated record.
*/
module Protocol {
  import opened Platform
  import opened Json

  // enum class RequestType, in declaration order
  const AUTH_LOGIN: Int32 := 0
  const AUTH_REGISTER: Int32 := 1
  const TRIPLE_DES_ENCRYPT: Int32 := 2
  const TRIPLE_DES_DECRYPT: Int32 := 3
  const CHORD_METHOD_SOLVE: Int32 := 4
  const STEGANOGRAPHY_HIDE: Int32 := 5
  const STEGANOGRAPHY_EXTRACT: Int32 := 6

  // enum class ResponseStatus, in declaration order
  const SUCCESS: Int32 := 0
  const ERROR: Int32 := 1

  /**
    The request type is kept as the integer it was cast from: a cast to an
    `enum class` keeps values outside the enumerators, and the dispatcher has
    a default branch for them.
  */
  datatype Request = Request(reqType: Int32, data: JsonObject) {

    /** Request(RequestType type): no data yet. */
    static function OfType(t: Int32): (r: Request)
      ensures r.Type() == t
      ensures forall k :: r.Data(k) == Undefined
    {
      Request(t, map[])
    }

    /** Request(const QJsonObject &json). */
    static function FromJson(json: JsonObject): Request {
      Request(ToInt(Get(json, "type"), 0), ToObject(Get(json, "data")))
    }

    /** toJson(); decoding its result gives the same request back. */
    function ToJson(): (json: JsonObject)
      ensures FromJson(json) == this
      ensures json.Keys == {"type", "data"}
    {
      map["type" := FromInt(reqType), "data" := Object(data)]
    }

    function Type(): Int32 {
      reqType
    }

    /** data(key): Undefined when the key is absent. */
    function Data(key: string): JsonValue {
      Get(data, key)
    }

    /** setData(key, value): the key now yields value, every other key is unchanged. */
    function SetData(key: string, value: JsonValue): (r: Request)
      ensures r.Data(key) == value
      ensures forall k :: k != key ==> r.Data(k) == Data(k)
      ensures r.Type() == Type()
    {
      Request(reqType, Set(data, key, value))
    }
  }

  datatype Response = Response(status: Int32, data: JsonObject, errorMessage: string) {

    /** Response(): a success with no data and no message. */
    static function Default(): (r: Response)
      ensures r.Status() == SUCCESS && r.ErrorMessage() == ""
      ensures forall k :: r.Data(k) == Undefined
    {
      Response(SUCCESS, map[], "")
    }

    /** Response(ResponseStatus status). */
    static function WithStatus(s: Int32): (r: Response)
      ensures r.Status() == s && r.ErrorMessage() == ""
      ensures forall k :: r.Data(k) == Undefined
    {
      Response(s, map[], "")
    }

    /** Response(const QJsonObject &json). */
    static function FromJson(json: JsonObject): Response {
      Response(
        ToInt(Get(json, "status"), 0),
        ToObject(Get(json, "data")),
        ToString(Get(json, "error_message")))
    }

    /** toJson(); decoding its result gives the same response back. */
    function ToJson(): (json: JsonObject)
      ensures FromJson(json) == this
      ensures json.Keys == {"status", "data", "error_message"}
    {
      map["status" := FromInt(status), "data" := Object(data), "error_message" := Str(errorMessage)]
    }

    function Status(): Int32 {
      status
    }

    function Data(key: string): JsonValue {
      Get(data, key)
    }

    /** setData(key, value): the key now yields value; status, message and other keys are unchanged. */
    function SetData(key: string, value: JsonValue): (r: Response)
      ensures r.Data(key) == value
      ensures forall k :: k != key ==> r.Data(k) == Data(k)
      ensures r.Status() == Status() && r.ErrorMessage() == ErrorMessage()
    {
      Response(status, Set(data, key, value), errorMessage)
    }

    /** setErrorMessage(message): only the message changes; the status is left alone. */
    function SetErrorMessage(message: string): (r: Response)
      ensures r.ErrorMessage() == message
      ensures r.Status() == Status() && r.data == data
    {
      Response(status, data, message)
    }

    function ErrorMessage(): string {
      errorMessage
    }
  }

  /** Response(ERROR) followed by setErrorMessage(message): a message and no data. */
  function ErrorResponse(message: string): (r: Response)
    ensures r.Status() == ERROR && r.ErrorMessage() == message && r.data == map[]
  {
    Response.WithStatus(ERROR).SetErrorMessage(message)
  }

  /** Decoding an object that lacks every field: type AUTH_LOGIN with no data. */
  lemma RequestDefaults()
    ensures Request.FromJson(map[]) == Request(AUTH_LOGIN, map[])
  {
  }

  /** Decoding an object that lacks every field: SUCCESS, no data, no message. */
  lemma ResponseDefaults()
    ensures Response.FromJson(map[]) == Response(SUCCESS, map[], "")
  {
  }

  /**
    Nothing ties the status to the message: an error response may carry an
    empty message and a success response a non-empty one.
  */
  lemma StatusIndependentOfMessage(r: Response, message: string)
    ensures r.SetErrorMessage(message).Status() == r.Status()
    ensures Response.WithStatus(ERROR).ErrorMessage() == ""
    ensures Response.Default().SetErrorMessage("x").Status() == SUCCESS
  {
  }
}
