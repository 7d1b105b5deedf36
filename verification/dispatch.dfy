/** `ESM.post`: picks the endpoint and the body encoding from the casing of
    the command name, sends the request, re-sends it while the server answers
    500, and turns a 2xx answer into a value. The HTTP exchange is replaced by a
    finite script of responses, and the JSON library by the functions of a
    `JsonCodec`. */
module Dispatch {
  import opened Wrappers
  import opened Text
  import Codec

  /** HTTP header name to value; `None` is a header whose value is Python's `None`. */
  type Headers = map<string, Option<string>>

  function BaseUrl(host: string): string {
    "https://" + host + "/rs/esm/"
  }

  function InternalUrl(host: string): string {
    "https://" + host + "/ess"
  }

  /** A command written entirely in upper case goes over the legacy protocol. */
  predicate IsLegacy(cmd: string) {
    cmd == Upper(cmd)
  }

  /** The casing test is exactly "contains no lower-case letter". */
  lemma LegacyIffNoLowerCase(cmd: string)
    ensures IsLegacy(cmd) <==> forall i :: 0 <= i < |cmd| ==> !IsLowerAscii(cmd[i])
  {
    if !IsLegacy(cmd) {
      var i :| 0 <= i < |cmd| && cmd[i] != Upper(cmd)[i];
      assert IsLowerAscii(cmd[i]);
    }
  }

  lemma MixedCaseIsModern()
    ensures !IsLegacy("loGin") && !IsLegacy("login") && IsLegacy("ESSMGTGETESSTIME")
  {
    assert Upper("loGin")[0] == 'L';
    assert Upper("login")[0] == 'L';
    assert Upper("ESSMGTGETESSTIME") == "ESSMGTGETESSTIME";
  }

  /** What is posted: the form-encoded legacy text, JSON text, or the Python
      value handed to the transport untouched (`None` or an empty dict). */
  datatype Body = Form(text: string) | Json(text: string) | Unserialised(data: Option<seq<Codec.Param>>)

  datatype Request = Request(url: string, body: Body, headers: Headers)

  datatype RouteError =
    | EmptyCommand    // `ValueError("Method must not be None")`
    | MissingParams   // `TypeError` from `**None`: a legacy command posted without data
    | CmdCollision    // `TypeError`: a parameter named `cmd` also binds the encoder's first argument

  /** The data holds a parameter named `cmd`. Spread by `**` into
      `_format_params(cmd, **params)`, it collides with the positional `cmd`
      before any `None` value is filtered out. */
  predicate HasCmdKey(data: Option<seq<Codec.Param>>) {
    data.Some? && exists i :: 0 <= i < |data.value| && data.value[i].key == "cmd"
  }

  /** Lines 202-212 as written: a legacy command with `data=None` reaches
      `_format_params(cmd, **None)`, which raises. */
  function RouteAsWritten(host: string, cmd: string, data: Option<seq<Codec.Param>>,
                          headers: Headers, dumps: seq<Codec.Param> -> string): (r: Result<Request, RouteError>)
    ensures r.Failure? <==> |cmd| == 0 || (IsLegacy(cmd) && (data.None? || HasCmdKey(data)))
    ensures r.Failure? && |cmd| > 0 && data.None? ==> r.error == MissingParams
    ensures r.Failure? && |cmd| > 0 && data.Some? ==> r.error == CmdCollision
  {
    if |cmd| == 0 then Failure(EmptyCommand)
    else if IsLegacy(cmd) then
      if data.None? then Failure(MissingParams)
      else if HasCmdKey(data) then Failure(CmdCollision)
      else Success(Request(InternalUrl(host), Form(Codec.Encode(cmd, data.value)), headers))
    else if data.Some? && |data.value| > 0 then
      Success(Request(BaseUrl(host) + cmd, Json(dumps(data.value)), headers))
    else Success(Request(BaseUrl(host) + cmd, Unserialised(data), headers))
  }

  /** A legacy command without data cannot be posted as written. */
  lemma LegacyWithoutDataRaises(host: string, headers: Headers, dumps: seq<Codec.Param> -> string)
    ensures RouteAsWritten(host, "ESSMGTGETESSTIME", None, headers, dumps) == Failure(MissingParams)
  {
    assert IsLegacy("ESSMGTGETESSTIME") by { MixedCaseIsModern(); }
  }

  /** The parameter list, with a missing one read as empty. */
  function ParamsOrNone(data: Option<seq<Codec.Param>>): seq<Codec.Param> {
    if data.Some? then data.value else []
  }

  /** A legacy parameter named `cmd` is rejected, even with a `None` value. */
  lemma CmdKeyRaises(host: string, headers: Headers, dumps: seq<Codec.Param> -> string)
    ensures RouteAsWritten(host, "X", Some([Codec.Param("cmd", None)]), headers, dumps) == Failure(CmdCollision)
  {
    assert Upper("X") == "X";
    assert [Codec.Param("cmd", None)][0].key == "cmd";
  }

  /** Request routing, with a missing parameter dict treated as an empty one
      for legacy commands; a parameter named `cmd` still collides. */
  function Route(host: string, cmd: string, data: Option<seq<Codec.Param>>,
                 headers: Headers, dumps: seq<Codec.Param> -> string): (r: Result<Request, RouteError>)
    ensures r.Failure? <==> |cmd| == 0 || (IsLegacy(cmd) && HasCmdKey(data))
    ensures r.Failure? && |cmd| == 0 ==> r.error == EmptyCommand
    ensures r.Failure? && |cmd| > 0 ==> r.error == CmdCollision
    ensures r.Success? ==> r.value.headers == headers
    ensures r.Success? ==> (r.value.url == InternalUrl(host) <==> IsLegacy(cmd))
    ensures r.Success? ==> (r.value.body.Form? <==> IsLegacy(cmd))
    ensures r.Success? && !IsLegacy(cmd) ==> r.value.url == BaseUrl(host) + cmd
    ensures r.Success? && IsLegacy(cmd) ==> Codec.RequestPrefix(cmd) <= r.value.body.text
    ensures r.Success? && !IsLegacy(cmd) ==>
      (r.value.body.Json? <==> data.Some? && |data.value| > 0)
    ensures r.Success? && IsLegacy(cmd) ==>
      r.value.body.text == Codec.RequestPrefix(cmd) + Codec.PairSection(Codec.Surviving(ParamsOrNone(data)))
    ensures r.Success? && r.value.body.Json? ==> r.value.body.text == dumps(data.value)
    ensures r.Success? && r.value.body.Unserialised? ==> r.value.body.data == data
    ensures RouteAsWritten(host, cmd, data, headers, dumps).Success? ==>
      r == RouteAsWritten(host, cmd, data, headers, dumps)
  {
    if |cmd| == 0 then Failure(EmptyCommand)
    else if IsLegacy(cmd) then
      if HasCmdKey(data) then Failure(CmdCollision)
      else
        var params := ParamsOrNone(data);
        Codec.EncodeLayout(cmd, params);
        Success(Request(InternalUrl(host), Form(Codec.Encode(cmd, params)), headers))
    else
      assert |BaseUrl(host) + cmd| != |InternalUrl(host)|;
      if data.Some? && |data.value| > 0 then
        Success(Request(BaseUrl(host) + cmd, Json(dumps(data.value)), headers))
      else Success(Request(BaseUrl(host) + cmd, Unserialised(data), headers))
  }

  /** The corrected routing posts a parameterless legacy command as the bare
      request prefix. */
  lemma LegacyWithoutDataEncodes(host: string, cmd: string, headers: Headers, dumps: seq<Codec.Param> -> string)
    requires |cmd| > 0 && IsLegacy(cmd)
    ensures Route(host, cmd, None, headers, dumps).Success?
    ensures Route(host, cmd, None, headers, dumps).value.body == Form(Codec.RequestPrefix(cmd))
  {
  }

  // ---------------------------------------------------------------------------
  // Responses
  // ---------------------------------------------------------------------------

  datatype HttpResponse = HttpResponse(status: int, text: string, headers: map<string, string>)

  /** The JSON library as seen by `post`: `dumps` serialises a parameter dict;
      `parse(text)` is `resp.json()`, `None` when the text is not JSON;
      `returnField(v)` is `v.get('return')`, `None` when `v` is not an object
      (a missing key yields whatever value the codec uses for JSON `null`);
      `asText(v)` is `Some(s)` when the JSON value is a string. */
  datatype JsonCodec<!J> = JsonCodec(
    dumps: seq<Codec.Param> -> string,
    parse: string -> Option<J>,
    returnField: J -> Option<J>,
    asText: J -> Option<string>)

  /** What `post` hands back for a 2xx answer. */
  datatype Reply<J> = JsonReturn(json: J) | Text(text: string) | Fields(fields: map<string, string>)

  datatype PostError =
    | RouteFailed(route: RouteError)
    | NotAnObject                         // `.get` on a JSON value that is not an object
    | NotText                             // legacy decoding of a JSON value that is not a string
    | Undecodable(decode: Codec.DecodeError)

  /** Lines 226-234 before the legacy step: the `return` member of a JSON body,
      or the body text when it is not JSON. */
  function FirstReply<J>(text: string, codec: JsonCodec<J>): (r: Result<Reply<J>, PostError>)
    ensures r.Success? && r.value.Text? <==> codec.parse(text).None?
    ensures r.Failure? <==> codec.parse(text).Some? && codec.returnField(codec.parse(text).value).None?
    ensures r.Failure? ==> r.error == NotAnObject
    ensures r.Success? ==> !r.value.Fields?
  {
    match codec.parse(text)
    case None => Success(Text(text))
    case Some(v) =>
      match codec.returnField(v)
      case None => Failure(NotAnObject)
      case Some(ret) => Success(JsonReturn(ret))
  }

  /** `_format_resp` applied to what `post` holds: the text itself, or a JSON
      value, which must be a string. */
  function LegacyDecode<J>(reply: Reply<J>, codec: JsonCodec<J>): (r: Result<Reply<J>, PostError>)
    requires !reply.Fields?
    ensures r.Success? ==> r.value.Fields?
    ensures reply.Text? ==>
      (r.Success? <==> Codec.Decode(reply.text).Success?)
    ensures reply.Text? && Codec.Decode(reply.text).Success? ==>
      r == Success(Fields(Codec.Decode(reply.text).value))
    ensures reply.Text? && Codec.Decode(reply.text).Failure? ==>
      r == Failure(Undecodable(Codec.Decode(reply.text).error))
    ensures reply.JsonReturn? && codec.asText(reply.json).None? ==> r == Failure(NotText)
    ensures forall s :: reply.JsonReturn? && codec.asText(reply.json) == Some(s) ==>
      && (r.Success? <==> Codec.Decode(s).Success?)
      && (r.Success? ==> r == Success(Fields(Codec.Decode(s).value)))
      && (r.Failure? ==> r == Failure(Undecodable(Codec.Decode(s).error)))
  {
    var text := if reply.Text? then Some(reply.text) else codec.asText(reply.json);
    if text.None? then Failure(NotText)
    else
      match Codec.Decode(text.value)
      case Success(m) => Success(Fields(m))
      case Failure(e) => Failure(Undecodable(e))
  }

  /** Lines 226-234: the JSON `return` value, else the text; legacy replies go
      through the legacy decoder; then the callback, if any. */
  function Process<J>(cmd: string, resp: HttpResponse, codec: JsonCodec<J>,
                      callback: Option<Reply<J> -> Reply<J>>): (r: Result<Reply<J>, PostError>)
    ensures r.Failure? ==> !r.error.RouteFailed?
    ensures r.Failure? && !IsLegacy(cmd) ==> r.error == NotAnObject
    ensures callback.None? && r.Success? ==> (r.value.Fields? <==> IsLegacy(cmd))
  {
    var first :- FirstReply(resp.text, codec);
    var decoded :- if IsLegacy(cmd) then LegacyDecode(first, codec) else Success(first);
    Success(if callback.Some? then callback.value(decoded) else decoded)
  }

  /** A legacy reply whose body is not JSON is exactly the legacy decoding of
      its text. */
  lemma LegacyTextReply<J>(cmd: string, resp: HttpResponse, codec: JsonCodec<J>, m: map<string, string>)
    requires IsLegacy(cmd) && codec.parse(resp.text).None?
    ensures Process(cmd, resp, codec, None) == Success(Fields(m)) <==> Codec.Decode(resp.text) == Success(m)
  {
  }

  /** A legacy reply whose JSON `return` member is a string is the legacy
      decoding of that string. */
  lemma LegacyJsonReply<J>(cmd: string, resp: HttpResponse, codec: JsonCodec<J>,
                           v: J, ret: J, s: string, m: map<string, string>)
    requires IsLegacy(cmd)
    requires codec.parse(resp.text) == Some(v) && codec.returnField(v) == Some(ret)
    requires codec.asText(ret) == Some(s)
    ensures Process(cmd, resp, codec, None) == Success(Fields(m)) <==> Codec.Decode(s) == Success(m)
  {
  }

  /** The callback, when given, is applied to the processed reply, and is not
      reached when processing fails. */
  lemma ProcessCallback<J>(cmd: string, resp: HttpResponse, codec: JsonCodec<J>, f: Reply<J> -> Reply<J>)
    ensures Process(cmd, resp, codec, None).Success? ==>
      Process(cmd, resp, codec, Some(f)) == Success(f(Process(cmd, resp, codec, None).value))
    ensures Process(cmd, resp, codec, None).Failure? ==>
      Process(cmd, resp, codec, Some(f)) == Process(cmd, resp, codec, None)
  {
  }

  /** A modern reply is the `return` member of the JSON body, or the text. */
  lemma ModernReply<J>(cmd: string, resp: HttpResponse, codec: JsonCodec<J>)
    requires !IsLegacy(cmd)
    ensures codec.parse(resp.text).None? ==> Process(cmd, resp, codec, None) == Success(Text(resp.text))
    ensures forall v, ret :: codec.parse(resp.text) == Some(v) && codec.returnField(v) == Some(ret) ==>
      Process(cmd, resp, codec, None) == Success(JsonReturn(ret))
  {
  }

  datatype PostOutcome<J> =
    | Rejected(error: PostError)            // `post` raised
    | Raw(response: HttpResponse)           // `raw` was set: the first response itself
    | Value(reply: Reply<J>, attempt: nat)  // a 2xx answer, from the given response of the script
    | NoValue(status: int, attempt: nat)    // any other final status: `post` returns `None`
    | OutOfResponses                        // the script ended (on 500s) before a final answer

  /** The request can be built: the command is not empty, and a legacy
      command's data holds no parameter named `cmd`. */
  predicate Routable(cmd: string, data: Option<seq<Codec.Param>>) {
    |cmd| > 0 && !(IsLegacy(cmd) && HasCmdKey(data))
  }

  /** Response `i` is the first of the script not answering 500: the one
      `post` goes on with. */
  predicate Settled(responses: seq<HttpResponse>, i: int) {
    && 0 <= i < |responses|
    && responses[i].status != 500
    && forall j :: 0 <= j < i ==> responses[j].status == 500
  }

  /** `ESM.post`. `responses` are the server's answers to successive sends of
      the same request. */
  method Post<J>(host: string, cmd: string, data: Option<seq<Codec.Param>>, headers: Headers,
                 raw: bool, callback: Option<Reply<J> -> Reply<J>>, codec: JsonCodec<J>,
                 responses: seq<HttpResponse>)
    returns (o: PostOutcome<J>)
    ensures |cmd| == 0 <==> o == Rejected(RouteFailed(EmptyCommand))
    ensures |cmd| > 0 && IsLegacy(cmd) && HasCmdKey(data) <==> o == Rejected(RouteFailed(CmdCollision))
    ensures Routable(cmd, data) && raw && |responses| > 0 ==> o == Raw(responses[0])
    ensures o.Raw? ==> raw
    ensures Routable(cmd, data) && |responses| == 0 ==> o == OutOfResponses
    ensures o.Value? || o.NoValue? ==> !raw && Settled(responses, o.attempt)
    ensures o.Value? ==>
      && 200 <= responses[o.attempt].status <= 300
      && Process(cmd, responses[o.attempt], codec, callback) == Success(o.reply)
    ensures o.NoValue? ==>
      && o.status == responses[o.attempt].status
      && !(200 <= o.status <= 300)
    ensures o.OutOfResponses? ==> forall j :: 0 <= j < |responses| ==> responses[j].status == 500
    ensures o.Rejected? && Routable(cmd, data) ==>
      && !raw
      && exists i :: Settled(responses, i) && 200 <= responses[i].status <= 300
                  && Process(cmd, responses[i], codec, callback) == Failure(o.error)
  {
    var route := Route(host, cmd, data, headers, codec.dumps);
    if route.Failure? {
      return Rejected(RouteFailed(route.error));
    }
    if |responses| == 0 {
      return OutOfResponses;
    }
    if raw {
      return Raw(responses[0]);
    }
    var i := 0;
    while responses[i].status == 500
      invariant 0 <= i < |responses|
      invariant forall j :: 0 <= j < i ==> responses[j].status == 500
      decreases |responses| - i
    {
      if i + 1 == |responses| {
        return OutOfResponses;
      }
      i := i + 1;
    }
    var resp := responses[i];
    if 200 <= resp.status <= 300 {
      var processed := Process(cmd, resp, codec, callback);
      if processed.Failure? {
        return Rejected(processed.error);
      }
      return Value(processed.value, i);
    }
    return NoValue(resp.status, i);
  }
}
