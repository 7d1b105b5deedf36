/** `ESM.login`: posts the base64-encoded credentials, classifies the status of
    the single response, and on success replaces the request headers with the
    session headers the server handed back. Base64 is a parameter of the model. */
module Session {
  import opened Wrappers
  import Codec
  import Dispatch

  /** The version-10 login parameters: base64 user name and password, and the
      fixed locale and operating system. */
  function LoginParams(user: string, passwd: string, b64: string -> string): (ps: seq<Codec.Param>)
    ensures |ps| == 4 && forall i :: 0 <= i < 4 ==> ps[i].value.Some?
    ensures ps[0] == Codec.Param("username", Some(b64(user)))
    ensures ps[1] == Codec.Param("password", Some(b64(passwd)))
    ensures ps[2] == Codec.Param("locale", Some("en_US"))
    ensures ps[3] == Codec.Param("os", Some("Win32"))
  {
    [Codec.Param("username", Some(b64(user))),
     Codec.Param("password", Some(b64(passwd))),
     Codec.Param("locale", Some("en_US")),
     Codec.Param("os", Some("Win32"))]
  }

  /** The headers of the login request: HTTP basic authentication over
      `user:passwd`, and the JSON content type. */
  function LoginHeaders(user: string, passwd: string, b64: string -> string): (h: Dispatch.Headers)
    ensures h.Keys == {"Authorization", "Content-Type"}
    ensures h["Authorization"] == Some("Basic " + b64(user + ":" + passwd))
    ensures h["Content-Type"] == Some("application/json")
  {
    map["Authorization" := Some("Basic " + b64(user + ":" + passwd)),
        "Content-Type" := Some("application/json")]
  }

  /** `dict.get`: the header's value, or `None`. */
  function Get(h: map<string, string>, k: string): (v: Option<string>)
    ensures v.Some? <==> k in h
    ensures v.Some? ==> v.value == h[k]
  {
    if k in h then Some(h[k]) else None
  }

  /** The headers every later request carries. */
  function SessionHeaders(resp: Dispatch.HttpResponse): (h: Dispatch.Headers)
    ensures h.Keys == {"Content-Type", "Cookie", "X-Xsrf-Token", "SID"}
    ensures h["Content-Type"] == Some("application/json")
    ensures h["Cookie"] == Get(resp.headers, "Set-Cookie")
    ensures h["X-Xsrf-Token"] == Get(resp.headers, "Xsrf-Token")
    ensures h["SID"] == Get(resp.headers, "Location")
    ensures "Authorization" !in h
  {
    map["Content-Type" := Some("application/json"),
        "Cookie" := Get(resp.headers, "Set-Cookie"),
        "X-Xsrf-Token" := Get(resp.headers, "Xsrf-Token"),
        "SID" := Get(resp.headers, "Location")]
  }

  datatype LoginOutcome =
    | InvalidCredentials                        // status 400 or 401: the program exits
    | LoginError(text: string)                  // status 402 to 600: the program exits
    | LoggedIn(headers: Dispatch.Headers, sid: Option<string>)
    | NoResponse                                // the transport gave no answer

  /** Lines 136-147: what the status of the login response leads to. */
  function Classify(resp: Dispatch.HttpResponse): (o: LoginOutcome)
    ensures o == InvalidCredentials <==> resp.status == 400 || resp.status == 401
    ensures o.LoginError? <==> 402 <= resp.status <= 600
    ensures o.LoginError? ==> o.text == resp.text
    ensures o.LoggedIn? <==> !(400 <= resp.status <= 600)
    ensures o.LoggedIn? ==> o.headers == SessionHeaders(resp) && o.sid == o.headers["SID"]
  {
    if resp.status == 400 || resp.status == 401 then InvalidCredentials
    else if 402 <= resp.status <= 600 then LoginError(resp.text)
    else
      var h := SessionHeaders(resp);
      LoggedIn(h, h["SID"])
  }

  /** Every status outside 400..600 logs in, including redirects and the
      1xx range; a 500 ends the program rather than being retried. */
  lemma ClassifyExamples(h: map<string, string>)
    ensures Classify(Dispatch.HttpResponse(200, "", h)).LoggedIn?
    ensures Classify(Dispatch.HttpResponse(302, "", h)).LoggedIn?
    ensures Classify(Dispatch.HttpResponse(601, "", h)).LoggedIn?
    ensures Classify(Dispatch.HttpResponse(500, "x", h)) == LoginError("x")
    ensures Classify(Dispatch.HttpResponse(401, "", h)) == InvalidCredentials
  {
  }

  /** The login request: a modern command, so a JSON body on the REST URL. */
  lemma LoginRequestShape(host: string, user: string, passwd: string, b64: string -> string,
                          dumps: seq<Codec.Param> -> string)
    ensures !Dispatch.IsLegacy("login")
    ensures Dispatch.Route(host, "login", Some(LoginParams(user, passwd, b64)),
                           LoginHeaders(user, passwd, b64), dumps)
         == Success(Dispatch.Request(Dispatch.BaseUrl(host) + "login",
                                     Dispatch.Json(dumps(LoginParams(user, passwd, b64))),
                                     LoginHeaders(user, passwd, b64)))
  {
    Dispatch.MixedCaseIsModern();
  }

  /** `ESM.login`: the request is posted once with `raw` set, so the first
      response is classified as it is. */
  method Login<J>(host: string, user: string, passwd: string, b64: string -> string,
                  codec: Dispatch.JsonCodec<J>, responses: seq<Dispatch.HttpResponse>)
    returns (o: LoginOutcome)
    ensures |responses| == 0 <==> o == NoResponse
    ensures |responses| > 0 ==> o == Classify(responses[0])
  {
    var posted := Dispatch.Post(host, "login", Some(LoginParams(user, passwd, b64)),
                                LoginHeaders(user, passwd, b64), true, None, codec, responses);
    match posted
    case Raw(resp) =>
      o := Classify(resp);
    case _ =>
      o := NoResponse;
  }
}
