/**
 * The captive portal's HTTP request handler (src/http_server/handlers.py).
 *
 * `_parse_request`, `_response` and `_redirect` are pure text functions.
 * `handle_request` and `_handle_login` are given as a function `Handle` over
 * the session state, and as a `RequestHandler` object whose methods call the
 * session manager and are proved to match `Handle`. The login and status
 * templates, `parse_qs` and the user store's `authenticate` are parameters.
 *
 * A client's reading of a message (`SplitMessage`, `Field`) is the partner of
 * the serialisers: it splits at the first blank line, splits the head into
 * lines, and looks headers up by name.
 */
module Handlers {
  import opened Common
  import opened Text
  import opened Firewall
  import opened Sessions
  import Config

  const CRLF: string := "\r\n"
  const BLANK_LINE: string := "\r\n\r\n"
  /** The protocol version a client puts at the end of its request line. */
  const VERSION: string := "HTTP/1.1"

  /** What `_parse_request` returns. */
  datatype Request = Request(verb: string, path: string, body: string)

  /** The parts of the handler that the model takes as given. */
  datatype Env = Env(
    authenticate: (string, string) -> bool,   // user_manager.authenticate(username, password)
    field: (string, string) -> string,        // parse_qs(body).get(name, [''])[0]
    loginPage: string -> string,              // login.html formatted with `error`
    statusPage: string -> string              // status.html formatted with `username`
  )

  /** The error fragment a failed login shows. */
  const LOGIN_ERROR: string := "<p class=\"error\">Usuario o contrasena incorrectos</p>"

  // ---------------------------------------------------------------------------
  // Reading a message
  // ---------------------------------------------------------------------------

  /** The head split into lines and the body: the text after the first blank line, or "". */
  function SplitMessage(text: string): (seq<string>, string)
  {
    var parts := SplitOnce(text, BLANK_LINE);
    (Split(parts[0], CRLF), if |parts| > 1 then parts[1] else "")
  }

  /** The value of the first header called `name`. */
  function Field(headers: seq<string>, name: string): Option<string>
  {
    if headers == [] then None
    else if StartsWith(headers[0], name + ": ") then Some(headers[0][|name| + 2..])
    else Field(headers[1..], name)
  }

  function StatusLine(message: string): string
  {
    SplitMessage(message).0[0]
  }

  function Header(message: string, name: string): Option<string>
  {
    Field(SplitMessage(message).0[1..], name)
  }

  function BodyOf(message: string): string
  {
    SplitMessage(message).1
  }

  /** The body length a client takes from the Content-Length header. */
  function ContentLength(message: string): Option<nat>
  {
    match Header(message, "Content-Length")
    case None => None
    case Some(v) => ParseNat(v)
  }

  // ---------------------------------------------------------------------------
  // _parse_request
  // ---------------------------------------------------------------------------

  /** `_parse_request`. */
  function ParseRequest(raw: string): (r: Request)
    // the body is what follows the first blank line, or nothing
    ensures r.body == match Find(raw, BLANK_LINE)
                      case None => ""
                      case Some(k) => raw[k + |BLANK_LINE|..]
    // the method is always the first token of the first line: the 'GET' default never applies
    ensures r.verb == Before(Before(Before(raw, BLANK_LINE), CRLF), " ")
    // the path is the second token of the first line cut at '?', or '/' when that line has no space
    ensures var line := Before(Before(raw, BLANK_LINE), CRLF);
            match Find(line, " ")
            case None => r.path == "/"
            case Some(k) => r.path == Before(Before(line[k + 1..], " "), "?")
    // the query string is always cut off
    ensures Free(r.path, '?')
  {
    var (lines, body) := SplitMessage(raw);
    SplitSecond(lines[0], " ");
    var requestLine := if |lines| > 0 then Split(lines[0], " ") else [];
    var verb := if |requestLine| > 0 then requestLine[0] else "GET";
    var path := if |requestLine| > 1 then Split(requestLine[1], "?")[0] else "/";
    BeforeFree(if |requestLine| > 1 then requestLine[1] else "", '?');
    Request(verb, path, body)
  }

  /** A request line and header lines, a blank line, and a body. */
  function RequestText(verb: string, target: string, headers: seq<string>, body: string): string
  {
    Join([verb + " " + target + " " + VERSION] + headers, CRLF) + BLANK_LINE + body
  }

  // ---------------------------------------------------------------------------
  // _response and _redirect
  // ---------------------------------------------------------------------------

  /** The reason phrase `_response` pairs with a status code. */
  function Reason(code: int): string
  {
    if code == 200 then "OK"
    else if code == 302 then "Found"
    else if code == 404 then "Not Found"
    else "OK"
  }

  function ResponseHead(code: int, body: string, contentType: string): seq<string>
  {
    [ "HTTP/1.1 " + IntToString(code) + " " + Reason(code),
      "Content-Type: " + contentType + "; charset=utf-8",
      "Content-Length: " + NatToString(|Utf8(body)|),
      "Connection: close",
      "Cache-Control: no-cache, no-store" ]
  }

  /** `_response(status_code, body, content_type)`. */
  function Response(code: int, body: string, contentType: string): string
  {
    Join(ResponseHead(code, body, contentType), CRLF) + BLANK_LINE + body
  }

  function RedirectBody(location: string): string
  {
    "<html><body>Redirigiendo a <a href=\"" + location + "\">" + location + "</a></body></html>"
  }

  function RedirectHead(location: string): seq<string>
  {
    [ "HTTP/1.1 302 Found",
      "Location: " + location,
      "Content-Length: " + NatToString(|Utf8(RedirectBody(location))|),
      "Connection: close",
      "Cache-Control: no-cache, no-store" ]
  }

  /** `_redirect(location)`. */
  function Redirect(location: string): string
  {
    Join(RedirectHead(location), CRLF) + BLANK_LINE + RedirectBody(location)
  }

  /** Where captive-portal probes are sent. */
  function PortalLoginUrl(): (url: string)
    ensures url == "http://192.168.1.1:80/login"
  {
    assert NatToString(80) == "80" by {
      assert NatToString(8) == "8";
    }
    "http://" + Config.PORTAL_IP + ":" + IntToString(Config.PORTAL_PORT) + "/login"
  }

  // ---------------------------------------------------------------------------
  // Properties of the message format
  // ---------------------------------------------------------------------------

  /** Every CR starts a CRLF that is followed by more text not starting with CR. */
  predicate CrlfSafe(h: string)
  {
    forall j :: 0 <= j < |h| && h[j] == '\r' ==> j + 2 < |h| && h[j + 1] == '\n' && h[j + 2] != '\r'
  }

  lemma CrlfSafeCons(a: string, rest: string)
    requires Free(a, '\r') && CrlfSafe(rest) && |rest| > 0 && rest[0] != '\r'
    ensures CrlfSafe(a + CRLF + rest)
  {
    var h := a + CRLF + rest;
    forall j | 0 <= j < |h| && h[j] == '\r'
      ensures j + 2 < |h| && h[j + 1] == '\n' && h[j + 2] != '\r'
    {
      if j >= |a| + 2 {
        assert h[j] == rest[j - |a| - 2];
      }
      if j == |a| {
        assert h[j + 2] == rest[0];
      }
    }
  }

  /** A head joined from CR-free lines, all but the first non-empty, holds no blank line. */
  lemma {:induction false} CrlfSafeJoin(lines: seq<string>)
    requires |lines| >= 1
    requires forall k :: 0 <= k < |lines| ==> Free(lines[k], '\r')
    requires forall k :: 1 <= k < |lines| ==> |lines[k]| > 0
    ensures CrlfSafe(Join(lines, CRLF))
    decreases |lines|
  {
    if |lines| > 1 {
      var rest := lines[1..];
      CrlfSafeJoin(rest);
      var tail := Join(rest, CRLF);
      if |rest| > 1 {
        assert tail == rest[0] + CRLF + Join(rest[1..], CRLF);
      }
      assert tail[0] == rest[0][0];
      CrlfSafeCons(lines[0], tail);
    }
  }

  /** `pat` does not occur at `j` when one of its characters differs. */
  lemma NoMatchAt(s: string, pat: string, j: nat, m: nat)
    requires m < |pat| && j + |pat| <= |s| && s[j + m] != pat[m]
    ensures !MatchAt(s, pat, j)
  {
    assert s[j..j + |pat|][m] == s[j + m];
  }

  /** The first blank line of a message is the one after a CRLF-safe head. */
  lemma FirstBlankLine(h: string, body: string)
    requires CrlfSafe(h)
    ensures SplitOnce(h + BLANK_LINE + body, BLANK_LINE) == [h, body]
  {
    var s := h + BLANK_LINE + body;
    forall j | 0 <= j < |h|
      ensures !MatchAt(s, BLANK_LINE, j)
    {
      assert s[j] == h[j];
      if h[j] == '\r' {
        assert s[j + 2] == h[j + 2];
        NoMatchAt(s, BLANK_LINE, j, 2);
      } else {
        NoMatchAt(s, BLANK_LINE, j, 0);
      }
    }
    assert s[|h|..|h| + |BLANK_LINE|] == BLANK_LINE;
    FindAt(s, BLANK_LINE, |h|);
    assert s[..|h|] == h;
    assert s[|h| + |BLANK_LINE|..] == body;
  }

  /** Reading back a message gives its lines and its body, whatever the body holds. */
  lemma MessageRoundTrip(lines: seq<string>, body: string)
    requires |lines| >= 1
    requires forall k :: 0 <= k < |lines| ==> Free(lines[k], '\r')
    requires forall k :: 1 <= k < |lines| ==> |lines[k]| > 0
    ensures SplitMessage(Join(lines, CRLF) + BLANK_LINE + body) == (lines, body)
  {
    CrlfSafeJoin(lines);
    FirstBlankLine(Join(lines, CRLF), body);
    JoinSplit(lines, CRLF);
  }

  lemma VersionSplits(target: string)
    requires Free(target, ' ')
    ensures Split(target + " " + VERSION, " ") == [target, VERSION]
  {
    assert Free(VERSION, ' ');
    SplitFree(VERSION, " ");
    SplitAfterFree(target, " ", VERSION);
  }

  /** The request line splits on spaces into the method, the target and the version. */
  lemma RequestLineSplits(verb: string, target: string)
    requires Free(verb, ' ') && Free(target, ' ')
    ensures Split(verb + " " + target + " " + VERSION, " ") == [verb, target, VERSION]
  {
    VersionSplits(target);
    SplitAfterFree(verb, " ", target + " " + VERSION);
    RegroupTail(verb, " ", target, " ", VERSION);
  }

  lemma RequestLineFree(verb: string, target: string)
    requires Free(verb, '\r') && Free(target, '\r')
    ensures Free(verb + " " + target + " " + VERSION, '\r')
  {
    assert Free(VERSION, '\r');
    FreeConcat(verb, " ", '\r');
    FreeConcat(verb + " ", target, '\r');
    FreeConcat(verb + " " + target, " ", '\r');
    FreeConcat(verb + " " + target + " ", VERSION, '\r');
  }

  /**
   * A request built from a method, a target, header lines and a body parses
   * back to the method, the target before its first '?', and the body.
   */
  lemma RequestRoundTrip(verb: string, target: string, headers: seq<string>, body: string)
    requires Free(verb, ' ') && Free(verb, '\r') && Free(target, ' ') && Free(target, '\r')
    requires forall k :: 0 <= k < |headers| ==> |headers[k]| > 0 && Free(headers[k], '\r')
    ensures ParseRequest(RequestText(verb, target, headers, body)) == Request(verb, Before(target, "?"), body)
  {
    var line := verb + " " + target + " " + VERSION;
    var lines := [line] + headers;
    RequestLineFree(verb, target);
    forall k | 0 <= k < |lines|
      ensures Free(lines[k], '\r') && (k >= 1 ==> |lines[k]| > 0)
    {
      if k >= 1 {
        assert lines[k] == headers[k - 1];
      }
    }
    MessageRoundTrip(lines, body);
    RequestLineSplits(verb, target);
  }

  lemma DigitsFree(s: string, c: char)
    requires AllDigits(s) && !IsDigit(c)
    ensures Free(s, c)
  {
  }

  lemma IntToStringFree(i: int)
    ensures Free(IntToString(i), '\r')
  {
    DigitsFree(NatToString(if i < 0 then -i else i), '\r');
  }

  /** The printed Content-Length reads back as the body's UTF-8 length. */
  lemma ContentLengthLine(n: nat)
    ensures Field(["Content-Length: " + NatToString(n), "Connection: close", "Cache-Control: no-cache, no-store"],
                  "Content-Length") == Some(NatToString(n))
    ensures Free("Content-Length: " + NatToString(n), '\r')
    ensures ParseNat(NatToString(n)) == Some(n)
  {
    var line := "Content-Length: " + NatToString(n);
    assert "Content-Length" + ": " == "Content-Length: ";
    assert line[..16] == "Content-Length: ";
    assert line[16..] == NatToString(n);
    DigitsFree(NatToString(n), '\r');
    NatToStringParses(n);
  }

  /** The header lines after Content-Type or Location, looked up by name. */
  lemma TailFields(n: nat)
    ensures var tail := ["Content-Length: " + NatToString(n), "Connection: close", "Cache-Control: no-cache, no-store"];
            && Field(tail, "Content-Length") == Some(NatToString(n))
            && Field(tail, "Location") == None
  {
    var tail := ["Content-Length: " + NatToString(n), "Connection: close", "Cache-Control: no-cache, no-store"];
    ContentLengthLine(n);
    NotStartsWith(tail[0], "Location" + ": ", 0);
    NotStartsWith(tail[1], "Location" + ": ", 0);
    NotStartsWith(tail[2], "Location" + ": ", 0);
    assert Field(tail[2..], "Location") == None by {
      assert tail[2..][1..] == [];
    }
    assert Field(tail[1..], "Location") == None by {
      assert tail[1..][1..] == tail[2..];
    }
  }

  lemma ContentTypeLine(contentType: string, n: nat)
    ensures var hs := ["Content-Type: " + contentType + "; charset=utf-8",
                       "Content-Length: " + NatToString(n), "Connection: close", "Cache-Control: no-cache, no-store"];
            && Field(hs, "Content-Type") == Some(contentType + "; charset=utf-8")
            && Field(hs, "Content-Length") == Some(NatToString(n))
            && Field(hs, "Location") == None
  {
    var line := "Content-Type: " + contentType + "; charset=utf-8";
    var hs := [line, "Content-Length: " + NatToString(n), "Connection: close", "Cache-Control: no-cache, no-store"];
    TailFields(n);
    assert "Content-Type" + ": " == "Content-Type: ";
    assert line[..14] == "Content-Type: ";
    assert line[14..] == contentType + "; charset=utf-8";
    NotStartsWith(line, "Content-Length" + ": ", 8);
    NotStartsWith(line, "Location" + ": ", 0);
    assert hs[1..] == ["Content-Length: " + NatToString(n), "Connection: close", "Cache-Control: no-cache, no-store"];
  }

  lemma LocationLine(location: string, n: nat)
    ensures var hs := ["Location: " + location,
                       "Content-Length: " + NatToString(n), "Connection: close", "Cache-Control: no-cache, no-store"];
            && Field(hs, "Location") == Some(location)
            && Field(hs, "Content-Length") == Some(NatToString(n))
  {
    var line := "Location: " + location;
    var hs := [line, "Content-Length: " + NatToString(n), "Connection: close", "Cache-Control: no-cache, no-store"];
    TailFields(n);
    assert "Location" + ": " == "Location: ";
    assert line[..10] == "Location: ";
    assert line[10..] == location;
    NotStartsWith(line, "Content-Length" + ": ", 0);
    assert hs[1..] == ["Content-Length: " + NatToString(n), "Connection: close", "Cache-Control: no-cache, no-store"];
  }

  lemma ResponseHeadFits(code: int, body: string, contentType: string)
    requires Free(contentType, '\r')
    ensures var head := ResponseHead(code, body, contentType);
            && |head| >= 1
            && (forall k :: 0 <= k < |head| ==> Free(head[k], '\r'))
            && (forall k :: 1 <= k < |head| ==> |head[k]| > 0)
  {
    var n := |Utf8(body)|;
    ContentLengthLine(n);
    StatusLineFree(code);
    ContentTypeFree(contentType);
    LinesFit("HTTP/1.1 " + IntToString(code) + " " + Reason(code),
             "Content-Type: " + contentType + "; charset=utf-8",
             "Content-Length: " + NatToString(n));
  }

  /** The five-line heads of `_response` and `_redirect` fit the message format when their variable lines do. */
  lemma LinesFit(first: string, second: string, third: string)
    requires Free(first, '\r') && Free(second, '\r') && Free(third, '\r')
    requires |second| > 0 && |third| > 0
    ensures var head := [first, second, third, "Connection: close", "Cache-Control: no-cache, no-store"];
            && (forall k :: 0 <= k < |head| ==> Free(head[k], '\r'))
            && (forall k :: 1 <= k < |head| ==> |head[k]| > 0)
  {
    assert Free("Connection: close", '\r');
    assert Free("Cache-Control: no-cache, no-store", '\r');
  }

  lemma StatusLineFree(code: int)
    ensures Free("HTTP/1.1 " + IntToString(code) + " " + Reason(code), '\r')
  {
    IntToStringFree(code);
    var a := "HTTP/1.1 " + IntToString(code);
    FreeConcat("HTTP/1.1 ", IntToString(code), '\r');
    FreeConcat(a, " ", '\r');
    assert Free(Reason(code), '\r');
    FreeConcat(a + " ", Reason(code), '\r');
  }

  lemma ContentTypeFree(contentType: string)
    requires Free(contentType, '\r')
    ensures Free("Content-Type: " + contentType + "; charset=utf-8", '\r')
  {
    FreeConcat("Content-Type: ", contentType, '\r');
    FreeConcat("Content-Type: " + contentType, "; charset=utf-8", '\r');
  }

  lemma RedirectHeadFits(location: string)
    requires Free(location, '\r')
    ensures var head := RedirectHead(location);
            && |head| >= 1
            && (forall k :: 0 <= k < |head| ==> Free(head[k], '\r'))
            && (forall k :: 1 <= k < |head| ==> |head[k]| > 0)
  {
    var n := |Utf8(RedirectBody(location))|;
    ContentLengthLine(n);
    FreeConcat("Location: ", location, '\r');
    assert Free("HTTP/1.1 302 Found", '\r');
    LinesFit("HTTP/1.1 302 Found", "Location: " + location, "Content-Length: " + NatToString(n));
  }

  /**
   * `_response`: a client reads back the status line with the code's reason
   * phrase, the content type, a Content-Length equal to the body's UTF-8
   * length, no Location, and the body verbatim.
   */
  lemma ResponseReadsBack(code: int, body: string, contentType: string)
    requires Free(contentType, '\r')
    ensures var m := Response(code, body, contentType);
            && StatusLine(m) == "HTTP/1.1 " + IntToString(code) + " " + Reason(code)
            && (code != 302 && code != 404 ==> Reason(code) == "OK")
            && Header(m, "Content-Type") == Some(contentType + "; charset=utf-8")
            && ContentLength(m) == Some(|Utf8(body)|)
            && Header(m, "Location") == None
            && BodyOf(m) == body
  {
    var head := ResponseHead(code, body, contentType);
    ResponseHeadFits(code, body, contentType);
    MessageRoundTrip(head, body);
    ContentTypeLine(contentType, |Utf8(body)|);
    assert head[1..] == ["Content-Type: " + contentType + "; charset=utf-8",
                         "Content-Length: " + NatToString(|Utf8(body)|), "Connection: close", "Cache-Control: no-cache, no-store"];
    NatToStringParses(|Utf8(body)|);
  }

  /**
   * `_redirect`: a client reads back "HTTP/1.1 302 Found", a Location equal
   * to the argument, and a Content-Length equal to the generated body's
   * UTF-8 length.
   */
  lemma RedirectReadsBack(location: string)
    requires Free(location, '\r')
    ensures var m := Redirect(location);
            && StatusLine(m) == "HTTP/1.1 302 Found"
            && Header(m, "Location") == Some(location)
            && ContentLength(m) == Some(|Utf8(BodyOf(m))|)
            && BodyOf(m) == RedirectBody(location)
  {
    var body := RedirectBody(location);
    var head := RedirectHead(location);
    RedirectHeadFits(location);
    MessageRoundTrip(head, body);
    LocationLine(location, |Utf8(body)|);
    assert head[1..] == ["Location: " + location,
                         "Content-Length: " + NatToString(|Utf8(body)|), "Connection: close", "Cache-Control: no-cache, no-store"];
    NatToStringParses(|Utf8(body)|);
  }

  // ---------------------------------------------------------------------------
  // handle_request and _handle_login
  // ---------------------------------------------------------------------------

  /** A 200 page: `_response(200, html)` with the default content type. */
  function Page(html: string): string
  {
    Response(200, html, "text/html")
  }

  /** A client reads a page back as "HTTP/1.1 200 OK" with the HTML verbatim. */
  lemma PageReadsBack(html: string)
    ensures StatusLine(Page(html)) == "HTTP/1.1 200 OK" && BodyOf(Page(html)) == html
    ensures ContentLength(Page(html)) == Some(|Utf8(html)|)
  {
    LiteralFree("text/html");
    ResponseReadsBack(200, html, "text/html");
    StatusLine200();
  }

  lemma StatusLine200()
    ensures "HTTP/1.1 " + IntToString(200) + " " + Reason(200) == "HTTP/1.1 200 OK"
  {
    assert IntToString(200) == "200" by {
      assert NatToString(2) == "2";
      assert NatToString(20) == "20";
    }
    assert Reason(200) == "OK";
  }

  /** `_handle_login(body)`: the new session state and the response. */
  function Login(p: Portal, clientIp: string, body: string, now: int, resolve: Resolver, shell: Shell, env: Env): (r: (Portal, string))
    ensures Paired(p) ==> Paired(r.0)
    // a failed login touches no session
    ensures !env.authenticate(env.field(body, "username"), env.field(body, "password")) ==> r.0 == p
  {
    var username := env.field(body, "username");
    var password := env.field(body, "password");
    if env.authenticate(username, password) then
      (Create(p, clientIp, username, now, resolve, shell).0, Redirect("/status"))
    else
      (p, Page(env.loginPage(LOGIN_ERROR)))
  }

  /** `handle_request(raw_request)` for a client at `clientIp`. */
  function Handle(p: Portal, clientIp: string, raw: string, now: int, resolve: Resolver, shell: Shell, env: Env): (r: (Portal, string))
    ensures Paired(p) ==> Paired(r.0)
    // only /logout and a POST to /login can change the session state
    ensures var req := ParseRequest(raw);
            r.0 != p ==> req.path == "/logout" || (req.path == "/login" && req.verb == "POST")
  {
    var req := ParseRequest(raw);
    if req.path in Config.CAPTIVE_DETECTION_PATHS then (p, Redirect(PortalLoginUrl()))
    else if req.path == "/login" then
      if req.verb == "POST" then Login(p, clientIp, req.body, now, resolve, shell, env)
      else (p, Page(env.loginPage("")))
    else if req.path == "/logout" then (End(p, clientIp).0, Redirect("/login"))
    else if req.path == "/status" then
      if clientIp in p.sessions then (p, Page(env.statusPage(p.sessions[clientIp].username)))
      else (p, Redirect("/login"))
    else if clientIp in p.sessions then (p, Redirect("/status"))
    else (p, Redirect("/login"))
  }

  lemma LiteralFree(s: string)
    requires s == "/login" || s == "/status" || s == "text/html" || s == "http://192.168.1.1:80/login"
    ensures Free(s, '\r')
  {
  }

  /** An OS connectivity probe is redirected to the portal's login page, before any session lookup. */
  lemma CaptiveProbeRedirects(p: Portal, clientIp: string, raw: string, now: int, resolve: Resolver, shell: Shell, env: Env)
    requires ParseRequest(raw).path in Config.CAPTIVE_DETECTION_PATHS
    ensures var (q, m) := Handle(p, clientIp, raw, now, resolve, shell, env);
            && q == p
            && StatusLine(m) == "HTTP/1.1 302 Found"
            && Header(m, "Location") == Some("http://192.168.1.1:80/login")
  {
    LiteralFree(PortalLoginUrl());
    RedirectReadsBack(PortalLoginUrl());
  }

  /** `/logout` ends the client's session (if any) and sends it to `/login`. */
  lemma LogoutEndsSession(p: Portal, clientIp: string, raw: string, now: int, resolve: Resolver, shell: Shell, env: Env)
    requires ParseRequest(raw).path == "/logout"
    ensures var (q, m) := Handle(p, clientIp, raw, now, resolve, shell, env);
            && q == End(p, clientIp).0
            && clientIp !in q.sessions
            && Header(m, "Location") == Some("/login")
  {
    assert "/logout" !in Config.CAPTIVE_DETECTION_PATHS;
    LiteralFree("/login");
    RedirectReadsBack("/login");
  }

  /** `/status` shows the status page to a client with a session and sends any other to `/login`. */
  lemma StatusRoute(p: Portal, clientIp: string, raw: string, now: int, resolve: Resolver, shell: Shell, env: Env)
    requires ParseRequest(raw).path == "/status"
    ensures var (q, m) := Handle(p, clientIp, raw, now, resolve, shell, env);
            && q == p
            && (clientIp in p.sessions ==>
                  StatusLine(m) == "HTTP/1.1 200 OK" && BodyOf(m) == env.statusPage(p.sessions[clientIp].username))
            && (clientIp !in p.sessions ==> Header(m, "Location") == Some("/login"))
  {
    assert "/status" !in Config.CAPTIVE_DETECTION_PATHS;
    LiteralFree("/login");
    if clientIp in p.sessions {
      PageReadsBack(env.statusPage(p.sessions[clientIp].username));
    } else {
      RedirectReadsBack("/login");
    }
  }

  /** Any other path goes to `/status` exactly when the client is authenticated, and to `/login` otherwise. */
  lemma DefaultRoute(p: Portal, clientIp: string, raw: string, now: int, resolve: Resolver, shell: Shell, env: Env)
    requires var path := ParseRequest(raw).path;
             path !in Config.CAPTIVE_DETECTION_PATHS && path != "/login" && path != "/logout" && path != "/status"
    ensures var (q, m) := Handle(p, clientIp, raw, now, resolve, shell, env);
            && q == p
            && (Header(m, "Location") == Some("/status") <==> clientIp in p.sessions)
            && (Header(m, "Location") == Some("/login") <==> clientIp !in p.sessions)
  {
    LiteralFree("/login");
    LiteralFree("/status");
    RedirectReadsBack("/login");
    RedirectReadsBack("/status");
  }

  /** Any method other than POST on `/login` shows the empty login form. */
  lemma LoginForm(p: Portal, clientIp: string, raw: string, now: int, resolve: Resolver, shell: Shell, env: Env)
    requires ParseRequest(raw).path == "/login" && ParseRequest(raw).verb != "POST"
    ensures var (q, m) := Handle(p, clientIp, raw, now, resolve, shell, env);
            && q == p && StatusLine(m) == "HTTP/1.1 200 OK" && BodyOf(m) == env.loginPage("")
  {
    assert "/login" !in Config.CAPTIVE_DETECTION_PATHS;
    PageReadsBack(env.loginPage(""));
  }

  /**
   * A POST to `/login` with good credentials creates the session and sends
   * the client to `/status`, even when `create_session` fails; bad
   * credentials leave every session alone and show the form with the error.
   */
  lemma LoginPost(p: Portal, clientIp: string, raw: string, now: int, resolve: Resolver, shell: Shell, env: Env)
    requires ParseRequest(raw).path == "/login" && ParseRequest(raw).verb == "POST"
    ensures var body := ParseRequest(raw).body;
            var username := env.field(body, "username");
            var (q, m) := Handle(p, clientIp, raw, now, resolve, shell, env);
            if env.authenticate(username, env.field(body, "password")) then
              && q == Create(p, clientIp, username, now, resolve, shell).0
              && Header(m, "Location") == Some("/status")
            else
              && q == p
              && StatusLine(m) == "HTTP/1.1 200 OK"
              && BodyOf(m) == env.loginPage(LOGIN_ERROR)
  {
    assert "/login" !in Config.CAPTIVE_DETECTION_PATHS;
    LiteralFree("/status");
    RedirectReadsBack("/status");
    PageReadsBack(env.loginPage(LOGIN_ERROR));
  }

  // ---------------------------------------------------------------------------
  // The handler object
  // ---------------------------------------------------------------------------

  class RequestHandler {
    const sessionManager: SessionManager
    const clientIp: string

    constructor (sessionManager: SessionManager, clientIp: string)
      ensures this.sessionManager == sessionManager && this.clientIp == clientIp
    {
      this.sessionManager := sessionManager;
      this.clientIp := clientIp;
    }

    method HandleLogin(body: string, now: int, resolve: Resolver, shell: Shell, env: Env) returns (response: string)
      modifies sessionManager, sessionManager.firewall
      ensures (sessionManager.Model(), response) == Login(old(sessionManager.Model()), clientIp, body, now, resolve, shell, env)
      ensures sessionManager.running == old(sessionManager.running)
    {
      var username := env.field(body, "username");
      var password := env.field(body, "password");
      if env.authenticate(username, password) {
        var created := sessionManager.CreateSession(clientIp, username, now, resolve, shell);
        return Redirect("/status");
      }
      response := Page(env.loginPage(LOGIN_ERROR));
    }

    method HandleRequest(raw: string, now: int, resolve: Resolver, shell: Shell, env: Env) returns (response: string)
      modifies sessionManager, sessionManager.firewall
      ensures (sessionManager.Model(), response) == Handle(old(sessionManager.Model()), clientIp, raw, now, resolve, shell, env)
      ensures sessionManager.running == old(sessionManager.running)
    {
      var req := ParseRequest(raw);
      if req.path in Config.CAPTIVE_DETECTION_PATHS {
        return Redirect(PortalLoginUrl());
      }
      if req.path == "/login" {
        if req.verb == "POST" {
          response := HandleLogin(req.body, now, resolve, shell, env);
          return;
        }
        return Page(env.loginPage(""));
      }
      if req.path == "/logout" {
        var ended := sessionManager.EndSession(clientIp, shell);
        return Redirect("/login");
      }
      if req.path == "/status" {
        var session := sessionManager.GetSession(clientIp);
        if session.Some? {
          return Page(env.statusPage(session.value.username));
        }
        return Redirect("/login");
      }
      if sessionManager.IsAuthenticated(clientIp) {
        return Redirect("/status");
      }
      response := Redirect("/login");
    }
  }
}
