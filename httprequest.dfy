/// Model of the incremental HTTP request parser (code/http/httprequest.h,
/// code/http/httprequest.cpp).
///
/// The parser is a four-state machine that consumes the read buffer one CRLF-terminated
/// line at a time.  The pure part (`LineStep`, `ParseLines`, `ParseBuffer`) states what one
/// call of `parse` does to the request and to the unread bytes; the class `HttpRequest`
/// holds the same fields as the source and its methods are proved against those functions.
///
/// The user database behind `UserVerify` is a parameter: a `Verifier` answers whether a
/// name and password are accepted for a login or a registration.

module HttpRequests {

  import opened Wrappers
  import opened HttpGrammar
  import Buffers

  /** `PARSE_STATE`, in the order the parser goes through them. */
  datatype ParseState = RequestLine | Headers | Body | Finish

  /** The position of a state in the order REQUEST_LINE, HEADERS, BODY, FINISH. */
  function Rank(s: ParseState): nat
  {
    match s
    case RequestLine => 0
    case Headers => 1
    case Body => 2
    case Finish => 3
  }

  /** The fields of a request: the parse state, the request-line parts, the body, and the
      header and form maps (one value per key). */
  datatype Request = Request(
    state: ParseState,
    verb: string, path: string, version: string, body: string,
    header: map<string, string>,
    post: map<string, string>)

  /** The request `Init` produces: every string empty, both maps empty, at the request line. */
  const Fresh: Request := Request(RequestLine, "", "", "", "", map[], map[])

  /** The credential store: whether `name` and `pwd` are accepted, for a login when the flag
      is set and for a registration otherwise. */
  type Verifier = (string, string, bool) -> bool

  /** `UserVerify`: an empty name or password is refused before the store is asked. */
  function UserVerify(store: Verifier, name: string, pwd: string, isLogin: bool): (ok: bool)
    ensures ok ==> name != "" && pwd != ""
    ensures name != "" && pwd != "" ==> ok == store(name, pwd, isLogin)
  {
    if name == "" || pwd == "" then false else store(name, pwd, isLogin)
  }

  /** `IsKeepAlive`: the client asked to keep the connection and speaks HTTP/1.1. */
  function KeepAlive(r: Request): bool
  {
    "Connection" in r.header && r.header["Connection"] == "keep-alive" && r.version == "1.1"
  }

  /** `map::operator[]` used for reading: a missing key is inserted with an empty value. */
  function Touch(m: map<string, string>, k: string): (r: map<string, string>)
    ensures k in r && r[k] == (if k in m then m[k] else "")
    ensures forall x :: x in m ==> x in r && r[x] == m[x]
    ensures r.Keys == m.Keys + {k}
  {
    if k in m then m else m[k := ""]
  }

  /** The form pages' outcome: a verified user goes to the welcome page, anyone else to the
      error page. */
  function Verdict(store: Verifier, post: map<string, string>, path: string): (r: (map<string, string>, string))
    requires path in DefaultHtmlTag
  {
    var post' := Touch(Touch(post, "username"), "password");
    var isLogin := DefaultHtmlTag[path] == 1;
    if UserVerify(store, post'["username"], post'["password"], isLogin)
    then (post', "/welcome.html") else (post', "/error.html")
  }

  /** `ParsePost_`: only a POST reads the Content-Type header (inserting it empty when it is
      missing); a form-urlencoded body is decoded into `post`, and a form page's path becomes
      the outcome of the user check. */
  function PostEffect(r: Request, store: Verifier): Request
  {
    if r.verb != "POST" then r
    else
      var header := Touch(r.header, "Content-Type");
      if header["Content-Type"] != "application/x-www-form-urlencoded" then r.(header := header)
      else
        var (body, post) := Urlencoded(r.body, r.post);
        if r.path !in DefaultHtmlTag then r.(header := header, body := body, post := post)
        else
          var (post', path) := Verdict(store, post, r.path);
          r.(header := header, body := body, post := post', path := path)
  }

  /** One iteration of the parse loop on `line`, the unread bytes up to the first CRLF, while
      `readable` bytes are unread: `None` when the request line does not match. */
  function LineStep(r: Request, line: string, readable: nat, store: Verifier): Option<Request>
  {
    match r.state
    case RequestLine =>
      (match MatchRequestLine(line)
       case None => None
       case Some(sl) =>
         Some(r.(verb := sl.verb, path := RewritePath(sl.path), version := sl.version, state := Headers)))
    case Headers =>
      var r' := match MatchHeader(line)
                case Some(kv) => r.(header := r.header[kv.0 := kv.1])
                case None => r.(state := Body);
      Some(if readable <= 2 then r'.(state := Finish) else r')
    case Body => Some(PostEffect(r.(body := line), store).(state := Finish))
    case Finish => Some(r)
  }

  /** What a run of the parse loop leaves: the verdict `parse` returns, the request and the
      unread bytes. */
  datatype Outcome = Outcome(ok: bool, req: Request, rest: string)

  /** The parse loop from request `r` over the unread bytes `data`: each iteration handles the
      line before the first CRLF and consumes it with the CRLF; a line without a CRLF is
      handled but left unread, and ends the loop. */
  function ParseLines(r: Request, data: string, store: Verifier): Outcome
    decreases |data|
  {
    if |data| == 0 || r.state == Finish then Outcome(true, r, data)
    else
      var e := FindCrlf(data);
      match LineStep(r, data[..e], |data|, store)
      case None => Outcome(false, r, data)
      case Some(r') => if e == |data| then Outcome(true, r', data) else ParseLines(r', data[e + 2..], store)
  }

  /** `parse`: an empty buffer is refused outright. */
  function ParseBuffer(r: Request, data: string, store: Verifier): Outcome
  {
    if |data| == 0 then Outcome(false, r, data) else ParseLines(r, data, store)
  }

  // ---------------------------------------------------------------------------
  // Properties of the parser
  // ---------------------------------------------------------------------------

  /** A step never moves the state backwards, and it stays put only on a header line that
      matched while more than two bytes were unread (or in FINISH, which the loop never
      steps from). */
  lemma LineStepForward(r: Request, line: string, readable: nat, store: Verifier)
    requires LineStep(r, line, readable, store).Some?
    ensures var r' := LineStep(r, line, readable, store).value;
            && Rank(r'.state) >= Rank(r.state)
            && (r'.state == r.state <==>
                  r.state == Finish || (r.state == Headers && MatchHeader(line).Some? && readable > 2))
  {
  }

  /** A header line that matches sets its key to its value, replacing any earlier value. */
  lemma HeaderLineStored(r: Request, line: string, readable: nat, store: Verifier, key: string, value: string)
    requires r.state == Headers && IsHeaderLine(line, key, value)
    ensures var r' := LineStep(r, line, readable, store).value;
            && r'.header == r.header[key := value]
            && r'.state == (if readable <= 2 then Finish else Headers)
  {
    MatchHeaderComplete(line, key, value);
  }

  /** One iteration of the loop, given what handling the first line gave: `handled` and the
      request `r'` it left. */
  lemma ParseLinesOnce(r: Request, data: string, store: Verifier, handled: bool, r': Request)
    requires |data| > 0 && r.state != Finish
    requires handled <==> LineStep(r, data[..FindCrlf(data)], |data|, store).Some?
    requires handled ==> r' == LineStep(r, data[..FindCrlf(data)], |data|, store).value
    requires !handled ==> r' == r
    ensures var e := FindCrlf(data);
            ParseLines(r, data, store)
            == if handled && e < |data| then ParseLines(r', data[e + 2..], store) else Outcome(handled, r', data)
  {
  }

  /** Once past the request line the loop cannot fail. */
  lemma {:induction false} ParseLinesPastRequestLine(r: Request, data: string, store: Verifier)
    requires r.state != RequestLine
    ensures ParseLines(r, data, store).ok
    decreases |data|
  {
    if |data| > 0 && r.state != Finish {
      var e := FindCrlf(data);
      var r' := LineStep(r, data[..e], |data|, store).value;
      LineStepForward(r, data[..e], |data|, store);
      if e < |data| {
        ParseLinesPastRequestLine(r', data[e + 2..], store);
      }
    }
  }

  /** `parse` fails exactly on an empty buffer or a first line that is not a request line,
      and then it changes neither the request nor the buffer. */
  lemma ParseBufferFails(r: Request, data: string, store: Verifier)
    ensures var o := ParseBuffer(r, data, store);
            && (!o.ok <==> |data| == 0
                           || (r.state == RequestLine && MatchRequestLine(data[..FindCrlf(data)]).None?))
            && (!o.ok ==> o.req == r && o.rest == data)
  {
    if |data| > 0 {
      if r.state == RequestLine && MatchRequestLine(data[..FindCrlf(data)]).None? {
        ParseBufferRefused(r, data, store);
      } else {
        ParseBufferAccepted(r, data, store);
      }
    }
  }

  /** A failed `parse` changes neither the request nor the buffer. */
  lemma ParseBufferFailureKeeps(r: Request, data: string, store: Verifier)
    ensures var o := ParseBuffer(r, data, store);
            !o.ok ==> o.req == r && o.rest == data
  {
    ParseBufferFails(r, data, store);
  }

  /** A first line that is not a request line stops `parse` before it changes anything. */
  lemma ParseBufferRefused(r: Request, data: string, store: Verifier)
    requires |data| > 0 && r.state == RequestLine && MatchRequestLine(data[..FindCrlf(data)]).None?
    ensures ParseBuffer(r, data, store) == Outcome(false, r, data)
  {
    assert LineStep(r, data[..FindCrlf(data)], |data|, store).None?;
  }

  /** A non-empty buffer whose first line, if one is due, is a request line is parsed
      successfully. */
  lemma ParseBufferAccepted(r: Request, data: string, store: Verifier)
    requires |data| > 0 && !(r.state == RequestLine && MatchRequestLine(data[..FindCrlf(data)]).None?)
    ensures ParseBuffer(r, data, store).ok
  {
    if r.state != RequestLine {
      ParseLinesPastRequestLine(r, data, store);
    } else {
      var e := FindCrlf(data);
      var r' := LineStep(r, data[..e], |data|, store).value;
      ParseLinesOnce(r, data, store, true, r');
      LineStepForward(r, data[..e], |data|, store);
      if e < |data| {
        ParseLinesPastRequestLine(r', data[e + 2..], store);
      }
    }
  }

  /** The loop only consumes a prefix of the unread bytes, never moves the state backwards,
      and, unless it reached FINISH, stops with no complete line left unread. */
  lemma {:induction false} ParseLinesConsumes(r: Request, data: string, store: Verifier)
    ensures var o := ParseLines(r, data, store);
            && |o.rest| <= |data| && o.rest == data[|data| - |o.rest|..]
            && Rank(o.req.state) >= Rank(r.state)
            && (o.ok && o.req.state != Finish ==> FindCrlf(o.rest) == |o.rest|)
    decreases |data|
  {
    if |data| > 0 && r.state != Finish {
      var e := FindCrlf(data);
      match LineStep(r, data[..e], |data|, store)
      case None =>
      case Some(r') =>
        LineStepForward(r, data[..e], |data|, store);
        if e < |data| {
          var tail := data[e + 2..];
          ParseLinesConsumes(r', tail, store);
          var o := ParseLines(r', tail, store);
          assert ParseLines(r, data, store) == o;
          TailOfTail(data, e + 2, |o.rest|);
        }
    }
  }

  /** A suffix of a suffix of `s` is a suffix of `s`. */
  lemma TailOfTail(s: string, k: nat, n: nat)
    requires k <= |s| && n <= |s| - k
    ensures s[k..][|s| - k - n..] == s[|s| - n..]
  {
  }

  // ---------------------------------------------------------------------------
  // Properties of the form handling
  // ---------------------------------------------------------------------------

  /** Only a POST with a form-urlencoded body touches the body, the form or the path; any
      other request gains at most an empty Content-Type header. */
  lemma PostEffectScope(r: Request, store: Verifier)
    ensures var r' := PostEffect(r, store);
            && r'.state == r.state && r'.verb == r.verb && r'.version == r.version
            && (r.verb != "POST" ==> r' == r)
            && (r.verb == "POST" && !("Content-Type" in r.header && r.header["Content-Type"] == "application/x-www-form-urlencoded")
                ==> r' == r.(header := Touch(r.header, "Content-Type")))
  {
  }

  /** A form posted to the login or register page lands on the welcome page exactly when the
      store accepts its non-empty user name and password, and on the error page otherwise. */
  lemma FormPageVerdict(r: Request, store: Verifier)
    requires r.verb == "POST" && "Content-Type" in r.header
    requires r.header["Content-Type"] == "application/x-www-form-urlencoded"
    requires r.path in DefaultHtmlTag
    ensures var post := Urlencoded(r.body, r.post).1;
            var name := if "username" in post then post["username"] else "";
            var pwd := if "password" in post then post["password"] else "";
            var r' := PostEffect(r, store);
            && r'.path in {"/welcome.html", "/error.html"}
            && (r'.path == "/welcome.html" <==>
                  name != "" && pwd != "" && store(name, pwd, r.path == "/login.html"))
            && r'.post.Keys == post.Keys + {"username", "password"}
  {
  }

  /** A form to a page other than the two form pages is decoded but does not change the path. */
  lemma FormElsewhereKeepsPath(r: Request, store: Verifier)
    requires r.verb == "POST" && "Content-Type" in r.header
    requires r.header["Content-Type"] == "application/x-www-form-urlencoded"
    requires r.path !in DefaultHtmlTag
    ensures PostEffect(r, store) == r.(body := Urlencoded(r.body, r.post).0, post := Urlencoded(r.body, r.post).1)
  {
  }

  // ---------------------------------------------------------------------------
  // The request object
  // ---------------------------------------------------------------------------

  class HttpRequest {
    var state: ParseState
    var verb: string
    var path: string
    var version: string
    var body: string
    var header: map<string, string>
    var post: map<string, string>

    /** The fields as a value. */
    function Value(): Request
      reads this
    {
      Request(state, verb, path, version, body, header, post)
    }

    /** The constructor runs `Init`. */
    constructor ()
      ensures Value() == Fresh
    {
      state, verb, path, version, body := RequestLine, "", "", "", "";
      header, post := map[], map[];
    }

    /** Empties every field and goes back to the request line. */
    method Init()
      modifies this
      ensures Value() == Fresh
    {
      verb, path, version, body := "", "", "", "";
      state := RequestLine;
      header := map[];
      post := map[];
    }

    /** Whether the connection is to be kept open after the response. */
    function IsKeepAlive(): (b: bool)
      reads this
      ensures b <==> KeepAlive(Value())
    {
      if "Connection" in header then header["Connection"] == "keep-alive" && version == "1.1"
      else false
    }

    /** The form value of a non-empty key, or "" when the form does not have it. */
    function GetPost(key: string): (v: string)
      reads this
      requires key != ""
      ensures key in post ==> v == post[key]
      ensures key !in post ==> v == ""
    {
      if key in post then post[key] else ""
    }

    /** `ParseRequestLine_`: on a match, takes the three parts and moves to the headers;
        otherwise changes nothing. */
    method ParseRequestLine(line: string) returns (ok: bool)
      modifies this
      ensures ok <==> MatchRequestLine(line).Some?
      ensures ok ==> var sl := MatchRequestLine(line).value;
                     Value() == old(Value()).(verb := sl.verb, path := sl.path, version := sl.version, state := Headers)
      ensures !ok ==> Value() == old(Value())
    {
      match MatchRequestLine(line)
      case None =>
        ok := false;
      case Some(sl) =>
        verb, path, version := sl.verb, sl.path, sl.version;
        state := Headers;
        ok := true;
    }

    /** `ParsePath_`. */
    method ParsePath()
      modifies this
      ensures Value() == old(Value()).(path := RewritePath(old(path)))
    {
      if path == "/" {
        path := "/index.html";
      } else if path in DefaultHtml {
        path := path + ".html";
      }
    }

    /** `ParseHeader_`: a matching line sets its header, any other line ends the headers. */
    method ParseHeader(line: string)
      modifies this
      ensures match MatchHeader(line)
              case Some(kv) => Value() == old(Value()).(header := old(header)[kv.0 := kv.1])
              case None => Value() == old(Value()).(state := Body)
    {
      match MatchHeader(line)
      case Some(kv) =>
        header := header[kv.0 := kv.1];
      case None =>
        state := Body;
    }

    /** `ParseBody_`: the line is the body; the form is handled and parsing is finished. */
    method ParseBody(line: string, store: Verifier)
      modifies this
      ensures Value() == PostEffect(old(Value()).(body := line), store).(state := Finish)
    {
      body := line;
      ParsePost(store);
      state := Finish;
    }

    /** `ParsePost_`. */
    method ParsePost(store: Verifier)
      modifies this
      ensures Value() == PostEffect(old(Value()), store)
    {
      if verb == "POST" {
        header := Touch(header, "Content-Type");
        if header["Content-Type"] == "application/x-www-form-urlencoded" {
          ParseFromUrlencoded();
          if path in DefaultHtmlTag {
            var tag := DefaultHtmlTag[path];
            if tag == 0 || tag == 1 {
              var isLogin := tag == 1;
              post := Touch(Touch(post, "username"), "password");
              if UserVerify(store, post["username"], post["password"], isLogin) {
                path := "/welcome.html";
              } else {
                path := "/error.html";
              }
            }
          }
        }
      }
    }

    /** `ParseFromUrlencoded_`: rewrites the body in place and adds its fields to the form, as
        the decoder `Urlencoded` does. */
    method ParseFromUrlencoded()
      modifies this
      ensures Value() == old(Value()).(body := Urlencoded(old(body), old(post)).0, post := Urlencoded(old(body), old(post)).1)
    {
      if |body| == 0 {
        return;
      }
      ghost var start := FormState(body, 0, 0, "", post);
      var key := "";
      var i: nat, j: nat := 0, 0;
      while i < |body|
        invariant j <= i <= |body| == |start.body|
        invariant FormRun(FormState(body, i, j, key, post), true) == FormRun(start, true)
        invariant state == old(state) && verb == old(verb) && path == old(path)
        invariant version == old(version) && header == old(header)
        decreases |body| - i
      {
        ghost var before := FormState(body, i, j, key, post);
        i, j, key := DecodeStep(i, j, key);
        assert FormStep(before, true) == Some(FormState(body, i, j, key, post));
      }
      assert FormRun(FormState(body, i, j, key, post), true) == Some(FormState(body, i, j, key, post));
      if key !in post && j < i {
        post := post[key := body[j..i]];
      }
    }

    /** One iteration of the decoding loop of `ParseFromUrlencoded_`, on the body and the
        form in place; `i`, `j` and `key` are the loop's locals. */
    method DecodeStep(i: nat, j: nat, key: string) returns (i': nat, j': nat, key': string)
      requires j <= i < |body|
      modifies this
      ensures FormStep(FormState(old(body), i, j, key, old(post)), true) == Some(FormState(body, i', j', key', post))
      ensures state == old(state) && verb == old(verb) && path == old(path)
      ensures version == old(version) && header == old(header)
    {
      i', j', key' := i, j, key;
      match body[i] {
        case '=' =>
          key' := body[j..i];
          j' := i + 1;
        case '+' =>
          body := body[i := ' '];
        case '%' =>
          if i + 2 < |body| {
            var num := ConverHex(body[i + 1]) * 16 + ConverHex(body[i + 2]);
            body := body[i + 2 := ByteChar(CMod(num, 10) + '0' as int)];
            body := body[i + 1 := ByteChar(CDiv(num, 10) + '0' as int)];
            i' := i + 2;
          }
        case '&' =>
          post := post[key := body[j..i]];
          j' := i + 1;
        case _ =>
      }
      i' := i' + 1;
    }

    /** The `switch` in the body of the parse loop: handles one line while `readable` bytes
        are unread, and reports a request line that does not match. */
    method HandleLine(line: string, readable: nat, store: Verifier) returns (ok: bool)
      modifies this
      ensures ok <==> LineStep(old(Value()), line, readable, store).Some?
      ensures ok ==> Value() == LineStep(old(Value()), line, readable, store).value
      ensures !ok ==> Value() == old(Value())
    {
      ok := true;
      match state {
        case RequestLine =>
          ok := ParseRequestLine(line);
          if ok {
            ParsePath();
          }
        case Headers =>
          ParseHeader(line);
          if readable <= 2 {
            state := Finish;
          }
        case Body =>
          ParseBody(line, store);
        case Finish =>
      }
    }

    /** One iteration of the loop of `parse`: handles the line before the first CRLF of the
        unread bytes and, when the CRLF is there, consumes the line with it.  `more` says
        whether the loop goes on; otherwise the run ends here, with the verdict `handled`. */
    method ParseOne(buff: Buffers.Buffer, store: Verifier) returns (handled: bool, more: bool)
      requires buff.Valid() && buff.ReadableBytes() > 0 && state != Finish
      modifies this, buff
      ensures buff.Valid() && buff.storage == old(buff.storage) && buff.writePos == old(buff.writePos)
      ensures more ==> handled && buff.ReadableBytes() < old(buff.ReadableBytes())
      ensures ParseLines(old(Value()), old(buff.Unread()), store)
              == if more then ParseLines(Value(), buff.Unread(), store) else Outcome(handled, Value(), buff.Unread())
    {
      var data := buff.Unread();
      ghost var r := Value();
      var e := FindCrlf(data);
      var line := data[..e];
      handled := HandleLine(line, |data|, store);
      ParseLinesOnce(r, data, store, handled, Value());
      more := handled && e < |data|;
      if more {
        buff.RetrieveUntil(buff.readPos + e + 2);
        assert buff.Unread() == data[e + 2..];
      }
    }

    /** `parse`: runs the loop over the unread bytes of `buff`, consuming each handled line
        with its CRLF, as `ParseBuffer` says. */
    method Parse(buff: Buffers.Buffer, store: Verifier) returns (ok: bool)
      requires buff.Valid()
      modifies this, buff
      ensures buff.Valid() && buff.storage == old(buff.storage) && buff.writePos == old(buff.writePos)
      ensures ParseBuffer(old(Value()), old(buff.Unread()), store) == Outcome(ok, Value(), buff.Unread())
    {
      if buff.ReadableBytes() <= 0 {
        return false;
      }
      while buff.ReadableBytes() > 0 && state != Finish
        invariant buff.Valid() && buff.storage == old(buff.storage) && buff.writePos == old(buff.writePos)
        invariant ParseLines(Value(), buff.Unread(), store) == ParseLines(old(Value()), old(buff.Unread()), store)
        decreases buff.ReadableBytes()
      {
        var handled, more := ParseOne(buff, store);
        if !handled {
          return false;
        }
        if !more {
          break;
        }
      }
      ok := true;
    }
  }
}
