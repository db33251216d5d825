/**
 * lighttpd2's request object and its validator (src/request.c), in place:
 * a `Request` owns its URI buffers and a header store, a `Connection` owns
 * the request plus the keep-alive flag, the response status and the
 * 100-continue flag.  request_validate_header runs its checks with early
 * returns; it is proved to leave the connection exactly as RequestSpec.Validate
 * says, so every property proved about Validate holds of it.
 */
module HttpRequest {
  import opened Wrappers
  import opened Ascii
  import opened HeaderSpec
  import opened HttpHeaders
  import opened RequestSpec

  class Request {
    var httpMethod: HttpMethod
    var httpMethodStr: string
    var httpVersion: HttpVersion
    var uri: Uri
    var headers: Headers
    var contentLength: int

    /** request_init: nothing parsed yet, a new empty header store, no length (-1). */
    constructor ()
      ensures httpMethod == MethodUnset && httpMethodStr == "" && httpVersion == VersionUnset
      ensures uri == EmptyUri && contentLength == -1
      ensures fresh(headers) && headers.Valid() && headers.entries == [] && headers.refcount == 1
    {
      httpMethod := MethodUnset;
      httpMethodStr := "";
      httpVersion := VersionUnset;
      uri := EmptyUri;
      headers := new Headers();
      contentLength := -1;
    }

    /**
     * request_reset: the fields go back to their initial values; the header
     * store is reset through http_headers_try_reset, so a store shared with
     * another owner is left to it and replaced by a new one.
     */
    method Reset()
      requires headers.refcount > 0
      modifies this, headers
      ensures httpMethod == MethodUnset && httpMethodStr == "" && httpVersion == VersionUnset
      ensures uri == EmptyUri && contentLength == -1
      ensures headers.Valid() && headers.entries == [] && headers.refcount == 1
      ensures old(headers.refcount) == 1 ==> headers == old(headers)
      ensures old(headers.refcount) > 1 ==>
        && fresh(headers)
        && old(headers).refcount == old(headers.refcount) - 1
        && old(headers).entries == old(headers.entries)
    {
      httpMethod := MethodUnset;
      httpMethodStr := "";
      httpVersion := VersionUnset;
      uri := EmptyUri;
      headers := headers.TryReset();
      contentLength := -1;
    }
  }

  /** A check's outcome as the connection sees it: bad_request applied when it failed. */
  ghost function Answer(st: Step): State {
    match st
    case Next(t) => t
    case Fail(t, code) => RequestSpec.BadRequest(t, code)
  }

  /** The checks as request_validate_header makes them, one early return after another. */
  ghost function Chained(m: HttpMethod, v: HttpVersion, es: seq<Header>, s: State, f: Collaborators): Step {
    var s1 :- CheckVersion(v, es, s);
    var s2 :- CheckRawUri(s1);
    var s3 :- CheckHost(es, s2, f);
    var s4 :- CheckHostRequired(v, s3);
    var s5 :- CheckUrl(m, s4, f);
    var s6 :- CheckContentLength(es, s5, f);
    var s7 :- CheckExpect(v, es, s6);
    CheckMethod(m, s7)
  }

  /** One check at position k, then the checks after it. */
  lemma RunChecksAt(k: nat, m: HttpMethod, v: HttpVersion, es: seq<Header>, s: State, f: Collaborators)
    requires k < |Checks|
    ensures RunChecks(Checks[k..], m, v, es, s, f)
      == match Apply(Checks[k], m, v, es, s, f)
         case Fail(t, code) => Fail(t, code)
         case Next(t) => RunChecks(Checks[k + 1..], m, v, es, t, f)
  {
    assert Checks[k..][0] == Checks[k] && Checks[k..][1..] == Checks[k + 1..];
  }

  /** The last three checks of the list, as the early-return chain makes them. */
  lemma BackIsRun(m: HttpMethod, v: HttpVersion, es: seq<Header>, s5: State, f: Collaborators)
    ensures RunChecks(Checks[5..], m, v, es, s5, f)
      == (var s6 :- CheckContentLength(es, s5, f);
          var s7 :- CheckExpect(v, es, s6);
          CheckMethod(m, s7))
  {
    RunChecksAt(5, m, v, es, s5, f);
    var s6 := CheckContentLength(es, s5, f);
    if s6.Next? {
      RunChecksAt(6, m, v, es, s6.state, f);
      var s7 := CheckExpect(v, es, s6.state);
      if s7.Next? {
        RunChecksAt(7, m, v, es, s7.state, f);
        assert Checks[8..] == [];
      }
    }
  }

  /** The host, host-required and URL checks and the rest, as the early-return chain makes them. */
  lemma MiddleIsRun(m: HttpMethod, v: HttpVersion, es: seq<Header>, s2: State, f: Collaborators)
    ensures RunChecks(Checks[2..], m, v, es, s2, f)
      == (var s3 :- CheckHost(es, s2, f);
          var s4 :- CheckHostRequired(v, s3);
          var s5 :- CheckUrl(m, s4, f);
          var s6 :- CheckContentLength(es, s5, f);
          var s7 :- CheckExpect(v, es, s6);
          CheckMethod(m, s7))
  {
    RunChecksAt(2, m, v, es, s2, f);
    var s3 := CheckHost(es, s2, f);
    if s3.Next? {
      RunChecksAt(3, m, v, es, s3.state, f);
      var s4 := CheckHostRequired(v, s3.state);
      if s4.Next? {
        RunChecksAt(4, m, v, es, s4.state, f);
        var s5 := CheckUrl(m, s4.state, f);
        if s5.Next? {
          BackIsRun(m, v, es, s5.state, f);
        }
      }
    }
  }

  /** The early-return chain is the rule list's run. */
  lemma ChainedIsRun(m: HttpMethod, v: HttpVersion, es: seq<Header>, s: State, f: Collaborators)
    ensures Chained(m, v, es, s, f) == Run(m, v, es, s, f)
  {
    assert Checks[0..] == Checks;
    RunChecksAt(0, m, v, es, s, f);
    var s1 := CheckVersion(v, es, s);
    if s1.Next? {
      RunChecksAt(1, m, v, es, s1.state, f);
      var s2 := CheckRawUri(s1.state);
      if s2.Next? {
        MiddleIsRun(m, v, es, s2.state, f);
      }
    }
  }

  class Connection {
    var keepAlive: bool
    var status: Option<int>
    var expect100Cont: bool
    const request: Request

    /** A connection that has not answered yet, for a parsed request `r`. */
    constructor (r: Request)
      ensures request == r && keepAlive && status.None? && !expect100Cont
    {
      request := r;
      keepAlive := true;
      status := None;
      expect100Cont := false;
    }

    /** The fields the validator reads and writes, as a RequestSpec state. */
    function Snapshot(): State
      reads this, request
    {
      State(keepAlive, status, expect100Cont, request.uri, request.contentLength)
    }

    /** bad_request: close the connection after answering with `code`. */
    method BadRequest(code: int)
      modifies this`keepAlive, this`status
      ensures Snapshot() == RequestSpec.BadRequest(old(Snapshot()), code)
    {
      keepAlive := false;
      status := Some(code);
    }

    /** request_parse_url, on the request's URI buffers as ParseUrlSpec describes. */
    method ParseUrl(f: Collaborators) returns (ok: bool)
      modifies request`uri
      ensures var st := ParseUrlSpec(request.httpMethod, old(request.uri), f);
        ok == st.ok && request.uri == st.uri
    {
      request.uri := request.uri.(query := "");
      request.uri := request.uri.(path := "");
      var st := f.parseRawUrl(request.uri);
      request.uri := st.uri;
      if !st.ok {
        return false;
      }
      if request.uri.path == "*" && request.httpMethod != Options {
        return false;
      }
      request.uri := request.uri.(path := f.urlDecode(request.uri.path));
      request.uri := request.uri.(path := f.pathSimplify(request.uri.path));
      return true;
    }

    /**
     * request_validate_header.  Each section of the C function is one of the
     * methods below, which answers with bad_request itself when its check
     * fails and reports whether the checks go on; the C function's early
     * return is the return after a section that did not pass.
     */
    method ValidateHeader(f: Collaborators)
      requires request.headers.Valid()
      modifies this`keepAlive, this`status, this`expect100Cont, request`uri, request`contentLength
      ensures Snapshot() == Validate(request.httpMethod, request.httpVersion, request.headers.entries, old(Snapshot()), f)
    {
      ChainedIsRun(request.httpMethod, request.httpVersion, request.headers.entries, Snapshot(), f);
      var ok := ValidateVersion();
      if !ok { return; }
      ok := ValidateRawUri();
      if !ok { return; }
      ok := ValidateHost(f);
      if !ok { return; }
      ok := ValidateHostRequired();
      if !ok { return; }
      ok := ValidateUrl(f);
      if !ok { return; }
      ok := ValidateContentLength(f);
      if !ok { return; }
      ok := ValidateExpect();
      if !ok { return; }
      ok := ValidateMethod();
    }

    /** The version switch: the persistence rule, or 505 for an unset version. */
    method ValidateVersion() returns (ok: bool)
      requires request.headers.Valid()
      modifies this`keepAlive, this`status
      ensures var st := CheckVersion(request.httpVersion, request.headers.entries, old(Snapshot()));
        ok == st.Next? && Snapshot() == Answer(st)
    {
      var hs := request.headers;
      match request.httpVersion {
        case Http10 =>
          var ka := hs.Is("connection", "keep-alive");
          if !ka {
            keepAlive := false;
          }
        case Http11 =>
          var close := hs.Is("connection", "close");
          if close {
            keepAlive := false;
          }
        case VersionUnset =>
          BadRequest(505);
          return false;
      }
      return true;
    }

    /** An empty request target is a bad request. */
    method ValidateRawUri() returns (ok: bool)
      modifies this`keepAlive, this`status
      ensures var st := CheckRawUri(old(Snapshot()));
        ok == st.Next? && Snapshot() == Answer(st)
    {
      if |request.uri.raw| == 0 {
        BadRequest(400);
        return false;
      }
      return true;
    }

    /**
     * The host header: a second occurrence is a bad request; the value of the
     * only one is appended to the authority and parse_hostname runs.  Where
     * src/request.c:120 would dereference a NULL cursor (no host header),
     * nothing is appended and parse_hostname is not called.
     */
    method ValidateHost(f: Collaborators) returns (ok: bool)
      requires request.headers.Valid()
      modifies this`keepAlive, this`status, request`uri
      ensures var st := CheckHost(request.headers.entries, old(Snapshot()), f);
        ok == st.Next? && Snapshot() == Answer(st)
    {
      var hs := request.headers;
      var l := hs.FindFirst("host");
      if l.Some? {
        var n := hs.FindNext(l.value, "host");
        if n.Some? {
          BadRequest(400);
          return false;
        }
        var hh := hs.entries[l.value];
        request.uri := request.uri.(authority := request.uri.authority + hh.data[hh.keylen + 2..]);
        var st := f.parseHostname(request.uri);
        request.uri := st.uri;
        if !st.ok {
          BadRequest(400);
          return false;
        }
      }
      return true;
    }

    /** An HTTP/1.1 request must have produced a host. */
    method ValidateHostRequired() returns (ok: bool)
      modifies this`keepAlive, this`status
      ensures var st := CheckHostRequired(request.httpVersion, old(Snapshot()));
        ok == st.Next? && Snapshot() == Answer(st)
    {
      if |request.uri.host| == 0 && request.httpVersion == Http11 {
        BadRequest(400);
        return false;
      }
      return true;
    }

    /** request_parse_url, which may override the host; its failure is a bad request. */
    method ValidateUrl(f: Collaborators) returns (ok: bool)
      modifies this`keepAlive, this`status, request`uri
      ensures var st := CheckUrl(request.httpMethod, old(Snapshot()), f);
        ok == st.Next? && Snapshot() == Answer(st)
    {
      ok := ParseUrl(f);
      if !ok {
        BadRequest(400);
      }
    }

    /**
     * The last content-length occurrence, through str_to_off_t: text after
     * the number or a negative number is a bad request, an overflow is 413.
     */
    method ValidateContentLength(f: Collaborators) returns (ok: bool)
      requires request.headers.Valid()
      modifies this`keepAlive, this`status, request`contentLength
      ensures var st := CheckContentLength(request.headers.entries, old(Snapshot()), f);
        ok == st.Next? && Snapshot() == Answer(st)
    {
      var h := request.headers.Lookup("content-length");
      if h.Some? {
        var r := f.strToOffT(h.value.data[h.value.keylen + 2..]);
        if r.trailingGarbage {
          BadRequest(400);
          return false;
        }
        if r.value < 0 {
          BadRequest(400);
          return false;
        }
        if (r.value == OffTMin || r.value == OffTMax) && r.rangeError {
          BadRequest(413);
          return false;
        }
        request.contentLength := r.value;
      }
      return true;
    }

    /**
     * Expect: every occurrence must be "100-continue" up to ASCII case, and
     * only an HTTP/1.1 client may send it; otherwise 417.
     */
    method ValidateExpect() returns (ok: bool)
      requires request.headers.Valid()
      modifies this`keepAlive, this`status, this`expect100Cont
      ensures var st := CheckExpect(request.httpVersion, request.headers.entries, old(Snapshot()));
        ok == st.Next? && Snapshot() == Answer(st)
    {
      var hs := request.headers;
      ghost var es := hs.entries;
      var l := hs.FindFirst("expect");
      if l.Some? {
        var expect100 := false;
        ghost var from := 0;
        while l.Some?
          invariant from <= |es| && l == NextMatch(es, "expect", from)
          invariant forall j | 0 <= j < from :: Matches(es[j], "expect") ==> CaseEqual(es[j].Value(), "100-continue")
          invariant expect100 == (from > 0)
          invariant Snapshot() == old(Snapshot())
          decreases |es| - from
        {
          var e := hs.entries[l.value];
          if CaseEqual(e.data[e.keylen + 2..], "100-continue") {
            expect100 := true;
          } else {
            BadRequest(417);
            return false;
          }
          from := l.value + 1;
          l := hs.FindNext(l.value, "expect");
        }
        if expect100 && request.httpVersion == Http10 {
          BadRequest(417);
          return false;
        }
        expect100Cont := expect100;
      }
      return true;
    }

    /** GET and HEAD may not carry a body and get length 0; POST must announce one (411). */
    method ValidateMethod() returns (ok: bool)
      modifies this`keepAlive, this`status, request`contentLength
      ensures var st := CheckMethod(request.httpMethod, old(Snapshot()));
        ok == st.Next? && Snapshot() == Answer(st)
    {
      match request.httpMethod {
        case Get | Head =>
          if request.contentLength > 0 {
            BadRequest(400);
            return false;
          }
          request.contentLength := 0;
        case Post =>
          if request.contentLength == -1 {
            BadRequest(411);
            return false;
          }
        case _ =>
      }
      return true;
    }
  }
}
