/**
 * Worked requests through request_validate_header.  The URL helpers are
 * only constrained as far as each case needs: parse_hostname accepts and
 * finds a host, parse_raw_url accepts and finds a path other than "*".
 */
module RequestScenarios {
  import opened Wrappers
  import opened Ascii
  import opened HeaderSpec
  import opened RequestSpec
  import opened RequestProperties

  /** Helpers that accept every URI, with a host from parse_hostname and a path that is not "*". */
  ghost predicate Accepting(f: Collaborators) {
    && (forall u :: f.parseHostname(u).ok && |f.parseHostname(u).uri.host| > 0)
    && (forall u :: f.parseRawUrl(u).ok && f.parseRawUrl(u).uri.path != "*")
  }

  /**
   * With accepting helpers, a known version, a request target, at most one
   * host header, and a host header under HTTP/1.1, the checks up to the URL
   * one pass; of the fields the later checks look at, they have changed
   * keep-alive only, by the persistence rule.
   */
  lemma FrontPasses(m: HttpMethod, v: HttpVersion, es: seq<Header>, s: State, f: Collaborators)
    requires Accepting(f) && v != VersionUnset && |s.uri.raw| > 0
    requires SingleHost(es) && (v == Http11 ==> !NoMatch(es, "host"))
    ensures RunChecks(Checks[..5], m, v, es, s, f).Next?
    ensures var t := RunChecks(Checks[..5], m, v, es, s, f).state;
      t == s.(keepAlive := s.keepAlive && PersistenceAllowed(v, es), uri := t.uri)
  {
    var front := Checks[..5];
    ApplyKeepAlive(VersionCheck, m, v, es, s, f);
    var s1 := CheckVersion(v, es, s).state;
    assert front[1..][1..] == [HostCheck, HostRequiredCheck, UrlCheck];
    HostAndUrlPass(m, v, es, s1, f);
  }

  /** The host, host-required and URL checks of FrontPasses. */
  lemma HostAndUrlPass(m: HttpMethod, v: HttpVersion, es: seq<Header>, s1: State, f: Collaborators)
    requires Accepting(f) && v != VersionUnset
    requires SingleHost(es) && (v == Http11 ==> !NoMatch(es, "host"))
    ensures RunChecks([HostCheck, HostRequiredCheck, UrlCheck], m, v, es, s1, f).Next?
    ensures var t := RunChecks([HostCheck, HostRequiredCheck, UrlCheck], m, v, es, s1, f).state;
      t == s1.(uri := t.uri)
  {
    var s3: State;
    match NextMatch(es, "host", 0) {
      case None =>
        assert NoMatch(es, "host");
        s3 := s1;
      case Some(i) =>
        assert NextMatch(es, "host", i + 1).None?;
        s3 := s1.(uri := f.parseHostname(s1.uri.(authority := s1.uri.authority + es[i].Value())).uri);
    }
    assert CheckHost(es, s1, f) == Next(s3);
    assert CheckHostRequired(v, s3) == Next(s3);
    var s5 := s3.(uri := ParseUrlSpec(m, s3.uri, f).uri);
    assert CheckUrl(m, s3, f) == Next(s5);
    assert RunChecks([UrlCheck], m, v, es, s3, f) == Next(s5);
    assert RunChecks([HostRequiredCheck, UrlCheck], m, v, es, s3, f) == Next(s5);
  }

  /** The rest of the list, for a request with no content-length and no expect header. */
  lemma BackWithoutLengthOrExpect(m: HttpMethod, v: HttpVersion, es: seq<Header>, t: State, f: Collaborators)
    requires !HasLength(es) && NoMatch(es, "expect")
    ensures RunChecks(Checks[5..], m, v, es, t, f) == CheckMethod(m, t)
  {
    assert NextMatch(es, "expect", 0).None?;
    assert Checks[5..] == [ContentLengthCheck, ExpectCheck, MethodCheck];
    assert CheckContentLength(es, t, f) == Next(t) && CheckExpect(v, es, t) == Next(t);
    assert RunChecks([MethodCheck], m, v, es, t, f) == CheckMethod(m, t);
    assert RunChecks([ExpectCheck, MethodCheck], m, v, es, t, f) == CheckMethod(m, t);
  }

  /**
   * GET over HTTP/1.1 with one host header and no content-length proceeds:
   * the length becomes 0, the status is untouched and the connection stays
   * open unless the client sent "connection: close".
   */
  lemma GetWithHostProceeds(es: seq<Header>, s: State, f: Collaborators)
    requires Accepting(f) && |s.uri.raw| > 0 && s.contentLength <= 0
    requires SingleHost(es) && !NoMatch(es, "host") && !HasLength(es) && NoMatch(es, "expect")
    ensures var t := Validate(Get, Http11, es, s, f);
      && t.keepAlive == (s.keepAlive && !AnyValueIs(es, "connection", "close"))
      && t.status == s.status && t.contentLength == 0 && t.expect100 == s.expect100
  {
    FrontPasses(Get, Http11, es, s, f);
    ChecksAppendFront();
    RunChecksAppend(Checks[..5], Checks[5..], Get, Http11, es, s, f);
    BackWithoutLengthOrExpect(Get, Http11, es, RunChecks(Checks[..5], Get, Http11, es, s, f).state, f);
  }

  /** The list is its first five checks followed by the last three. */
  lemma ChecksAppendFront()
    ensures Checks == Checks[..5] + Checks[5..]
  {
  }

  /** The one-line request "GET" with "host: example.com" meets the conditions above. */
  lemma ExampleHostHeader()
    ensures var es := [NewHeader("host", "example.com")];
      SingleHost(es) && !NoMatch(es, "host") && !HasLength(es) && NoMatch(es, "expect")
      && !AnyValueIs(es, "connection", "close")
  {
    var h := NewHeader("host", "example.com");
    var es := [h];
    assert Matches(es[0], "host");
    assert !Matches(es[0], "content-length") && !Matches(es[0], "expect") && !Matches(es[0], "connection");
    assert LastMatchBefore(es, "content-length", 0).None?;
    assert !HasLength(es);
  }

  /** Two host headers are a bad request and close the connection. */
  lemma TwoHostsRejected(m: HttpMethod, s: State, f: Collaborators)
    requires |s.uri.raw| > 0
    ensures var t := Validate(m, Http11, [NewHeader("host", "a.example"), NewHeader("host", "b.example")], s, f);
      t.status == Some(400) && !t.keepAlive
  {
    var es := [NewHeader("host", "a.example"), NewHeader("host", "b.example")];
    assert Matches(es[0], "host") && Matches(es[1], "host");
    DuplicateHostIs400(m, Http11, es, s, f, 0, 1);
  }

  /** POST with no content-length, on a freshly reset request, is answered with 411. */
  lemma PostWithoutLengthRejected(v: HttpVersion, es: seq<Header>, s: State, f: Collaborators)
    requires Accepting(f) && v != VersionUnset && |s.uri.raw| > 0 && s.contentLength == -1
    requires SingleHost(es) && (v == Http11 ==> !NoMatch(es, "host")) && !HasLength(es) && NoMatch(es, "expect")
    ensures var t := Validate(Post, v, es, s, f);
      t.status == Some(411) && !t.keepAlive
  {
    FrontPasses(Post, v, es, s, f);
    ChecksAppendFront();
    RunChecksAppend(Checks[..5], Checks[5..], Post, v, es, s, f);
    BackWithoutLengthOrExpect(Post, v, es, RunChecks(Checks[..5], Post, v, es, s, f).state, f);
  }

  /**
   * A content-length too large for off_t (str_to_off_t overflows to the
   * largest value with errno ERANGE) is answered with 413.
   */
  lemma OverflowingLengthRejected(m: HttpMethod, v: HttpVersion, es: seq<Header>, s: State, f: Collaborators)
    requires Accepting(f) && v != VersionUnset && |s.uri.raw| > 0
    requires SingleHost(es) && (v == Http11 ==> !NoMatch(es, "host"))
    requires HasLength(es) && LengthParse(es, f) == OffTParse(OffTMax, false, true)
    ensures var t := Validate(m, v, es, s, f);
      t.status == Some(413) && !t.keepAlive
  {
    FrontPasses(m, v, es, s, f);
    ChecksAppendFront();
    RunChecksAppend(Checks[..5], Checks[5..], m, v, es, s, f);
    var t := RunChecks(Checks[..5], m, v, es, s, f).state;
    assert Checks[5..] == [ContentLengthCheck, ExpectCheck, MethodCheck];
    assert CheckContentLength(es, t, f) == Fail(t, 413);
  }

  /**
   * "expect: 100-continue" from an HTTP/1.0 client is refused with 417, even
   * with no host header, which HTTP/1.0 allows.
   */
  lemma ExpectFromHttp10Rejected(m: HttpMethod, es: seq<Header>, s: State, f: Collaborators)
    requires Accepting(f) && |s.uri.raw| > 0
    requires NoMatch(es, "host") && !HasLength(es) && !NoMatch(es, "expect")
    ensures var t := Validate(m, Http10, es, s, f);
      t.status == Some(417) && !t.keepAlive
  {
    FrontPasses(m, Http10, es, s, f);
    ChecksAppendFront();
    RunChecksAppend(Checks[..5], Checks[5..], m, Http10, es, s, f);
    var t := RunChecks(Checks[..5], m, Http10, es, s, f).state;
    assert Checks[5..] == [ContentLengthCheck, ExpectCheck, MethodCheck];
    assert NextMatch(es, "expect", 0).Some?;
    assert CheckExpect(Http10, es, t) == Fail(t, 417);
  }
}
