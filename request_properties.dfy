/**
 * What request_validate_header guarantees, stated over the pure rule list of
 * RequestSpec: which status each rejection carries and when, what an
 * accepted request looks like, and what each check leaves alone.
 */
module RequestProperties {
  import opened Wrappers
  import opened Ascii
  import opened HeaderSpec
  import opened RequestSpec

  /** There is a content-length header. */
  predicate HasLength(es: seq<Header>) {
    LastMatch(es, "content-length").Some?
  }

  /** What str_to_off_t makes of the last content-length value. */
  function LengthParse(es: seq<Header>, f: Collaborators): OffTParse
    requires HasLength(es)
  {
    f.strToOffT(es[LastMatch(es, "content-length").value].Value())
  }

  // ---------------------------------------------------------------------------
  // What one check may change

  /** No check sets a status of its own, and a failing one asks for one of five. */
  lemma ApplyKeepsStatus(c: Check, m: HttpMethod, v: HttpVersion, es: seq<Header>, s: State, f: Collaborators)
    ensures Apply(c, m, v, es, s, f).Reached().status == s.status
    ensures Apply(c, m, v, es, s, f).Fail? ==> Apply(c, m, v, es, s, f).code in {400, 411, 413, 417, 505}
  {
  }

  /** Only the version check touches keep-alive, and only to apply the persistence rule. */
  lemma ApplyKeepAlive(c: Check, m: HttpMethod, v: HttpVersion, es: seq<Header>, s: State, f: Collaborators)
    ensures c != VersionCheck ==> Apply(c, m, v, es, s, f).Reached().keepAlive == s.keepAlive
    ensures c == VersionCheck ==> (Apply(c, m, v, es, s, f).Next? <==> v != VersionUnset)
    ensures c == VersionCheck && v != VersionUnset ==>
      Apply(c, m, v, es, s, f).Reached() == s.(keepAlive := s.keepAlive && PersistenceAllowed(v, es))
  {
  }

  /** The statuses other than 400 each come from one check, under one condition. */
  lemma ApplyCodes(c: Check, m: HttpMethod, v: HttpVersion, es: seq<Header>, s: State, f: Collaborators)
    ensures Apply(c, m, v, es, s, f) == Fail(Apply(c, m, v, es, s, f).Reached(), 505) ==>
      c == VersionCheck && v == VersionUnset
    ensures Apply(c, m, v, es, s, f) == Fail(Apply(c, m, v, es, s, f).Reached(), 413) ==>
      c == ContentLengthCheck && HasLength(es) && LengthParse(es, f) == OffTParse(OffTMax, false, true)
    ensures Apply(c, m, v, es, s, f) == Fail(Apply(c, m, v, es, s, f).Reached(), 417) ==>
      c == ExpectCheck && !NoMatch(es, "expect") && (!AllValuesAre(es, "expect", "100-continue") || v == Http10)
    ensures Apply(c, m, v, es, s, f) == Fail(Apply(c, m, v, es, s, f).Reached(), 411) ==>
      c == MethodCheck && m == Post && s.contentLength == -1
  {
    if c == ContentLengthCheck {
      match LastMatch(es, "content-length")
      case None =>
      case Some(i) =>
    }
    if c == ExpectCheck && NextMatch(es, "expect", 0).Some? {
      assert !NoMatch(es, "expect");
    }
  }

  /** Only the content-length and method checks set the length. */
  lemma ApplyLength(c: Check, m: HttpMethod, v: HttpVersion, es: seq<Header>, s: State, f: Collaborators)
    ensures c != ContentLengthCheck && c != MethodCheck ==> Apply(c, m, v, es, s, f).Reached().contentLength == s.contentLength
    ensures c == ContentLengthCheck && Apply(c, m, v, es, s, f).Next? ==>
      && (HasLength(es) ==> 0 <= LengthParse(es, f).value && Apply(c, m, v, es, s, f).state.contentLength == LengthParse(es, f).value)
      && (!HasLength(es) ==> Apply(c, m, v, es, s, f).state.contentLength == s.contentLength)
  {
  }

  /** Only the expect check sets the 100-continue flag. */
  lemma ApplyExpect(c: Check, m: HttpMethod, v: HttpVersion, es: seq<Header>, s: State, f: Collaborators)
    ensures c != ExpectCheck ==> Apply(c, m, v, es, s, f).Reached().expect100 == s.expect100
    ensures c == ExpectCheck && Apply(c, m, v, es, s, f).Next? ==>
      && (NoMatch(es, "expect") ==> Apply(c, m, v, es, s, f).state.expect100 == s.expect100)
      && (!NoMatch(es, "expect") ==>
            Apply(c, m, v, es, s, f).state.expect100 && v != Http10 && AllValuesAre(es, "expect", "100-continue"))
  {
    if c == ExpectCheck {
      match NextMatch(es, "expect", 0)
      case None =>
        assert NoMatch(es, "expect");
      case Some(i) =>
        assert Matches(es[i], "expect");
    }
  }

  // ---------------------------------------------------------------------------
  // What a run of checks may change

  lemma {:induction false} RunChecksStatus(cs: seq<Check>, m: HttpMethod, v: HttpVersion, es: seq<Header>, s: State, f: Collaborators)
    ensures RunChecks(cs, m, v, es, s, f).Reached().status == s.status
    ensures RunChecks(cs, m, v, es, s, f).Fail? ==> RunChecks(cs, m, v, es, s, f).code in {400, 411, 413, 417, 505}
    decreases |cs|
  {
    if cs != [] {
      ApplyKeepsStatus(cs[0], m, v, es, s, f);
      var r := Apply(cs[0], m, v, es, s, f);
      if r.Next? {
        RunChecksStatus(cs[1..], m, v, es, r.state, f);
      }
    }
  }

  lemma {:induction false} RunChecksKeepAlive(cs: seq<Check>, m: HttpMethod, v: HttpVersion, es: seq<Header>, s: State, f: Collaborators)
    requires VersionCheck !in cs
    ensures RunChecks(cs, m, v, es, s, f).Reached().keepAlive == s.keepAlive
    decreases |cs|
  {
    if cs != [] {
      ApplyKeepAlive(cs[0], m, v, es, s, f);
      var r := Apply(cs[0], m, v, es, s, f);
      if r.Next? {
        assert cs[0] in cs;
        RunChecksKeepAlive(cs[1..], m, v, es, r.state, f);
      }
    }
  }

  lemma {:induction false} RunChecksCodes(cs: seq<Check>, m: HttpMethod, v: HttpVersion, es: seq<Header>, s: State, f: Collaborators)
    ensures RunChecks(cs, m, v, es, s, f) == Fail(RunChecks(cs, m, v, es, s, f).Reached(), 505) ==>
      VersionCheck in cs && v == VersionUnset
    ensures RunChecks(cs, m, v, es, s, f) == Fail(RunChecks(cs, m, v, es, s, f).Reached(), 413) ==>
      HasLength(es) && LengthParse(es, f) == OffTParse(OffTMax, false, true)
    ensures RunChecks(cs, m, v, es, s, f) == Fail(RunChecks(cs, m, v, es, s, f).Reached(), 417) ==>
      !NoMatch(es, "expect") && (!AllValuesAre(es, "expect", "100-continue") || v == Http10)
    ensures RunChecks(cs, m, v, es, s, f) == Fail(RunChecks(cs, m, v, es, s, f).Reached(), 411) ==>
      MethodCheck in cs && m == Post
    decreases |cs|
  {
    if cs != [] {
      ApplyCodes(cs[0], m, v, es, s, f);
      var r := Apply(cs[0], m, v, es, s, f);
      if r.Next? {
        RunChecksCodes(cs[1..], m, v, es, r.state, f);
        assert forall c | c in cs[1..] :: c in cs;
      } else {
        assert cs[0] in cs;
      }
    }
  }

  lemma {:induction false} RunChecksLength(cs: seq<Check>, m: HttpMethod, v: HttpVersion, es: seq<Header>, s: State, f: Collaborators)
    requires MethodCheck !in cs
    ensures RunChecks(cs, m, v, es, s, f).Next? ==>
      RunChecks(cs, m, v, es, s, f).state.contentLength ==
        if ContentLengthCheck in cs && HasLength(es) then LengthParse(es, f).value else s.contentLength
    ensures RunChecks(cs, m, v, es, s, f).Next? && ContentLengthCheck in cs && HasLength(es) ==> 0 <= LengthParse(es, f).value
    decreases |cs|
  {
    if cs != [] {
      ApplyLength(cs[0], m, v, es, s, f);
      var r := Apply(cs[0], m, v, es, s, f);
      assert cs[0] in cs;
      if r.Next? {
        RunChecksLength(cs[1..], m, v, es, r.state, f);
        assert cs == [cs[0]] + cs[1..];
      }
    }
  }

  lemma {:induction false} RunChecksExpect(cs: seq<Check>, m: HttpMethod, v: HttpVersion, es: seq<Header>, s: State, f: Collaborators)
    ensures RunChecks(cs, m, v, es, s, f).Next? ==>
      if ExpectCheck in cs && !NoMatch(es, "expect") then
        RunChecks(cs, m, v, es, s, f).state.expect100 && v != Http10 && AllValuesAre(es, "expect", "100-continue")
      else
        RunChecks(cs, m, v, es, s, f).state.expect100 == s.expect100
    decreases |cs|
  {
    if cs != [] {
      ApplyExpect(cs[0], m, v, es, s, f);
      var r := Apply(cs[0], m, v, es, s, f);
      if r.Next? {
        RunChecksExpect(cs[1..], m, v, es, r.state, f);
        assert cs == [cs[0]] + cs[1..];
      }
    }
  }

  /** Running `a` then `b` is running `a + b`. */
  lemma {:induction false} RunChecksAppend(a: seq<Check>, b: seq<Check>, m: HttpMethod, v: HttpVersion, es: seq<Header>, s: State, f: Collaborators)
    ensures RunChecks(a + b, m, v, es, s, f) ==
      if RunChecks(a, m, v, es, s, f).Fail? then RunChecks(a, m, v, es, s, f)
      else RunChecks(b, m, v, es, RunChecks(a, m, v, es, s, f).state, f)
    decreases |a|
  {
    if a == [] {
      assert a + b == b;
    } else {
      assert (a + b)[0] == a[0] && (a + b)[1..] == a[1..] + b;
      var r := Apply(a[0], m, v, es, s, f);
      if r.Next? {
        RunChecksAppend(a[1..], b, m, v, es, r.state, f);
      }
    }
  }

  // ---------------------------------------------------------------------------
  // Outcome of request_validate_header

  /**
   * The validator never turns keep-alive on: the connection stays open
   * exactly when it was open, every check passed and the version's
   * persistence rule allows it.
   */
  lemma KeepAliveOutcome(m: HttpMethod, v: HttpVersion, es: seq<Header>, s: State, f: Collaborators)
    ensures Validate(m, v, es, s, f).keepAlive <==> s.keepAlive && Run(m, v, es, s, f).Next? && PersistenceAllowed(v, es)
  {
    ApplyKeepAlive(VersionCheck, m, v, es, s, f);
    var r := CheckVersion(v, es, s);
    if r.Next? {
      RunChecksKeepAlive(Checks[1..], m, v, es, r.state, f);
    }
  }

  /**
   * Every rejection goes through bad_request with one of the five statuses
   * the validator knows; an accepted request keeps the status it had.
   */
  lemma StatusOutcome(m: HttpMethod, v: HttpVersion, es: seq<Header>, s: State, f: Collaborators)
    ensures Run(m, v, es, s, f).Next? ==> Validate(m, v, es, s, f).status == s.status
    ensures Run(m, v, es, s, f).Fail? ==>
      && Run(m, v, es, s, f).code in {400, 411, 413, 417, 505}
      && Validate(m, v, es, s, f).status == Some(Run(m, v, es, s, f).code)
      && !Validate(m, v, es, s, f).keepAlive
  {
    RunChecksStatus(Checks, m, v, es, s, f);
  }

  /** An unset version is answered with 505 before anything else is looked at. */
  lemma UnsetVersionIs505(m: HttpMethod, es: seq<Header>, s: State, f: Collaborators)
    ensures Validate(m, VersionUnset, es, s, f) == s.(keepAlive := false, status := Some(505))
  {
  }

  /** 505 is given for an unset version and for nothing else. */
  lemma Only505ForUnsetVersion(m: HttpMethod, v: HttpVersion, es: seq<Header>, s: State, f: Collaborators)
    requires s.status != Some(505)
    ensures Validate(m, v, es, s, f).status == Some(505) <==> v == VersionUnset
  {
    RunChecksStatus(Checks, m, v, es, s, f);
    RunChecksCodes(Checks, m, v, es, s, f);
  }

  /** With a known version, an empty request target is a bad request, and nothing else has changed. */
  lemma EmptyRawUriIs400(m: HttpMethod, v: HttpVersion, es: seq<Header>, s: State, f: Collaborators)
    requires v != VersionUnset && |s.uri.raw| == 0
    ensures Validate(m, v, es, s, f) == s.(keepAlive := false, status := Some(400))
  {
    var s1 := CheckVersion(v, es, s).state;
    assert RunChecks(Checks[1..], m, v, es, s1, f) == Fail(s1, 400);
  }

  /** Two host occurrences anywhere in the store are a bad request, and parse_hostname is never called. */
  lemma DuplicateHostIs400(m: HttpMethod, v: HttpVersion, es: seq<Header>, s: State, f: Collaborators, i: nat, j: nat)
    requires v != VersionUnset && |s.uri.raw| > 0
    requires i < j < |es| && Matches(es[i], "host") && Matches(es[j], "host")
    ensures Validate(m, v, es, s, f) == s.(keepAlive := false, status := Some(400))
  {
    var first := NextMatch(es, "host", 0);
    assert first.Some? && first.value <= i;
    assert NextMatch(es, "host", first.value + 1).Some?;
    var s1 := CheckVersion(v, es, s).state;
    assert CheckHost(es, s1, f) == Fail(s1, 400);
    assert RunChecks(Checks[2..], m, v, es, s1, f) == Fail(s1, 400);
    assert RunChecks(Checks[1..], m, v, es, s1, f) == Fail(s1, 400);
  }

  /** An HTTP/1.1 request with no host header and no host from the target is a bad request. */
  lemma MissingHostUnder11Is400(m: HttpMethod, es: seq<Header>, s: State, f: Collaborators)
    requires |s.uri.raw| > 0 && |s.uri.host| == 0
    requires NoMatch(es, "host")
    ensures Validate(m, Http11, es, s, f) == s.(keepAlive := false, status := Some(400))
  {
    assert NextMatch(es, "host", 0).None?;
    var s1 := CheckVersion(Http11, es, s).state;
    assert RunChecks(Checks[3..], m, Http11, es, s1, f) == Fail(s1, 400);
    assert RunChecks(Checks[1..], m, Http11, es, s1, f) == Fail(s1, 400);
  }

  /**
   * With no host header the hostname parser is not consulted at all: the
   * outcome is the same whatever it would have done.
   */
  lemma MissingHostSkipsHostnameParser(m: HttpMethod, v: HttpVersion, es: seq<Header>, s: State, f: Collaborators, parseHostname: Uri -> UrlStep)
    requires NoMatch(es, "host")
    ensures Validate(m, v, es, s, f) == Validate(m, v, es, s, f.(parseHostname := parseHostname))
  {
    assert NextMatch(es, "host", 0).None?;
    RunChecksIgnoreHostnameParser(Checks, m, v, es, s, f, parseHostname);
  }

  lemma {:induction false} RunChecksIgnoreHostnameParser(cs: seq<Check>, m: HttpMethod, v: HttpVersion, es: seq<Header>, s: State, f: Collaborators, parseHostname: Uri -> UrlStep)
    requires NextMatch(es, "host", 0).None?
    ensures RunChecks(cs, m, v, es, s, f) == RunChecks(cs, m, v, es, s, f.(parseHostname := parseHostname))
    decreases |cs|
  {
    if cs != [] {
      var r := Apply(cs[0], m, v, es, s, f);
      assert r == Apply(cs[0], m, v, es, s, f.(parseHostname := parseHostname));
      if r.Next? {
        RunChecksIgnoreHostnameParser(cs[1..], m, v, es, r.state, f, parseHostname);
      }
    }
  }

  /** 413 is given only for a last content-length that overflowed to the largest off_t. */
  lemma Only413ForOverflow(m: HttpMethod, v: HttpVersion, es: seq<Header>, s: State, f: Collaborators)
    requires Run(m, v, es, s, f).Fail? && Run(m, v, es, s, f).code == 413
    ensures HasLength(es) && LengthParse(es, f) == OffTParse(OffTMax, false, true)
  {
    RunChecksCodes(Checks, m, v, es, s, f);
  }

  /** 417 is given only when there is an expect header that is not "100-continue" or comes from HTTP/1.0. */
  lemma Only417ForExpect(m: HttpMethod, v: HttpVersion, es: seq<Header>, s: State, f: Collaborators)
    requires Run(m, v, es, s, f).Fail? && Run(m, v, es, s, f).code == 417
    ensures !NoMatch(es, "expect")
    ensures !AllValuesAre(es, "expect", "100-continue") || v == Http10
  {
    RunChecksCodes(Checks, m, v, es, s, f);
  }

  /** The checks before the method rules, and the method rules. */
  lemma ChecksSplit()
    ensures Checks == Checks[..7] + [MethodCheck]
    ensures MethodCheck !in Checks[..7] && ContentLengthCheck in Checks[..7] && ExpectCheck in Checks[..7]
  {
    assert Checks[..7][5] == ContentLengthCheck && Checks[..7][6] == ExpectCheck;
  }

  /** 411 is given only to a POST that has no content-length header and no length set before. */
  lemma Only411ForPostWithoutLength(m: HttpMethod, v: HttpVersion, es: seq<Header>, s: State, f: Collaborators)
    requires Run(m, v, es, s, f).Fail? && Run(m, v, es, s, f).code == 411
    ensures m == Post && !HasLength(es) && s.contentLength == -1
  {
    ChecksSplit();
    RunChecksAppend(Checks[..7], [MethodCheck], m, v, es, s, f);
    RunChecksCodes(Checks[..7], m, v, es, s, f);
    RunChecksLength(Checks[..7], m, v, es, s, f);
    var t := RunChecks(Checks[..7], m, v, es, s, f);
    if t.Next? {
      ApplyCodes(MethodCheck, m, v, es, t.state, f);
    }
  }

  // ---------------------------------------------------------------------------
  // The content-length check on its own

  /** An earlier content-length occurrence is never looked at: the last one alone decides. */
  lemma ContentLengthLastWins(es: seq<Header>, h: Header, s: State, f: Collaborators)
    requires Matches(h, "content-length")
    ensures CheckContentLength(es + [h], s, f) == CheckContentLength([h], s, f)
  {
    assert (es + [h])[|es|] == h;
  }

  /**
   * A negative number is a bad request even when it underflowed (errno
   * ERANGE at the smallest off_t): that case never reaches the 413 test.
   */
  lemma ContentLengthUnderflowIs400(es: seq<Header>, s: State, f: Collaborators)
    requires HasLength(es) && !LengthParse(es, f).trailingGarbage && LengthParse(es, f).value < 0
    ensures CheckContentLength(es, s, f) == Fail(s, 400)
  {
  }

  /** The check answers 413 exactly when the parse overflowed to the largest off_t. */
  lemma ContentLengthTooLarge(es: seq<Header>, s: State, f: Collaborators)
    requires HasLength(es)
    ensures CheckContentLength(es, s, f) == Fail(s, 413) <==> LengthParse(es, f) == OffTParse(OffTMax, false, true)
  {
  }

  // ---------------------------------------------------------------------------
  // What an accepted request looks like

  /** At most one host header. */
  predicate SingleHost(es: seq<Header>) {
    forall i, j | 0 <= i < j < |es| :: !(Matches(es[i], "host") && Matches(es[j], "host"))
  }

  /**
   * The request line and the host headers of an accepted request: under
   * HTTP/1.1 the host buffer was non-empty after the host check (it came
   * from parse_hostname, or with no host header it was already there).
   * request_parse_url may still override the host after that.
   */
  lemma AcceptedRequestLine(m: HttpMethod, v: HttpVersion, es: seq<Header>, s: State, f: Collaborators)
    requires Run(m, v, es, s, f).Next?
    ensures v != VersionUnset && |s.uri.raw| > 0
    ensures SingleHost(es)
    ensures v == Http11 && NoMatch(es, "host") ==> |s.uri.host| > 0
    ensures v == Http11 ==>
      CheckHost(es, CheckVersion(v, es, s).state, f).Next?
      && |CheckHost(es, CheckVersion(v, es, s).state, f).state.uri.host| > 0
  {
    if v == Http11 && NoMatch(es, "host") && |s.uri.host| == 0 {
      MissingHostUnder11Is400(m, es, s, f);
    }
    var s1 := CheckVersion(v, es, s).state;
    assert Checks[1..][1..] == Checks[2..];
    assert Checks[2..][1..] == Checks[3..];
    assert RunChecks(Checks[1..], m, v, es, s1, f).Next?;
    assert RunChecks(Checks[2..], m, v, es, s1, f).Next?;
    if CheckHost(es, s1, f).Next? {
      assert RunChecks(Checks[3..], m, v, es, CheckHost(es, s1, f).state, f).Next?;
    }
  }

  /**
   * The length of an accepted request: GET and HEAD have none (a positive
   * one was refused), POST has one, and otherwise it is the parsed last
   * content-length, or what it was when there is none.
   */
  lemma AcceptedLength(m: HttpMethod, v: HttpVersion, es: seq<Header>, s: State, f: Collaborators)
    requires Run(m, v, es, s, f).Next?
    ensures var t := Run(m, v, es, s, f).state;
      && ((m == Get || m == Head) ==> t.contentLength == 0 && (HasLength(es) ==> LengthParse(es, f).value == 0))
      && (m == Post ==> t.contentLength != -1)
      && (m != Get && m != Head && HasLength(es) ==> t.contentLength == LengthParse(es, f).value >= 0)
      && (m != Get && m != Head && !HasLength(es) ==> t.contentLength == s.contentLength)
  {
    ChecksSplit();
    RunChecksAppend(Checks[..7], [MethodCheck], m, v, es, s, f);
    RunChecksLength(Checks[..7], m, v, es, s, f);
  }

  /** An accepted request with expect headers sent only "100-continue", over HTTP/1.1, and is flagged. */
  lemma AcceptedExpect(m: HttpMethod, v: HttpVersion, es: seq<Header>, s: State, f: Collaborators)
    requires Run(m, v, es, s, f).Next?
    ensures NoMatch(es, "expect") ==> Run(m, v, es, s, f).state.expect100 == s.expect100
    ensures !NoMatch(es, "expect") ==>
      Run(m, v, es, s, f).state.expect100 && v == Http11 && AllValuesAre(es, "expect", "100-continue")
  {
    ChecksSplit();
    RunChecksAppend(Checks[..7], [MethodCheck], m, v, es, s, f);
    RunChecksExpect(Checks[..7], m, v, es, s, f);
    ApplyKeepAlive(VersionCheck, m, v, es, s, f);
    ApplyExpect(MethodCheck, m, v, es, RunChecks(Checks[..7], m, v, es, s, f).state, f);
  }
}
