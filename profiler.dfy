/** main.cpp: reading the status code and the body out of a response, the
    dispatch on the command-line flags, and the profiling loop with its
    statistics. Every call of get is abstracted into the value it returned.

    Several worked examples below take their strings and codes as parameters
    fixed by a requires clause instead of writing literals in the ensures:
    a literal string is unfolded character by character wherever it occurs,
    and binding it once keeps those proofs cheap. */
module Profiler {
  import opened CppString
  import opened Get
  import Sorting

  /** The header/body separator parseResponseContent looks for. */
  const Separator: string := "\r\n\r\n"

  /** The token parseResponseStatus looks for; the code follows it. */
  const StatusToken: string := "HTTP/1.1 "

  // ---- parseResponseContent

  /** The text after the first "\r\n\r\n". Without one, find's npos stored in
      an int is -1, so substr starts at -1 + 4 = 3: the response minus its
      first three characters, or out_of_range when it is shorter than that. */
  function ParseResponseContent(response: string): (content: Result<string, Exception>)
    ensures Find(response, Separator) != NotFound ==>
              content.Ok? && response == response[..Find(response, Separator)] + Separator + content.value
    ensures Find(response, Separator) == NotFound ==>
              (content.Ok? <==> |response| >= 3) && (content.Ok? ==> content.value == response[3..])
  {
    var idx := Find(response, Separator);
    SubstrFrom(response, idx + 4)
  }

  /** A carriage return is the first character of the separator, so text
      without one holds no separator that starts inside it. */
  lemma NoSeparatorBefore(head: string, body: string)
    requires forall i :: 0 <= i < |head| ==> head[i] != '\r'
    ensures Find(head + Separator + body, Separator) == |head|
  {
    FindAfterHead(head, Separator, body);
  }

  /** Text without a carriage return holds no separator at all. */
  lemma NoSeparatorWithoutCR(s: string)
    requires forall i :: 0 <= i < |s| ==> s[i] != '\r'
    ensures Find(s, Separator) == NotFound
    ensures |s| >= 3 ==> ParseResponseContent(s) == Ok(s[3..])
    ensures |s| < 3 ==> ParseResponseContent(s) == Err(OutOfRange)
  {
    var k := Find(s, Separator);
    if k != NotFound {
      OccursAtHead(s, Separator, k);
    }
  }

  /** Header text without a carriage return, then the separator, then the
      body: the content is exactly the body. */
  lemma ContentAfterHeaders(head: string, body: string)
    requires forall i :: 0 <= i < |head| ==> head[i] != '\r'
    ensures ParseResponseContent(head + Separator + body) == Ok(body)
  {
    NoSeparatorBefore(head, body);
    assert (head + Separator + body)[|head| + 4..] == body;
  }

  lemma ContentExample()
    ensures ParseResponseContent("HTTP/1.1 200 OK\r\n\r\nHELLO") == Ok("HELLO")
  {
    var head := "HTTP/1.1 200 OK";
    ContentAfterHeaders(head, "HELLO");
    assert head + Separator + "HELLO" == "HTTP/1.1 200 OK\r\n\r\nHELLO";
  }

  /** Without the separator the first three characters are lost:
      "HTTP/1.1 200 OK" gives "P/1.1 200 OK", and "ab" throws. */
  lemma ContentWithoutSeparatorExample(response: string, rest: string, short: string)
    requires rest == "P/1.1 200 OK" && response == "HTT" + rest && short == "ab"
    ensures ParseResponseContent(response) == Ok(rest)
    ensures ParseResponseContent(short) == Err(OutOfRange)
  {
    NoSeparatorWithoutCR(response);
    assert response[3..] == rest;
    NoSeparatorWithoutCR(short);
  }

  // ---- parseResponseStatus

  /** stoi of the (at most) three characters nine places after the first
      "HTTP/1.1 "; without the token find's npos plus 9 wraps to 8. */
  function ParseResponseStatus(response: string): (status: Result<int, Exception>)
    ensures status.Ok? ==> IntMin <= status.value <= IntMax
  {
    var start := Find(response, StatusToken) + 9;
    match Substr(response, start, 3)
    case Err(e) => Err(e)
    case Ok(code) => Stoi(code)
  }

  /** Three digits after the first "HTTP/1.1 " are read as the status code. */
  lemma StatusOfDigits(response: string)
    requires Find(response, StatusToken) != NotFound
    requires var start := Find(response, StatusToken) + 9;
      start + 3 <= |response| && AllDigits(response[start..start + 3])
    ensures var start := Find(response, StatusToken) + 9;
      ParseResponseStatus(response) == Ok(DecimalValue(response[start..start + 3]))
      && 0 <= ParseResponseStatus(response).value <= 999
  {
    var start := Find(response, StatusToken) + 9;
    var code := response[start..start + 3];
    assert Substr(response, start, 3) == Ok(code);
    StoiOfThreeDigits(code);
  }

  /** A status line that begins the response gives back the code it carries. */
  lemma StatusLineRoundTrip(code: int, rest: string)
    requires 100 <= code <= 999
    ensures ParseResponseStatus(StatusToken + ToString(code) + rest) == Ok(code)
  {
    var digits := ToString(code);
    var response := StatusToken + digits + rest;
    assert response[0..9] == StatusToken;
    FindIsFirst(response, StatusToken, 0);
    ThreeDigitCode(code);
    assert response[9..12] == digits;
    StatusOfDigits(response);
    DecimalValueOfNatToString(code);
  }

  /** Without "HTTP/1.1 " find's npos stored in an int is -1, so the code is
      read from the three characters at index 8: out_of_range for a response
      shorter than 8, invalid_argument for one of exactly 8. */
  lemma StatusWithoutToken(response: string)
    requires Find(response, StatusToken) == NotFound
    ensures ParseResponseStatus(response)
      == if |response| < 8 then Err(OutOfRange) else Stoi(response[8..Min(11, |response|)])
    ensures |response| == 8 ==> ParseResponseStatus(response) == Err(InvalidArgument)
  {
    if |response| == 8 {
      assert response[8..8] == [];
    }
  }

  /** An HTTP/1.0 status line has no "HTTP/1.1 ": its space and the first two
      digits of the code are read, so 200 becomes 20. */
  lemma StatusOfOlderVersion(response: string, digits: string)
    requires digits == "20" && response == "HTTP/1.0 " + digits + "0 OK"
    ensures ParseResponseStatus(response) == Ok(20)
  {
    OlderVersionHasNoToken(response, digits);
    StatusWithoutToken(response);
    assert response[8..11] == [' '] + digits;
    StoiSkipsSpace(' ', digits);
    TwoDigits(digits);
    StoiOfDigits(digits);
  }

  lemma OlderVersionHasNoToken(response: string, digits: string)
    requires |digits| == 2 && response == "HTTP/1.0 " + digits + "0 OK"
    ensures Find(response, StatusToken) == NotFound
  {
    forall j | 0 <= j ensures !OccursAt(response, StatusToken, j) {
      if 0 < j && j + 9 <= |response| {
        assert response[j..j + 9][0] == response[j] != 'H';
      } else if j == 0 && 9 <= |response| {
        assert response[..9][7] == '0';
      }
    }
  }

  lemma TwoDigits(digits: string)
    requires digits == "20"
    ensures AllDigits(digits) && DecimalValue(digits) == 20
  {
    var first := digits[..1];
    assert first[..0] == [] && DecimalValue(first) == 2;
    assert DecimalValue(digits) == DecimalValue(first) * 10 + DigitValue(digits[1]);
  }

  lemma StatusExample(response: string, reason: string)
    requires reason == " Not Found\r\n" && response == "HTTP/1.1 " + "404" + reason
    ensures ParseResponseStatus(response) == Ok(404)
  {
    Code404();
    StatusLineRoundTrip(404, reason);
  }

  lemma Code404()
    ensures ToString(404) == "404"
  {
    assert NatToString(4) == "4";
    assert NatToString(40) == "40";
  }

  // ---- Dispatch on the flags

  /** The flags getArgs leaves behind: --help, --url <url>, --profile <n>
      (n already converted by atoi). */
  datatype Invocation = Invocation(help: bool, url: Option<string>, profile: Option<int>)

  datatype Mode =
    | ShowUsage
    | MissingUrl
    | SingleShot(url: string)
    | CountNotPositive
    | Profile(url: string, count: nat)

  /** The order of the checks in main: help first, then the URL, then the
      single-shot case, then the request count. */
  function ModeOf(inv: Invocation): (m: Mode)
    ensures m == ShowUsage <==> inv.help
    ensures m == MissingUrl <==> !inv.help && inv.url.None?
    ensures m.SingleShot? <==> !inv.help && inv.url.Some? && inv.profile.None?
    ensures m == CountNotPositive <==> !inv.help && inv.url.Some? && inv.profile.Some? && inv.profile.value <= 0
    ensures m.SingleShot? ==> m.url == inv.url.value
    ensures m.Profile? ==> m.url == inv.url.value && m.count == inv.profile.value > 0
  {
    if inv.help then ShowUsage
    else if inv.url.None? then MissingUrl
    else if inv.profile.None? then SingleShot(inv.url.value)
    else if inv.profile.value <= 0 then CountNotPositive
    else Profile(inv.url.value, inv.profile.value)
  }

  /** How many times main calls get. */
  function RequestsIssued(m: Mode): (n: nat)
  {
    match m
    case SingleShot(_) => 1
    case Profile(_, n) => n
    case _ => 0
  }

  /** Requests go out only for a URL without --help and with a count, if
      any, that is positive; a profiling run makes exactly that many. */
  lemma RequestsOnlyWhenValid(inv: Invocation)
    ensures RequestsIssued(ModeOf(inv)) > 0
      <==> !inv.help && inv.url.Some? && (inv.profile.None? || inv.profile.value > 0)
    ensures !inv.help && inv.url.Some? && inv.profile.Some? && inv.profile.value > 0 ==>
      RequestsIssued(ModeOf(inv)) == inv.profile.value
  {
  }

  /** What the user sees. */
  datatype Shown =
    | Usage
    | UrlMissing
    | Printed(text: string)
    | CountInvalid
    | Report(summary: Summary)
    | Diagnostic(reason: FatalError)

  /** How the process ends: main returns (or error() exits) with a status,
      or an uncaught exception terminates it. */
  datatype Outcome = Exit(status: int, shown: Shown) | Terminated(exception: Exception)

  /** error() exits with status 0; an exception ends the process. */
  function FailureOutcome(f: Failure): (o: Outcome)
    ensures o.Exit? <==> f.Fatal?
    ensures o.Exit? ==> o.status == 0 && o.shown == Diagnostic(f.reason)
    ensures o.Terminated? ==> o.exception == f.exception
  {
    match f
    case Fatal(reason) => Exit(0, Diagnostic(reason))
    case Threw(e) => Terminated(e)
  }

  /** Single-shot mode: the body on status 200, "status <code>" otherwise,
      each followed by two newlines, and exit status 1. */
  function SingleShotOutcome(g: Result<Exchange, Failure>): (o: Outcome)
    ensures g.Err? ==> o == FailureOutcome(g.error)
    ensures g.Ok? && ParseResponseStatus(g.value.text).Err? ==>
              o == Terminated(ParseResponseStatus(g.value.text).error)
    ensures g.Ok? && o.Exit? ==> o.status == 1 && o.shown.Printed?
                                 && |o.shown.text| >= 2 && o.shown.text[|o.shown.text| - 2..] == "\n\n"
  {
    match g
    case Err(f) => FailureOutcome(f)
    case Ok(x) =>
      match ParseResponseStatus(x.text)
      case Err(e) => Terminated(e)
      case Ok(status) =>
        match ParseResponseContent(x.text)
        case Err(e) => Terminated(e)
        case Ok(content) =>
          Exit(1, Printed(if status == 200 then content + "\n\n" else "status " + ToString(status) + "\n\n"))
  }

  /** For a well-formed response the single-shot output is decided by the
      code in its status line. */
  lemma SingleShotPrints(code: int, reason: string, body: string, ms: int)
    requires 100 <= code <= 999
    requires forall i :: 0 <= i < |reason| ==> reason[i] != '\r'
    ensures SingleShotOutcome(Ok(Exchange(StatusToken + ToString(code) + reason + Separator + body, ms)))
      == Exit(1, Printed(if code == 200 then body + "\n\n" else "status " + ToString(code) + "\n\n"))
  {
    var head := StatusToken + ToString(code) + reason;
    var text := head + Separator + body;
    assert ParseResponseStatus(text) == Ok(code) by {
      StatusLineRoundTrip(code, reason + Separator + body);
      Regroup(StatusToken, ToString(code), reason, Separator, body);
    }
    assert ParseResponseContent(text) == Ok(body) by {
      StatusLineHasNoCR(code, reason);
      ContentAfterHeaders(head, body);
    }
    SingleShotOfParsed(Exchange(text, ms), code, body);
  }

  lemma Regroup(a: string, b: string, c: string, d: string, e: string)
    ensures a + b + (c + d + e) == a + b + c + d + e
  {
  }

  lemma SingleShotOfParsed(x: Exchange, code: int, body: string)
    requires ParseResponseStatus(x.text) == Ok(code) && ParseResponseContent(x.text) == Ok(body)
    ensures SingleShotOutcome(Ok(x))
      == Exit(1, Printed(if code == 200 then body + "\n\n" else "status " + ToString(code) + "\n\n"))
  {
  }

  lemma StatusLineHasNoCR(code: int, reason: string)
    requires 100 <= code <= 999
    requires forall i :: 0 <= i < |reason| ==> reason[i] != '\r'
    ensures var head := StatusToken + ToString(code) + reason;
      forall i :: 0 <= i < |head| ==> head[i] != '\r'
  {
    var head := StatusToken + ToString(code) + reason;
    ThreeDigitCode(code);
    forall i | 0 <= i < |head| ensures head[i] != '\r' {
      if i >= 12 {
        assert head[i] == reason[i - 12];
      } else if i >= 9 {
        assert head[i] == ToString(code)[i - 9];
      }
    }
  }

  // ---- The profiling loop

  /** The statistics the profiling loop gathers. */
  datatype Summary = Summary(
    smallestResponseSize: int,
    largestResponseSize: int,
    succeeded: nat,
    nonSuccessCodes: string,
    times: seq<int>,          // the elapsed times, after std::sort
    fastestTime: int,
    slowestTime: int,
    medianTime: int,
    totalTime: int)           // std::accumulate of times, behind meanTime

  function Length(g: Result<Exchange, Failure>): (n: int)
  {
    if g.Ok? then |g.value.text| else 0
  }

  function Elapsed(g: Result<Exchange, Failure>): (ms: int)
  {
    if g.Ok? then g.value.elapsedMs else 0
  }

  /** Responses as get delivers them: shorter than the read buffer. */
  predicate FromGet(gets: seq<Result<Exchange, Failure>>)
  {
    forall k :: 0 <= k < |gets| ==> Length(gets[k]) < Total
  }

  /** The elapsed times in request order: the times vector before sorting. */
  function TimesOf(gets: seq<Result<Exchange, Failure>>): (ts: seq<int>)
    ensures |ts| == |gets| && forall k :: 0 <= k < |gets| ==> ts[k] == Elapsed(gets[k])
  {
    if gets == [] then [] else TimesOf(gets[..|gets| - 1]) + [Elapsed(gets[|gets| - 1])]
  }

  /** One request as the loop sees it: the failure of get, the exception of
      parseResponseStatus, or the status code. */
  function StatusOf(g: Result<Exchange, Failure>): (r: Result<int, Failure>)
    ensures r.Ok? <==> g.Ok? && ParseResponseStatus(g.value.text).Ok?
  {
    if g.Err? then Err(g.error)
    else
      match ParseResponseStatus(g.value.text)
      case Err(e) => Err(Threw(e))
      case Ok(code) => Ok(code)
  }

  /** The status codes of the first n responses in request order, or the
      first failure met running those requests one after another. */
  function StatusesUpTo(gets: seq<Result<Exchange, Failure>>, n: nat): (r: Result<seq<int>, Failure>)
    requires n <= |gets|
    ensures r.Ok? ==> |r.value| == n
  {
    if n == 0 then Ok([])
    else
      match StatusesUpTo(gets, n - 1)
      case Err(f) => Err(f)
      case Ok(earlier) =>
        match StatusOf(gets[n - 1])
        case Err(f) => Err(f)
        case Ok(code) => Ok(earlier + [code])
  }

  function Statuses(gets: seq<Result<Exchange, Failure>>): (r: Result<seq<int>, Failure>)
    ensures r.Ok? ==> |r.value| == |gets|
  {
    StatusesUpTo(gets, |gets|)
  }

  /** Without a failure, every response was received and its status code
      read, and the codes appear in request order. */
  lemma StatusesAreCodes(gets: seq<Result<Exchange, Failure>>, k: int)
    requires Statuses(gets).Ok? && 0 <= k < |gets|
    ensures gets[k].Ok? && ParseResponseStatus(gets[k].value.text) == Ok(Statuses(gets).value[k])
  {
    CodesUpTo(gets, |gets|, k);
  }

  lemma {:induction false} CodesUpTo(gets: seq<Result<Exchange, Failure>>, n: nat, k: int)
    requires n <= |gets| && StatusesUpTo(gets, n).Ok? && 0 <= k < n
    ensures StatusOf(gets[k]) == Ok(StatusesUpTo(gets, n).value[k])
  {
    if k < n - 1 {
      CodesUpTo(gets, n - 1, k);
    }
  }

  /** Once a request fails, the requests after it change nothing. */
  lemma {:induction false} FirstFailureStands(gets: seq<Result<Exchange, Failure>>, i: nat, n: nat, f: Failure)
    requires i <= n <= |gets| && StatusesUpTo(gets, i) == Err(f)
    ensures StatusesUpTo(gets, n) == Err(f)
  {
    if i < n {
      FirstFailureStands(gets, i, n - 1, f);
      FailureStaysFirst(gets, n, f);
    }
  }

  lemma FailureStaysFirst(gets: seq<Result<Exchange, Failure>>, n: nat, f: Failure)
    requires 0 < n <= |gets| && StatusesUpTo(gets, n - 1) == Err(f)
    ensures StatusesUpTo(gets, n) == Err(f)
  {
  }

  /** The number of 200 codes. */
  function CountSucceeded(codes: seq<int>): (n: nat)
    ensures n <= |codes|
  {
    if codes == [] then 0
    else CountSucceeded(codes[..|codes| - 1]) + (if codes[|codes| - 1] == 200 then 1 else 0)
  }

  /** The codes other than 200, in request order. */
  function NonSuccess(codes: seq<int>): (failed: seq<int>)
    ensures forall k :: 0 <= k < |failed| ==> failed[k] != 200
  {
    if codes == [] then []
    else
      var last := codes[|codes| - 1];
      NonSuccess(codes[..|codes| - 1]) + (if last == 200 then [] else [last])
  }

  /** nonSuccessCodes: each code printed in decimal and followed by a space. */
  function CodesText(codes: seq<int>): (text: string)
    ensures text == [] <==> codes == []
    ensures text != [] ==> text[|text| - 1] == ' '
  {
    if codes == [] then "" else CodesText(codes[..|codes| - 1]) + ToString(codes[|codes| - 1]) + " "
  }

  /** Every request is counted once: as a success or as a recorded code. */
  lemma {:induction false} SucceededPlusFailed(codes: seq<int>)
    ensures CountSucceeded(codes) + |NonSuccess(codes)| == |codes|
  {
    if codes != [] {
      SucceededPlusFailed(codes[..|codes| - 1]);
    }
  }

  function CountChar(s: string, c: char): (n: nat)
    ensures n <= |s|
  {
    if s == [] then 0 else CountChar(s[..|s| - 1], c) + (if s[|s| - 1] == c then 1 else 0)
  }

  lemma {:induction false} CountCharConcat(a: string, b: string, c: char)
    ensures CountChar(a + b, c) == CountChar(a, c) + CountChar(b, c)
    decreases |b|
  {
    if b != [] {
      assert (a + b)[..|a + b| - 1] == a + b[..|b| - 1];
      CountCharConcat(a, b[..|b| - 1], c);
    } else {
      assert a + b == a;
    }
  }

  lemma {:induction false} NoSpaceCount(s: string)
    requires forall i :: 0 <= i < |s| ==> s[i] != ' '
    ensures CountChar(s, ' ') == 0
  {
    if s != [] {
      NoSpaceCount(s[..|s| - 1]);
    }
  }

  /** The codes text holds one space per recorded code, so together with the
      success count it accounts for every request. */
  lemma {:induction false} CodesTextSpaces(codes: seq<int>)
    ensures CountChar(CodesText(codes), ' ') == |codes|
  {
    if codes != [] {
      var init := codes[..|codes| - 1];
      var code := ToString(codes[|codes| - 1]);
      CodesTextSpaces(init);
      ToStringHasNoSpace(codes[|codes| - 1]);
      NoSpaceCount(code);
      CountCharConcat(CodesText(init), code, ' ');
      CountCharConcat(CodesText(init) + code, " ", ' ');
      assert CountChar(" ", ' ') == 1;
    }
  }

  lemma CodesExample(ok: int, notFound: int, serverError: int, codes: seq<int>)
    requires ok == 200 && notFound == 404 && serverError == 500
    requires codes == [ok, ok, notFound, ok, serverError]
    ensures CountSucceeded(codes) == 3
    ensures NonSuccess(codes) == [notFound, serverError]
  {
    var c0: seq<int> := [];
    var c1 := c0 + [ok];
    var c2 := c1 + [ok];
    var c3 := c2 + [notFound];
    var c4 := c3 + [ok];
    assert codes == c4 + [serverError];
    CountGrow(c0, ok);
    NonSuccessGrow(c0, ok);
    CountGrow(c1, ok);
    NonSuccessGrow(c1, ok);
    CountGrow(c2, notFound);
    NonSuccessGrow(c2, notFound);
    CountGrow(c3, ok);
    NonSuccessGrow(c3, ok);
    CountGrow(c4, serverError);
    NonSuccessGrow(c4, serverError);
  }

  lemma CodesTextExample(failed: seq<int>)
    requires failed == [404, 500]
    ensures CodesText(failed) == "404 500 "
  {
    Code404();
    Code500();
    assert failed[..1] == [404] && failed[..1][..0] == [];
    assert CodesText(failed[..1]) == "404 ";
  }

  lemma Code500()
    ensures ToString(500) == "500"
  {
    assert NatToString(5) == "5";
    assert NatToString(50) == "50";
  }

  /** C++ integer division by two, which truncates toward zero. */
  function Halve(x: int): (h: int)
    ensures x >= 0 ==> 0 <= x - 2 * h <= 1
    ensures x < 0 ==> -1 <= x - 2 * h <= 0
  {
    if x >= 0 then x / 2 else -((-x) / 2)
  }

  /** The median as main computes it on the sorted times: the middle element
      for an odd count, otherwise the mean of the elements at n/2 and n/2+1.
      times.at throws out_of_range when that index is past the end (n = 2,
      and n = 0, where times.at(0) throws before this). */
  function MedianAsWritten(sorted: seq<int>): (m: Result<int, Exception>)
    ensures m.Err? <==> |sorted| == 0 || |sorted| == 2
  {
    var n := |sorted|;
    if n % 2 == 1 then Ok(sorted[n / 2])
    else if n / 2 + 1 < n then Ok(Halve(sorted[n / 2] + sorted[n / 2 + 1]))
    else Err(OutOfRange)
  }

  /** The usual median, for comparison: for an even count, the mean of the
      two middle elements at n/2-1 and n/2. */
  function ConventionalMedian(sorted: seq<int>): (m: int)
    requires |sorted| > 0
  {
    var n := |sorted|;
    if n % 2 == 1 then sorted[n / 2] else Halve(sorted[n / 2 - 1] + sorted[n / 2])
  }

  lemma HalveBetween(a: int, b: int, lo: int, hi: int)
    requires lo <= a <= hi && lo <= b <= hi
    ensures lo <= Halve(a + b) <= hi
  {
  }

  lemma HalveMonotone(x: int, y: int)
    requires x <= y
    ensures Halve(x) <= Halve(y)
  {
  }

  /** Whenever it is defined, the median lies between the fastest and the
      slowest time. */
  lemma MedianWithinBounds(sorted: seq<int>)
    requires Sorting.IsSorted(sorted) && MedianAsWritten(sorted).Ok?
    ensures sorted[0] <= MedianAsWritten(sorted).value <= sorted[|sorted| - 1]
  {
    var n := |sorted|;
    if n % 2 == 0 {
      HalveBetween(sorted[n / 2], sorted[n / 2 + 1], sorted[0], sorted[n - 1]);
    }
  }

  /** On an odd count the two medians agree; on an even count of four or more
      the one main prints is never below the usual one. */
  lemma MedianAgainstConventional(sorted: seq<int>)
    requires Sorting.IsSorted(sorted) && MedianAsWritten(sorted).Ok?
    ensures |sorted| % 2 == 1 ==> MedianAsWritten(sorted).value == ConventionalMedian(sorted)
    ensures MedianAsWritten(sorted).value >= ConventionalMedian(sorted)
  {
    var n := |sorted|;
    if n % 2 == 0 {
      HalveMonotone(sorted[n / 2 - 1] + sorted[n / 2], sorted[n / 2] + sorted[n / 2 + 1]);
    }
  }

  lemma MedianExamples()
    ensures MedianAsWritten([10, 20, 30, 40, 50, 60]) == Ok(45)
    ensures ConventionalMedian([10, 20, 30, 40, 50, 60]) == 35
    ensures MedianAsWritten([10, 20, 30, 40]) == Ok(35)
    ensures MedianAsWritten([10, 20, 30]) == Ok(20)
    ensures MedianAsWritten([10, 20]) == Err(OutOfRange)
  {
  }

  function Sum(s: seq<int>): (total: int)
    ensures (forall k :: 0 <= k < |s| ==> s[k] >= 0) ==> total >= 0
  {
    if s == [] then 0 else s[0] + Sum(s[1..])
  }

  lemma {:induction false} SumConcat(a: seq<int>, b: seq<int>)
    ensures Sum(a + b) == Sum(a) + Sum(b)
    decreases |a|
  {
    if a != [] {
      assert (a + b)[1..] == a[1..] + b;
      SumConcat(a[1..], b);
    } else {
      assert a + b == b;
    }
  }

  /** Reordering does not change the sum: accumulating the sorted times gives
      the total of the times in request order. */
  lemma {:induction false} SumPermutation(a: seq<int>, b: seq<int>)
    requires multiset(a) == multiset(b)
    ensures Sum(a) == Sum(b)
    decreases |a|
  {
    if a == [] {
      assert |b| == |multiset(b)| == 0;
    } else {
      var x := a[0];
      assert x in multiset(b);
      var i :| 0 <= i < |b| && b[i] == x;
      var rest := b[..i] + b[i + 1..];
      RemoveAt(b, i);
      Sorting.TailMultiset(a);
      SumPermutation(a[1..], rest);
      assert Sum(a) == x + Sum(a[1..]);
      SumRemove(b, i);
    }
  }

  /** Removing the element at i takes one copy of it out of the multiset. */
  lemma RemoveAt(b: seq<int>, i: nat)
    requires i < |b|
    ensures multiset(b[..i] + b[i + 1..]) == multiset(b) - multiset{b[i]}
  {
    assert b == b[..i] + [b[i]] + b[i + 1..];
  }

  /** Removing the element at i takes it out of the sum. */
  lemma SumRemove(b: seq<int>, i: nat)
    requires i < |b|
    ensures Sum(b) == b[i] + Sum(b[..i] + b[i + 1..])
  {
    var pre, post := b[..i], b[i + 1..];
    var mid := [b[i]] + post;
    assert b == pre + mid;
    SumConcat(pre, mid);
    assert mid[1..] == post;
    SumConcat(pre, post);
  }

  /** One more code: counted as a success, or appended to the codes text. */
  lemma TallyGrow(codes: seq<int>, code: int)
    ensures CountSucceeded(codes + [code]) == CountSucceeded(codes) + (if code == 200 then 1 else 0)
    ensures CodesText(NonSuccess(codes + [code]))
      == CodesText(NonSuccess(codes)) + (if code == 200 then "" else ToString(code) + " ")
  {
    assert (codes + [code])[..|codes|] == codes;
    CountGrow(codes, code);
    NonSuccessGrow(codes, code);
    if code != 200 {
      CodesTextGrow(NonSuccess(codes), code);
    } else {
      assert NonSuccess(codes) + [] == NonSuccess(codes);
    }
  }

  lemma CountGrow(codes: seq<int>, code: int)
    ensures CountSucceeded(codes + [code]) == CountSucceeded(codes) + (if code == 200 then 1 else 0)
  {
    assert (codes + [code])[..|codes|] == codes;
  }

  lemma NonSuccessGrow(codes: seq<int>, code: int)
    ensures NonSuccess(codes + [code]) == NonSuccess(codes) + (if code == 200 then [] else [code])
  {
    assert (codes + [code])[..|codes|] == codes;
  }

  lemma CodesTextGrow(codes: seq<int>, code: int)
    ensures CodesText(codes + [code]) == CodesText(codes) + ToString(code) + " "
  {
    assert (codes + [code])[..|codes|] == codes;
  }

  /** What the statistics after the loop promise about the sorted times. */
  lemma SortedTimes(issued: seq<int>, times: seq<int>)
    requires times == Sorting.SortAscending(issued) && |times| > 0 && MedianAsWritten(times).Ok?
    ensures forall k :: 0 <= k < |issued| ==> times[0] <= issued[k] <= times[|times| - 1]
    ensures times[0] <= MedianAsWritten(times).value <= times[|times| - 1]
    ensures Sum(times) == Sum(issued)
  {
    forall k | 0 <= k < |issued| ensures times[0] <= issued[k] <= times[|times| - 1] {
      assert issued[k] in multiset(issued);
      Sorting.SortedBounds(times, issued[k]);
    }
    MedianWithinBounds(times);
    SumPermutation(times, issued);
  }

  /** What the profiling loop establishes about its summary: the extreme
      sizes, the counts of status codes, and the statistics of the times. */
  predicate Summarizes(s: Summary, gets: seq<Result<Exchange, Failure>>, codes: seq<int>)
  {
    && SizesUpTo(s.smallestResponseSize, s.largestResponseSize, gets, |gets|)
    && s.succeeded == CountSucceeded(codes)
    && s.nonSuccessCodes == CodesText(NonSuccess(codes))
    && SummarizesTimes(s, TimesOf(gets))
  }

  /** The statistics of the elapsed times issued, in request order: the sorted
      times, the fastest and slowest among them, the median between those two,
      and the total. */
  predicate SummarizesTimes(s: Summary, issued: seq<int>)
  {
    && Sorting.IsSorted(s.times) && multiset(s.times) == multiset(issued)
    && |s.times| == |issued| > 0
    && s.fastestTime == s.times[0] && s.slowestTime == s.times[|s.times| - 1]
    && (forall k :: 0 <= k < |issued| ==> s.fastestTime <= issued[k] <= s.slowestTime)
    && MedianAsWritten(s.times) == Ok(s.medianTime)
    && s.fastestTime <= s.medianTime <= s.slowestTime
    && s.totalTime == Sum(issued)
  }

  /** What the request loop has gathered. */
  datatype Tally = Tally(
    smallestResponseSize: int,
    largestResponseSize: int,
    succeeded: nat,
    nonSuccessCodes: string,
    times: seq<int>)          // in request order

  /** The tally before the first request. */
  const NoResponses: Tally := Tally(IntMax, 0, 0, "", [])

  /** The tally once one more response, with the given status code, is recorded. */
  function Record(t: Tally, x: Exchange, code: int): (u: Tally)
    ensures u.smallestResponseSize <= t.smallestResponseSize && u.smallestResponseSize <= |x.text|
    ensures u.smallestResponseSize == t.smallestResponseSize || u.smallestResponseSize == |x.text|
    ensures u.largestResponseSize >= t.largestResponseSize && u.largestResponseSize >= |x.text|
    ensures u.largestResponseSize == t.largestResponseSize || u.largestResponseSize == |x.text|
    ensures u.succeeded == t.succeeded + 1 <==> code == 200
    ensures code != 200 ==> u.succeeded == t.succeeded
    ensures code == 200 <==> u.nonSuccessCodes == t.nonSuccessCodes
    ensures t.nonSuccessCodes <= u.nonSuccessCodes
    ensures u.times == t.times + [x.elapsedMs]
  {
    Tally(Min(t.smallestResponseSize, |x.text|),
          if |x.text| > t.largestResponseSize then |x.text| else t.largestResponseSize,
          t.succeeded + (if code == 200 then 1 else 0),
          if code == 200 then t.nonSuccessCodes else t.nonSuccessCodes + ToString(code) + " ",
          t.times + [x.elapsedMs])
  }

  /** The state of the request loop after the first n requests, or the
      failure that ended it. */
  function TallyUpTo(gets: seq<Result<Exchange, Failure>>, n: nat): (r: Result<Tally, Failure>)
    requires n <= |gets|
    ensures r.Ok? ==> |r.value.times| == n
  {
    if n == 0 then Ok(NoResponses)
    else
      match TallyUpTo(gets, n - 1)
      case Err(f) => Err(f)
      case Ok(t) =>
        match StatusOf(gets[n - 1])
        case Err(f) => Err(f)
        case Ok(code) => Ok(Record(t, gets[n - 1].value, code))
  }

  /** smallest and largest bound the sizes of the first n responses and are
      sizes of two of them; before any response they are INT_MAX and 0. */
  predicate SizesUpTo(smallest: int, largest: int, gets: seq<Result<Exchange, Failure>>, n: nat)
    requires n <= |gets|
  {
    && (n == 0 ==> smallest == IntMax && largest == 0)
    && (forall k :: 0 <= k < n ==> smallest <= Length(gets[k]) <= largest)
    && (n > 0 ==> exists k :: 0 <= k < n && smallest == Length(gets[k]))
    && (n > 0 ==> exists k :: 0 <= k < n && largest == Length(gets[k]))
  }

  /** What a tally of the first n requests, whose status codes are codes, says
      about them. */
  predicate TalliesUpTo(t: Tally, gets: seq<Result<Exchange, Failure>>, n: nat, codes: seq<int>)
    requires n <= |gets|
  {
    && SizesUpTo(t.smallestResponseSize, t.largestResponseSize, gets, n)
    && t.succeeded == CountSucceeded(codes)
    && t.nonSuccessCodes == CodesText(NonSuccess(codes))
    && |t.times| == n && (forall k :: 0 <= k < n ==> t.times[k] == Elapsed(gets[k]))
  }

  /** The loop fails exactly when some request fails, with the first failure;
      otherwise its tally holds the extreme sizes, the count of successes,
      the other codes and the times of the requests. */
  lemma {:induction false} TallyUpToMeaning(gets: seq<Result<Exchange, Failure>>, n: nat)
    requires n <= |gets| && FromGet(gets)
    ensures TallyUpTo(gets, n).Err? <==> StatusesUpTo(gets, n).Err?
    ensures TallyUpTo(gets, n).Err? ==> TallyUpTo(gets, n).error == StatusesUpTo(gets, n).error
    ensures TallyUpTo(gets, n).Ok? ==>
      TalliesUpTo(TallyUpTo(gets, n).value, gets, n, StatusesUpTo(gets, n).value)
  {
    if n > 0 {
      TallyUpToMeaning(gets, n - 1);
      if TallyUpTo(gets, n - 1).Ok? && StatusOf(gets[n - 1]).Ok? {
        RecordKeepsTallies(TallyUpTo(gets, n - 1).value, gets, n,
                           StatusesUpTo(gets, n - 1).value, StatusOf(gets[n - 1]).value);
      }
    }
  }

  lemma RecordKeepsTallies(t: Tally, gets: seq<Result<Exchange, Failure>>, n: nat, codes: seq<int>, code: int)
    requires 0 < n <= |gets| && FromGet(gets) && gets[n - 1].Ok?
    requires TalliesUpTo(t, gets, n - 1, codes)
    ensures TalliesUpTo(Record(t, gets[n - 1].value, code), gets, n, codes + [code])
  {
    var size := |gets[n - 1].value.text|;
    RecordSizes(t.smallestResponseSize, t.largestResponseSize, gets, n);
    TallyGrow(codes, code);
  }

  /** Recording the n-th size keeps the extremes exact. */
  lemma RecordSizes(smallest: int, largest: int, gets: seq<Result<Exchange, Failure>>, n: nat)
    requires 0 < n <= |gets| && FromGet(gets) && gets[n - 1].Ok?
    requires SizesUpTo(smallest, largest, gets, n - 1)
    ensures var size := |gets[n - 1].value.text|;
      SizesUpTo(Min(smallest, size), if size > largest then size else largest, gets, n)
  {
    var size := |gets[n - 1].value.text|;
    assert Length(gets[n - 1]) == size < Total;
    if n > 1 {
      var s :| 0 <= s < n - 1 && smallest == Length(gets[s]);
      var l :| 0 <= l < n - 1 && largest == Length(gets[l]);
      assert Min(smallest, size) == Length(gets[if size < smallest then n - 1 else s]);
      assert (if size > largest then size else largest) == Length(gets[if size > largest then n - 1 else l]);
    } else {
      assert Min(smallest, size) == Length(gets[0]);
    }
  }

  /** Once a request fails, the requests after it are never issued. */
  lemma {:induction false} TallyStops(gets: seq<Result<Exchange, Failure>>, i: nat, n: nat, f: Failure)
    requires i <= n <= |gets| && TallyUpTo(gets, i) == Err(f)
    ensures TallyUpTo(gets, n) == Err(f)
  {
    if i < n {
      TallyStops(gets, i, n - 1, f);
      FailureCarries(gets, n, f);
    }
  }

  /** A failure among the first n - 1 requests is the outcome after n. */
  lemma FailureCarries(gets: seq<Result<Exchange, Failure>>, n: nat, f: Failure)
    requires 0 < n <= |gets| && TallyUpTo(gets, n - 1) == Err(f)
    ensures TallyUpTo(gets, n) == Err(f)
  {
  }

  /** One step of the loop in terms of the tally before it. */
  lemma TallyStep(gets: seq<Result<Exchange, Failure>>, i: nat, t: Tally)
    requires i < |gets| && TallyUpTo(gets, i) == Ok(t)
    requires gets[i].Ok? && ParseResponseStatus(gets[i].value.text).Ok?
    ensures TallyUpTo(gets, i + 1) == Ok(Record(t, gets[i].value, ParseResponseStatus(gets[i].value.text).value))
  {
  }

  /** A request that fails after i successful ones ends the loop with its failure. */
  lemma TallyFails(gets: seq<Result<Exchange, Failure>>, i: nat, t: Tally, f: Failure)
    requires i < |gets| && TallyUpTo(gets, i) == Ok(t) && StatusOf(gets[i]) == Err(f)
    ensures TallyUpTo(gets, |gets|) == Err(f)
  {
    TallyStops(gets, i + 1, |gets|, f);
  }

  /** The bookkeeping of one response in the loop of main: the smallest and
      largest size so far, the elapsed time, and the status code counted as a
      success or appended to nonSuccessCodes. */
  method RecordResponse(t: Tally, x: Exchange, code: int) returns (u: Tally)
    ensures u == Record(t, x, code)
  {
    u := t;
    var responseBytes := |x.text|;
    if responseBytes < u.smallestResponseSize {
      u := u.(smallestResponseSize := responseBytes);
    }
    if responseBytes > u.largestResponseSize {
      u := u.(largestResponseSize := responseBytes);
    }
    u := u.(times := u.times + [x.elapsedMs]);
    if code == 200 {
      u := u.(succeeded := u.succeeded + 1);
    } else {
      u := u.(nonSuccessCodes := u.nonSuccessCodes + ToString(code) + " ");
    }
  }

  /** The loop of main in profiling mode, over the results of its calls of
      get: response sizes, elapsed times and status codes. */
  method CollectResponses(gets: seq<Result<Exchange, Failure>>) returns (r: Result<Tally, Failure>)
    ensures r == TallyUpTo(gets, |gets|)
  {
    var t := NoResponses;
    var i := 0;
    while i < |gets|
      invariant 0 <= i <= |gets|
      invariant TallyUpTo(gets, i) == Ok(t)
    {
      var g := gets[i];
      if g.Err? {
        // get() reported a fatal error and exited, or threw
        TallyFails(gets, i, t, g.error);
        return Err(g.error);
      }
      var status := ParseResponseStatus(g.value.text);
      if status.Err? {
        TallyFails(gets, i, t, Threw(status.error));
        return Err(Threw(status.error));
      }
      TallyStep(gets, i, t);
      t := RecordResponse(t, g.value, status.value);
      i := i + 1;
    }
    r := Ok(t);
  }

  /** The summary keeps the sizes and status counts of the tally. */
  predicate KeepsCounts(s: Summary, t: Tally)
  {
    && s.smallestResponseSize == t.smallestResponseSize
    && s.largestResponseSize == t.largestResponseSize
    && s.succeeded == t.succeeded
    && s.nonSuccessCodes == t.nonSuccessCodes
  }

  /** The summary of the tally of all requests is what Summarizes promises. */
  lemma SummaryOfTally(s: Summary, t: Tally, gets: seq<Result<Exchange, Failure>>, codes: seq<int>)
    requires TalliesUpTo(t, gets, |gets|, codes) && KeepsCounts(s, t) && SummarizesTimes(s, t.times)
    ensures Summarizes(s, gets, codes) && t.times == TimesOf(gets)
  {
    TalliedTimes(t, gets, codes);
  }

  lemma TalliedTimes(t: Tally, gets: seq<Result<Exchange, Failure>>, codes: seq<int>)
    requires TalliesUpTo(t, gets, |gets|, codes)
    ensures t.times == TimesOf(gets)
  {
  }

  /** main after the request loop: sort the times and take the fastest, the
      slowest, the median and the total. times.at(0) and the median throw
      out_of_range when there is no time, or exactly two. */
  function SummaryOf(t: Tally): (r: Result<Summary, Exception>)
    ensures r.Err? <==> |t.times| == 0 || |t.times| == 2
    ensures r.Err? ==> r.error == OutOfRange
  {
    var times := Sorting.SortAscending(t.times);
    if |times| == 0 then Err(OutOfRange)
    else
      match MedianAsWritten(times)
      case Err(e) => Err(e)
      case Ok(median) =>
        Ok(Summary(t.smallestResponseSize, t.largestResponseSize, t.succeeded, t.nonSuccessCodes,
                   times, times[0], times[|times| - 1], median, Sum(times)))
  }

  /** The statistics are computed unless there are no times or exactly two;
      they keep the counts of the tally and summarize its times. */
  lemma SummaryOfMeaning(t: Tally)
    ensures SummaryOf(t).Err? <==> |t.times| == 0 || |t.times| == 2
    ensures SummaryOf(t).Err? ==> SummaryOf(t).error == OutOfRange
    ensures SummaryOf(t).Ok? ==> KeepsCounts(SummaryOf(t).value, t)
    ensures SummaryOf(t).Ok? ==> SummaryOf(t).value.times == Sorting.SortAscending(t.times)
    ensures SummaryOf(t).Ok? ==> SummarizesTimes(SummaryOf(t).value, t.times)
  {
    var times := Sorting.SortAscending(t.times);
    if |times| > 0 && MedianAsWritten(times).Ok? {
      SortedTimes(t.times, times);
    }
  }

  method SummarizeTimes(t: Tally) returns (r: Result<Summary, Exception>)
    ensures r == SummaryOf(t)
  {
    var times := Sorting.SortAscending(t.times);
    if |times| == 0 {
      return Err(OutOfRange);   // times.at(0)
    }
    var fastestTime := times[0];
    var slowestTime := times[|times| - 1];
    var median := MedianAsWritten(times);
    if median.Err? {
      return Err(median.error);
    }
    var totalTime := Sum(times);
    r := Ok(Summary(t.smallestResponseSize, t.largestResponseSize, t.succeeded, t.nonSuccessCodes,
                    times, fastestTime, slowestTime, median.value, totalTime));
  }

  /** main in profiling mode: the request loop, then the statistics. */
  function ProfileOf(gets: seq<Result<Exchange, Failure>>): (r: Result<Summary, Failure>)
    ensures r.Ok? <==> TallyUpTo(gets, |gets|).Ok? && |gets| != 0 && |gets| != 2
    ensures TallyUpTo(gets, |gets|).Err? ==> r == Err(TallyUpTo(gets, |gets|).error)
    ensures r.Ok? ==> |r.value.times| == |gets|
  {
    match TallyUpTo(gets, |gets|)
    case Err(f) => Err(f)
    case Ok(t) =>
      match SummaryOf(t)
      case Err(e) => Err(Threw(e))
      case Ok(summary) => Ok(summary)
  }

  method ProfileRequests(gets: seq<Result<Exchange, Failure>>) returns (r: Result<Summary, Failure>)
    ensures r == ProfileOf(gets)
  {
    var collected := CollectResponses(gets);
    if collected.Err? {
      return Err(collected.error);
    }
    var summary := SummarizeTimes(collected.value);
    if summary.Err? {
      return Err(Threw(summary.error));
    }
    r := Ok(summary.value);
  }

  /** Profiling fails with the first failed request, and otherwise throws
      out_of_range exactly when there are no times or exactly two. */
  lemma ProfileFails(gets: seq<Result<Exchange, Failure>>)
    requires FromGet(gets)
    ensures Statuses(gets).Err? ==> ProfileOf(gets) == Err(Statuses(gets).error)
    ensures Statuses(gets).Ok? && (|gets| == 0 || |gets| == 2) ==> ProfileOf(gets) == Err(Threw(OutOfRange))
    ensures ProfileOf(gets).Ok? <==> Statuses(gets).Ok? && |gets| != 0 && |gets| != 2
  {
    TallyUpToMeaning(gets, |gets|);
    if TallyUpTo(gets, |gets|).Ok? {
      SummaryOfMeaning(TallyUpTo(gets, |gets|).value);
    }
  }

  /** A profile that completes summarizes every request: sizes, codes and times. */
  lemma ProfileSummarizes(gets: seq<Result<Exchange, Failure>>)
    requires FromGet(gets) && ProfileOf(gets).Ok?
    ensures Statuses(gets).Ok?
    ensures Summarizes(ProfileOf(gets).value, gets, Statuses(gets).value)
    ensures ProfileOf(gets).value.times == Sorting.SortAscending(TimesOf(gets))
  {
    TallyUpToMeaning(gets, |gets|);
    var t := TallyUpTo(gets, |gets|).value;
    var s := SummaryOf(t).value;
    assert ProfileOf(gets) == Ok(s);
    SummaryOfMeaning(t);
    SummaryOfTally(s, t, gets, Statuses(gets).value);
  }

  // ---- main

  /** main after getArgs: gets holds what the successive calls of get
      return, in order. */
  method Run(inv: Invocation, gets: seq<Result<Exchange, Failure>>) returns (outcome: Outcome)
    requires |gets| >= RequestsIssued(ModeOf(inv)) && FromGet(gets)
    ensures ModeOf(inv) == ShowUsage ==> outcome == Exit(1, Usage)
    ensures ModeOf(inv) == MissingUrl ==> outcome == Exit(0, UrlMissing)
    ensures ModeOf(inv).SingleShot? ==> outcome == SingleShotOutcome(gets[0])
    ensures ModeOf(inv) == CountNotPositive ==> outcome == Exit(0, CountInvalid)
    ensures ModeOf(inv).Profile? ==>
      var run := gets[..ModeOf(inv).count];
      && (Statuses(run).Err? ==> outcome == FailureOutcome(Statuses(run).error))
      && (Statuses(run).Ok? && |run| == 2 ==> outcome == Terminated(OutOfRange))
      && (Statuses(run).Ok? && |run| != 2 ==>
            outcome.Exit? && outcome.status == 1 && outcome.shown.Report?
            && Summarizes(outcome.shown.summary, run, Statuses(run).value))
  {
    var mode := ModeOf(inv);
    match mode {
      case ShowUsage => outcome := Exit(1, Usage);
      case MissingUrl => outcome := Exit(0, UrlMissing);
      case SingleShot(_) => outcome := SingleShotOutcome(gets[0]);
      case CountNotPositive => outcome := Exit(0, CountInvalid);
      case Profile(_, n) =>
        var run := gets[..n];
        var summary := ProfileRequests(run);
        ProfileFails(run);
        if summary.Ok? {
          ProfileSummarizes(run);
        }
        match summary {
          case Err(f) => outcome := FailureOutcome(f);
          case Ok(s) => outcome := Exit(1, Report(s));
        }
    }
  }
}
