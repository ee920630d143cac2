/** get.cpp: splitting a URL into host and path, building the HTTP/1.1 GET
    request, and one request/response exchange with the socket calls
    abstracted into a Network value. */
module Get {
  import opened CppString

  /** MAX_CONTENT_LENGTH: the size of the response buffer. */
  const MaxContentLength: int := 131072

  /** The most bytes the read loop may store: one byte of the buffer is kept
      for the terminating NUL. */
  const Total: int := MaxContentLength - 1

  /** The characters that stop parseHost's backward scan. */
  const HostStops: set<char> := {'.', '/', ':'}

  /** The characters that stop parsePath's backward scan. */
  const PathStops: set<char> := {'.', '/'}

  // ---- Locating the rightmost delimiter

  /** The index of the rightmost character of s that is in d, or -1. */
  function LastIndexIn(s: string, d: set<char>): (k: int)
    ensures -1 <= k < |s|
    ensures k >= 0 ==> s[k] in d
    ensures forall j :: k < j < |s| ==> s[j] !in d
  {
    if s == [] then -1
    else if s[|s| - 1] in d then |s| - 1
    else LastIndexIn(s[..|s| - 1], d)
  }

  /** The rightmost delimiter is the only index with no delimiter after it. */
  lemma {:induction false} LastIndexInIs(s: string, d: set<char>, k: int)
    requires -1 <= k < |s|
    requires k >= 0 ==> s[k] in d
    requires forall j :: k < j < |s| ==> s[j] !in d
    ensures LastIndexIn(s, d) == k
    decreases |s|
  {
    if s != [] && k < |s| - 1 {
      LastIndexInIs(s[..|s| - 1], d, k);
    }
  }

  // ---- parseHost

  /** The scheme prefix parseHost removes: "http://", else "https://", else nothing. */
  function SchemeOf(url: string): (scheme: string)
    ensures scheme <= url
  {
    if StartsWith(url, "http://") then "http://"
    else if StartsWith(url, "https://") then "https://"
    else ""
  }

  /** url without its scheme prefix. */
  function StripScheme(url: string): (rest: string)
    ensures url == SchemeOf(url) + rest
  {
    url[|SchemeOf(url)|..]
  }

  /** The host parseHost returns: the scheme-stripped URL, cut before its
      rightmost '/' or ':' unless a '.' lies to the right of every one of them. */
  function HostOf(url: string): (host: string)
    ensures host <= StripScheme(url)
  {
    var rest := StripScheme(url);
    var k := LastIndexIn(rest, HostStops);
    if k == -1 || rest[k] == '.' then rest else rest[..k]
  }

  /** parseHost: strip the scheme, then scan backward from the end. */
  method ParseHost(url: string) returns (host: string)
    ensures host == HostOf(url)
  {
    var parsedStart := StripScheme(url);
    var i := |parsedStart| - 1;
    while i != -1
      invariant -1 <= i < |parsedStart|
      invariant forall j :: i < j < |parsedStart| ==> parsedStart[j] !in HostStops
    {
      if parsedStart[i] == '.' {
        LastIndexInIs(parsedStart, HostStops, i);
        return parsedStart;
      }
      if parsedStart[i] == '/' || parsedStart[i] == ':' {
        break;
      }
      i := i - 1;
    }
    LastIndexInIs(parsedStart, HostStops, i);
    // substr(0, -1) converts -1 to npos and so keeps the whole string
    host := Substr(parsedStart, 0, i).value;
  }

  /** Exactly one leading "http://" is removed, or else one "https://"; any
      other URL is kept as it is. */
  lemma StripSchemeCases(url: string)
    ensures StartsWith(url, "http://") ==> StripScheme(url) == url[7..]
    ensures !StartsWith(url, "http://") && StartsWith(url, "https://") ==> StripScheme(url) == url[8..]
    ensures !StartsWith(url, "http://") && !StartsWith(url, "https://") ==> StripScheme(url) == url
  {
  }

  /** A '.' to the right of every '/' and ':' gives back the whole stripped URL. */
  lemma HostWholeWhenDotIsLast(url: string, k: nat)
    requires k < |StripScheme(url)| && StripScheme(url)[k] == '.'
    requires forall j :: k < j < |StripScheme(url)| ==> StripScheme(url)[j] != '/' && StripScheme(url)[j] != ':'
    ensures HostOf(url) == StripScheme(url)
  {
    var rest := StripScheme(url);
    var last := LastIndexIn(rest, HostStops);
    assert rest[k] in HostStops;
    assert last >= k;
    assert rest[last] == '.';
  }

  /** With no '.', '/' or ':' at all the whole stripped URL is the host. */
  lemma HostWholeWithoutDelimiters(url: string)
    requires forall j :: 0 <= j < |StripScheme(url)| ==> StripScheme(url)[j] !in HostStops
    ensures HostOf(url) == StripScheme(url)
  {
    LastIndexInIs(StripScheme(url), HostStops, -1);
  }

  /** Otherwise the host is everything strictly before the rightmost '/' or ':'. */
  lemma HostBeforeDelimiter(url: string, k: nat)
    requires k < |StripScheme(url)| && StripScheme(url)[k] in {'/', ':'}
    requires forall j :: k < j < |StripScheme(url)| ==> StripScheme(url)[j] !in HostStops
    ensures HostOf(url) == StripScheme(url)[..k]
  {
    LastIndexInIs(StripScheme(url), HostStops, k);
  }

  lemma HostOfPathUrl()
    ensures HostOf("http://example.com/path") == "example.com"
  {
    var u := "http://example.com/path";
    assert StartsWith(u, "http://");
    var rest := StripScheme(u);
    assert rest == "example.com/path";
    HostBeforeDelimiter(u, 11);
    assert rest[..11] == "example.com";
  }

  lemma HostOfHttpsUrl()
    ensures HostOf("https://example.com") == "example.com"
  {
    var u := "https://example.com";
    assert u[..7] != "http://" by {
      assert u[..7][4] == 's';
    }
    assert StartsWith(u, "https://");
    assert StripScheme(u) == "example.com";
    HostWholeWhenDotIsLast(u, 7);
  }

  /** A URL that does not begin with 'h' has no scheme to strip. */
  lemma NoSchemeUnlessH(u: string)
    requires u != [] && u[0] != 'h'
    ensures StripScheme(u) == u
  {
    assert !StartsWith(u, "http://") by {
      if |u| >= 7 {
        assert u[..7][0] == u[0];
      }
    }
    assert !StartsWith(u, "https://") by {
      if |u| >= 8 {
        assert u[..8][0] == u[0];
      }
    }
  }

  /** The URL is a parameter fixed by the requires clause rather than a literal
      in the ensures: a literal string is unfolded character by character
      wherever it occurs, and binding it once keeps this proof cheap. */
  lemma HostOfPortUrl(u: string)
    requires u == "example.com:8080/x"
    ensures HostOf(u) == "example.com:8080"
  {
    NoSchemeUnlessH(u);
    assert u[16] == '/' && u[17] == 'x';
    HostBeforeDelimiter(u, 16);
  }

  // ---- parsePath

  /** The path parsePath returns: "/ " when a '.' lies to the right of every
      '/', otherwise the text from the rightmost '/' with a space appended.
      With neither character in url, substr is asked to start at npos and
      throws out_of_range. */
  function PathOf(url: string): (path: Result<string, Exception>)
    ensures path.Ok? ==> |path.value| >= 2 && path.value[0] == '/' && path.value[|path.value| - 1] == ' '
  {
    var k := LastIndexIn(url, PathStops);
    if k == -1 then Err(OutOfRange)
    else if url[k] == '.' then Ok("/ ")
    else Ok(url[k..] + " ")
  }

  /** parsePath: scan backward from the end of the URL. */
  method ParsePath(url: string) returns (path: Result<string, Exception>)
    ensures path == PathOf(url)
  {
    var i := |url| - 1;
    while i != -1
      invariant -1 <= i < |url|
      invariant forall j :: i < j < |url| ==> url[j] !in PathStops
    {
      if url[i] == '.' {
        LastIndexInIs(url, PathStops, i);
        return Ok("/ ");
      }
      if url[i] == '/' {
        break;
      }
      i := i - 1;
    }
    LastIndexInIs(url, PathStops, i);
    // at i == -1 the start position converts to npos and substr throws
    var tail := Substr(url, i, |url| - i);
    match tail {
      case Err(e) => path := Err(e);
      case Ok(t) =>
        assert t == url[i..];
        path := Ok(t + " ");
    }
  }

  /** Every path parsePath returns starts with '/', ends with the appended
      space and holds no '.'; it throws exactly when url has neither '.' nor '/'. */
  lemma PathShape(url: string)
    ensures PathOf(url).Err? <==> forall j :: 0 <= j < |url| ==> url[j] != '.' && url[j] != '/'
    ensures PathOf(url).Ok? ==> var p := PathOf(url).value;
      |p| >= 2 && p[0] == '/' && p[|p| - 1] == ' ' && forall j :: 0 <= j < |p| ==> p[j] != '.'
  {
    var k := LastIndexIn(url, PathStops);
    if k == -1 {
      forall j | 0 <= j < |url| ensures url[j] != '.' && url[j] != '/' {
        assert url[j] !in PathStops;
      }
    } else {
      assert url[k] in PathStops;
      if url[k] == '/' {
        var p := url[k..] + " ";
        forall j | 0 <= j < |p| ensures p[j] != '.' {
          if 0 < j < |p| - 1 {
            assert p[j] == url[k + j] && url[k + j] !in PathStops;
          }
        }
      }
    }
  }

  /** The path is "/ " when a '.' lies to the right of every '/'. */
  lemma PathWhenDotIsLast(url: string, k: nat)
    requires k < |url| && url[k] == '.'
    requires forall j :: k < j < |url| ==> url[j] != '/'
    ensures PathOf(url) == Ok("/ ")
  {
    var last := LastIndexIn(url, PathStops);
    assert url[k] in PathStops;
    assert last >= k;
  }

  /** Otherwise it is the text from the rightmost '/' on, plus a space. */
  lemma PathAfterSlash(url: string, k: nat)
    requires k < |url| && url[k] == '/'
    requires forall j :: k < j < |url| ==> url[j] !in PathStops
    ensures PathOf(url) == Ok(url[k..] + " ")
  {
    LastIndexInIs(url, PathStops, k);
  }

  lemma PathExamples()
    ensures PathOf("http://example.com/a/b") == Ok("/b ")
    ensures PathOf("http://example.com") == Ok("/ ")
    ensures PathOf("localhost").Err?
  {
    var u1 := "http://example.com/a/b";
    assert u1[20] == '/' && u1[21] == 'b';
    PathAfterSlash(u1, 20);
    assert u1[20..] == "/b";
    assert "/b" + " " == "/b ";
    PathWhenDotIsLast("http://example.com", 14);
    PathShape("localhost");
  }

  // ---- constructMessage

  /** The request text: request line, Host header, Connection header, blank line. */
  function ConstructMessage(host: string, path: string): (msg: string)
    ensures |msg| == |path| + |host| + 43
    ensures msg[..4] == "GET " && msg[|msg| - 4..] == "\r\n\r\n"
  {
    "GET " + path + "HTTP/1.1" + "\r\nHost: " + host + "\r\nConnection: close" + "\r\n\r\n"
  }

  /** The path and the host can be read back from fixed offsets of the message. */
  lemma MessageFields(host: string, path: string)
    ensures var msg := ConstructMessage(host, path);
      && msg[4..4 + |path|] == path
      && msg[4 + |path|..20 + |path|] == "HTTP/1.1\r\nHost: "
      && msg[20 + |path|..20 + |path| + |host|] == host
      && msg[20 + |path| + |host|..] == "\r\nConnection: close\r\n\r\n"
  {
  }

  /** With the path parsePath returns (a target without '\r' plus one space),
      the first line ends at the first CRLF and is "GET <target> HTTP/1.1", the
      request-line shape of section 3.1.1 of RFC 7230; the Host header of
      section 5.4 of RFC 7230 follows it. */
  lemma RequestLine(host: string, target: string)
    requires forall i :: 0 <= i < |target| ==> target[i] != '\r'
    ensures var msg := ConstructMessage(host, target + " ");
      && Find(msg, "\r\n") == 13 + |target|
      && msg[..13 + |target|] == "GET " + target + " HTTP/1.1"
      && msg[15 + |target|..21 + |target|] == "Host: "
  {
    var line := "GET " + target + " HTTP/1.1";
    var rest := "Host: " + host + "\r\nConnection: close" + "\r\n\r\n";
    MessageAsLines(host, target, line, rest);
    LineHasNoCR(target, line);
    FindAfterHead(line, "\r\n", rest);
    LinePieces(line, "\r\n", rest);
  }

  lemma MessageAsLines(host: string, target: string, line: string, rest: string)
    requires line == "GET " + target + " HTTP/1.1"
    requires rest == "Host: " + host + "\r\nConnection: close" + "\r\n\r\n"
    ensures ConstructMessage(host, target + " ") == line + "\r\n" + rest
  {
    assert " HTTP/1.1" == " " + "HTTP/1.1";
    assert "\r\nHost: " == "\r\n" + "Host: ";
  }

  lemma LineHasNoCR(target: string, line: string)
    requires forall i :: 0 <= i < |target| ==> target[i] != '\r'
    requires line == "GET " + target + " HTTP/1.1"
    ensures forall i :: 0 <= i < |line| ==> line[i] != '\r'
  {
    forall i | 0 <= i < |line| ensures line[i] != '\r' {
      if 4 <= i < 4 + |target| {
        assert line[i] == target[i - 4];
      }
    }
  }

  lemma LinePieces(line: string, crlf: string, rest: string)
    requires |crlf| == 2 && |rest| >= 6
    ensures (line + crlf + rest)[..|line|] == line
    ensures (line + crlf + rest)[|line| + 2..|line| + 8] == rest[..6]
  {
  }

  // ---- The read loop

  /** What one read(2) call on the socket yields. */
  datatype ReadReply =
    | Chunk(data: string)   // read returns |data| > 0 bytes (an empty chunk reads as 0)
    | EndOfStream           // read returns 0: the peer closed the connection
    | ReadFailed            // read returns -1

  /** The value read(2) returns. */
  function ReturnValue(r: ReadReply): (n: int)
    ensures n > 0 <==> r.Chunk? && r.data != []
    ensures r.Chunk? ==> n == |r.data|
  {
    match r
    case Chunk(data) => |data|
    case EndOfStream => 0
    case ReadFailed => -1
  }

  /** read(2) never returns more bytes than it was asked for: while space
      bytes are free, each positive reply fits, until one is non-positive or
      the buffer is full. */
  predicate FitsIn(replies: seq<ReadReply>, space: nat)
    decreases |replies|
  {
    || replies == []
    || ReturnValue(replies[0]) <= 0
    || (&& |replies[0].data| <= space
        && (|replies[0].data| == space || FitsIn(replies[1..], space - |replies[0].data|)))
  }

  /** The bytes the read loop stores while space bytes are free: chunk after
      chunk, up to the first non-positive reply or until the buffer is full.
      A reply list that runs out stands for a peer that closed the connection. */
  function Collect(replies: seq<ReadReply>, space: nat): (got: string)
    requires FitsIn(replies, space)
    ensures |got| <= space
    decreases |replies|
  {
    if replies == [] || ReturnValue(replies[0]) <= 0 then []
    else if |replies[0].data| == space then replies[0].data
    else replies[0].data + Collect(replies[1..], space - |replies[0].data|)
  }

  /** What the read loop and the check after it produce: the stored text, or
      the fatal "not enough space" error when the buffer filled up. */
  function ReadOutcome(replies: seq<ReadReply>): (r: Result<string, Failure>)
    requires FitsIn(replies, Total)
    ensures r.Ok? ==> |r.value| < Total
  {
    var got := Collect(replies, Total);
    if |got| == Total then Err(Fatal(ResponseTooLarge)) else Ok(got)
  }

  /** The read loop of get: `received` counts the bytes stored so far. */
  method Receive(replies: seq<ReadReply>) returns (r: Result<string, Failure>)
    requires FitsIn(replies, Total)
    ensures r == ReadOutcome(replies)
  {
    var response: string := [];
    var received := 0;
    var j := 0;
    while true
      invariant 0 <= j <= |replies|
      invariant 0 <= received < Total && received == |response|
      invariant FitsIn(replies[j..], Total - received)
      invariant response + Collect(replies[j..], Total - received) == Collect(replies, Total)
      decreases |replies| - j
    {
      var bytes := if j < |replies| then ReturnValue(replies[j]) else 0;
      if bytes <= 0 {
        ReadStop(replies, j, Total - received);
        break;
      }
      ReadAdvance(replies, j, response, Total - received, Collect(replies, Total));
      response := response + replies[j].data;
      received := received + bytes;
      j := j + 1;
      if received >= Total {   // do { ... } while (received < total)
        break;
      }
    }
    assert response == Collect(replies, Total);
    if received == Total {
      return Err(Fatal(ResponseTooLarge));
    }
    r := Ok(response);
  }

  /** A positive reply fits the free space and is stored before the rest. */
  lemma ReadAdvance(replies: seq<ReadReply>, j: nat, response: string, space: nat, whole: string)
    requires j < |replies| && ReturnValue(replies[j]) > 0 && FitsIn(replies[j..], space)
    requires response + Collect(replies[j..], space) == whole
    ensures |replies[j].data| <= space
    ensures |replies[j].data| == space ==> response + replies[j].data == whole
    ensures |replies[j].data| < space ==>
      && FitsIn(replies[j + 1..], space - |replies[j].data|)
      && (response + replies[j].data) + Collect(replies[j + 1..], space - |replies[j].data|) == whole
  {
    assert replies[j..][0] == replies[j] && replies[j..][1..] == replies[j + 1..];
  }

  /** At the end of the replies, or at a non-positive one, nothing more is stored. */
  lemma ReadStop(replies: seq<ReadReply>, j: nat, space: nat)
    requires j <= |replies| && (j == |replies| || ReturnValue(replies[j]) <= 0)
    requires FitsIn(replies[j..], space)
    ensures Collect(replies[j..], space) == []
  {
    if j < |replies| {
      assert replies[j..][0] == replies[j];
    }
  }

  /** The bytes of the chunks, one after another. */
  function Concat(ds: seq<string>): (all: string)
  {
    if ds == [] then [] else ds[0] + Concat(ds[1..])
  }

  /** One read reply per chunk. */
  function Chunks(ds: seq<string>): (rs: seq<ReadReply>)
  {
    if ds == [] then [] else [Chunk(ds[0])] + Chunks(ds[1..])
  }

  predicate NonEmpty(ds: seq<string>)
  {
    forall i :: 0 <= i < |ds| ==> ds[i] != []
  }

  /** The loop stops at the first non-positive reply: nothing after it is read. */
  lemma {:induction false} StopsAtNonPositive(pre: seq<ReadReply>, stop: ReadReply, post: seq<ReadReply>, space: nat)
    requires ReturnValue(stop) <= 0 && FitsIn(pre, space)
    ensures FitsIn(pre + [stop] + post, space)
    ensures Collect(pre + [stop] + post, space) == Collect(pre, space)
    decreases |pre|
  {
    var all := pre + [stop] + post;
    if pre != [] {
      assert all[0] == pre[0] && all[1..] == pre[1..] + [stop] + post;
      if ReturnValue(pre[0]) > 0 && |pre[0].data| < space {
        StopsAtNonPositive(pre[1..], stop, post, space - |pre[0].data|);
      }
    } else {
      assert all[0] == stop;
    }
  }

  /** Reading one positive reply, then going on with the rest. */
  lemma ReadOne(r: ReadReply, rest: seq<ReadReply>, space: nat)
    requires ReturnValue(r) > 0 && |r.data| <= space
    requires |r.data| < space ==> FitsIn(rest, space - |r.data|)
    ensures FitsIn([r] + rest, space)
    ensures Collect([r] + rest, space)
      == if |r.data| == space then r.data else r.data + Collect(rest, space - |r.data|)
  {
    assert ([r] + rest)[0] == r && ([r] + rest)[1..] == rest;
  }

  lemma SplitChunks(ds: seq<string>, post: seq<ReadReply>)
    requires ds != []
    ensures Chunks(ds) + post == [Chunk(ds[0])] + (Chunks(ds[1..]) + post)
    ensures Concat(ds) == ds[0] + Concat(ds[1..])
  {
  }

  /** Chunks that together fall short of the buffer, followed by a close or
      an error, come back whole. */
  lemma {:induction false} ShortResponseComesBack(ds: seq<string>, stop: ReadReply, space: nat)
    requires NonEmpty(ds) && |Concat(ds)| < space && ReturnValue(stop) <= 0
    ensures FitsIn(Chunks(ds) + [stop], space)
    ensures Collect(Chunks(ds) + [stop], space) == Concat(ds)
    decreases |ds|
  {
    if ds != [] {
      var rest := ds[1..];
      SplitChunks(ds, [stop]);
      assert NonEmpty(rest) by {
        forall i | 0 <= i < |rest| ensures rest[i] != [] {
          assert rest[i] == ds[i + 1];
        }
      }
      ShortResponseComesBack(rest, stop, space - |ds[0]|);
      ReadOne(Chunk(ds[0]), Chunks(rest) + [stop], space);
    } else {
      assert Chunks(ds) + [stop] == [stop];
    }
  }

  /** Chunks that exactly fill the buffer are all stored, whatever the peer
      would have sent next. */
  lemma {:induction false} FillingChunks(ds: seq<string>, post: seq<ReadReply>, space: nat)
    requires NonEmpty(ds) && ds != [] && |Concat(ds)| == space
    ensures FitsIn(Chunks(ds) + post, space)
    ensures Collect(Chunks(ds) + post, space) == Concat(ds)
    decreases |ds|
  {
    var rest := ds[1..];
    SplitChunks(ds, post);
    assert ds[0] != [];
    if rest != [] {
      assert NonEmpty(rest) by {
        forall i | 0 <= i < |rest| ensures rest[i] != [] {
          assert rest[i] == ds[i + 1];
        }
      }
      SplitChunks(rest, post);
      assert |Concat(rest)| >= |rest[0]| > 0;
      FillingChunks(rest, post, space - |ds[0]|);
      ReadOne(Chunk(ds[0]), Chunks(rest) + post, space);
    } else {
      assert Concat(rest) == [];
      ReadOne(Chunk(ds[0]), Chunks(rest) + post, space);
    }
  }

  /** A response that fills every usable byte of the buffer is the fatal
      "not enough space" outcome, never a truncated result. */
  lemma ExactFillIsFatal(ds: seq<string>, post: seq<ReadReply>)
    requires NonEmpty(ds) && |Concat(ds)| == Total
    ensures FitsIn(Chunks(ds) + post, Total)
    ensures ReadOutcome(Chunks(ds) + post) == Err(Fatal(ResponseTooLarge))
  {
    FillingChunks(ds, post, Total);
  }

  /** A response shorter than the usable buffer is returned in full. */
  lemma ShortResponseReturned(ds: seq<string>, stop: ReadReply)
    requires NonEmpty(ds) && |Concat(ds)| < Total && ReturnValue(stop) <= 0
    ensures FitsIn(Chunks(ds) + [stop], Total)
    ensures ReadOutcome(Chunks(ds) + [stop]) == Ok(Concat(ds))
  {
    ShortResponseComesBack(ds, stop, Total);
  }

  // ---- get

  /** The fatal errors get reports through error(), which exits the process. */
  datatype FatalError = SocketFailed | NoSuchHost | ConnectFailed | WriteFailed | ResponseTooLarge

  /** Why a call of get produced no response. */
  datatype Failure =
    | Fatal(reason: FatalError)    // error() printed a diagnostic and called exit(0)
    | Threw(exception: Exception)  // an uncaught exception ended the process

  /** What get returns: the response text and the elapsed milliseconds. */
  datatype Exchange = Exchange(text: string, elapsedMs: int)

  /** What the operating system and the peer do during one call of get. */
  datatype Network = Network(
    socketOpens: bool,          // socket() succeeds
    resolvable: set<string>,    // host names gethostbyname() finds
    connects: bool,             // connect() succeeds
    writeFails: bool,           // some write() returns a negative count
    replies: seq<ReadReply>)    // what the successive read() calls yield

  /** The request is written: socket, host lookup, path and connection all succeeded. */
  predicate Connected(url: string, net: Network)
  {
    net.socketOpens && PathOf(url).Ok? && HostOf(url) in net.resolvable && net.connects
  }

  /** get: one request/response exchange. elapsedMs is the clock difference
      the source measures around the write and read loops. */
  method Get(url: string, net: Network, elapsedMs: int) returns (r: Result<Exchange, Failure>, request: string)
    requires FitsIn(net.replies, Total)
    ensures !net.socketOpens ==> r == Err(Fatal(SocketFailed))
    ensures net.socketOpens && PathOf(url).Err? ==> r == Err(Threw(OutOfRange))
    ensures net.socketOpens && PathOf(url).Ok? && HostOf(url) !in net.resolvable ==> r == Err(Fatal(NoSuchHost))
    ensures net.socketOpens && PathOf(url).Ok? && HostOf(url) in net.resolvable && !net.connects ==>
              r == Err(Fatal(ConnectFailed))
    ensures Connected(url, net) ==> request == ConstructMessage(HostOf(url), PathOf(url).value)
    ensures !Connected(url, net) ==> request == []
    ensures Connected(url, net) && net.writeFails ==> r == Err(Fatal(WriteFailed))
    ensures Connected(url, net) && !net.writeFails ==>
              r == (match ReadOutcome(net.replies)
                    case Ok(text) => Ok(Exchange(text, elapsedMs))
                    case Err(e) => Err(e))
    ensures r.Ok? ==> |r.value.text| < Total && r.value.elapsedMs == elapsedMs
  {
    request := [];
    if !net.socketOpens {
      return Err(Fatal(SocketFailed)), request;
    }
    var host := ParseHost(url);
    var path := ParsePath(url);
    if path.Err? {
      return Err(Threw(path.error)), request;
    }
    if host !in net.resolvable {
      return Err(Fatal(NoSuchHost)), request;
    }
    if !net.connects {
      return Err(Fatal(ConnectFailed)), request;
    }
    request := ConstructMessage(host, path.value);
    if net.writeFails {
      return Err(Fatal(WriteFailed)), request;
    }
    var received := Receive(net.replies);
    match received {
      case Err(e) => r := Err(e);
      case Ok(text) => r := Ok(Exchange(text, elapsedMs));
    }
  }
}
