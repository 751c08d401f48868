/** ServerThread: reads one request from a connection, dispatches it to the
    route table and writes the rendered response. The socket is a sequence
    of input lines (what `readLine` yields, terminators removed), the
    characters after them (what `read` yields), and the lines written out. */
module Server {
  import opened Wrappers
  import opened JavaStrings
  import opened Wire
  import opened Descriptors
  import opened Endpoints

  /** The collaborators the connection handler calls but that are not part
      of this model: the names of the Method enum constants, the two Helper
      parameter parsers (None stands for RequestNotValidException),
      `Header.get`, and running an endpoint method (None when it throws). */
  datatype Env = Env(
    verbs: set<string>,
    routeParameters: string -> Option<map<string, string>>,
    bodyParameters: string -> Option<map<string, string>>,
    headerGet: (seq<HeaderLine>, string) -> Option<string>,
    call: (Endpoint, seq<Request>) -> Option<Returned>)

  /** Why handling a connection stops early. Each is an exception that
      leaves `run` without writing anything and without closing the
      streams or the socket. */
  datatype ConnectionError =
    | MissingToken(index: nat)            // actionRow[index]: ArrayIndexOutOfBoundsException
    | UnknownVerb(token: string)          // Method.valueOf: IllegalArgumentException
    | InvalidRequest                      // RequestNotValidException from a Helper parser
    | EndOfInput                          // readLine() is null inside the header loop
    | BadContentLength                    // Integer.parseInt: NumberFormatException
    | NegativeContentLength               // new char[n] with n < 0
    | QueryOnlyRoute                      // split("\\?")[0] on a route of '?' only
    | InvocationFailed(error: InvokeError)

  // ---------------------------------------------------------------------
  // The request line

  /** `command.split(" ")`: the verb is the first token and must name a
      Method constant; the route is the second token. */
  function RequestLine(line: string, verbs: set<string>): (r: Result<(string, string), ConnectionError>)
    ensures r.Ok? ==> r.value.0 in verbs && r.value.0 == Before(line, " ")
    ensures Split(line, " ") == [] ==> r == Err(MissingToken(0))
    ensures |Split(line, " ")| > 0 && Before(line, " ") !in verbs ==> r == Err(UnknownVerb(Before(line, " ")))
  {
    var row := Split(line, " ");
    if |row| == 0 then Err(MissingToken(0))
    else if row[0] !in verbs then (SplitHead(line, " "); Err(UnknownVerb(row[0])))
    else if |row| < 2 then Err(MissingToken(1))
    else (SplitHead(line, " "); Ok((row[0], row[1])))
  }

  /** "VERB ROUTE" and "VERB ROUTE PROTOCOL" give the verb and the route. */
  lemma RequestLineOf(verb: string, route: string, protocol: string, verbs: set<string>)
    requires verb in verbs && route != ""
    requires ' ' !in verb && ' ' !in route && ' ' !in protocol
    ensures RequestLine(verb + " " + route, verbs) == Ok((verb, route))
    ensures RequestLine(verb + " " + route + " " + protocol, verbs) == Ok((verb, route))
  {
    assert RequestLine(verb + " " + route, verbs) == Ok((verb, route)) by {
      SplitTwoWords(verb, route);
    }
    assert RequestLine(verb + " " + route + " " + protocol, verbs) == Ok((verb, route)) by {
      SplitThreeWords(verb, route, protocol);
      if protocol == "" {
        assert DropTrailingEmpty([verb, route, protocol]) == [verb, route];
      }
    }
  }

  /** Two space-free words joined by a space split back into them. */
  lemma SplitTwoWords(a: string, b: string)
    requires ' ' !in a && ' ' !in b && b != ""
    ensures Split(a + " " + b, " ") == [a, b]
  {
    var two := a + " " + b;
    forall j | 0 <= j && j != |a| ensures !OccursAt(two, " ", j) {
      OccursChar(two, ' ', j);
      if j < |a| {
        assert two[j] == a[j];
      } else if j < |two| {
        assert two[j] == b[j - |a| - 1];
      }
    }
    SplitPair(a, " ", b);
  }

  /** Three space-free words joined by spaces split back into them, minus
      an empty third one. */
  lemma SplitThreeWords(a: string, b: string, c: string)
    requires ' ' !in a && ' ' !in b && ' ' !in c && b != ""
    ensures Split(a + " " + b + " " + c, " ") == DropTrailingEmpty([a, b, c])
  {
    var three := a + " " + b + " " + c;
    forall j | 0 <= j && j != |a| && j != |a| + 1 + |b| ensures !OccursAt(three, " ", j) {
      OccursChar(three, ' ', j);
      if j < |a| {
        assert three[j] == a[j];
      } else if j < |a| + 1 + |b| {
        assert three[j] == b[j - |a| - 1];
      } else if j < |three| {
        assert three[j] == c[j - |a| - 2 - |b|];
      }
    }
    SplitTriple(a, " ", b, c);
  }

  /** A line of spaces only splits into nothing at all. */
  lemma RequestLineSpaces(line: string, verbs: set<string>)
    requires line != "" && forall k :: 0 <= k < |line| ==> line[k] == ' '
    ensures RequestLine(line, verbs) == Err(MissingToken(0))
  {
    SplitEmptyIff(line, ' ');
  }

  /** A verb alone (no space) fails for want of a route. */
  lemma RequestLineNoRoute(verb: string, verbs: set<string>)
    requires verb in verbs && ' ' !in verb
    ensures RequestLine(verb, verbs) == Err(MissingToken(1))
  {
    IndexOfAbsent(verb, " ");
  }

  // ---------------------------------------------------------------------
  // Header lines

  /** The header delimiter does not occur in `s`. */
  predicate NoDelimiter(s: string)
  {
    forall j :: 0 <= j < |s| ==> !OccursAt(s, ": ", j)
  }

  /** `command.split(": ")` is recorded as a header exactly when it yields
      two parts. A recorded header is then the line's text before the first
      delimiter and the non-empty text after it, up to the next delimiter
      if any; neither part holds the delimiter. */
  function HeaderOf(line: string): (r: Option<HeaderLine>)
    ensures r.Some? ==> r.value.value != "" && NoDelimiter(r.value.name) && NoDelimiter(r.value.value)
    ensures r.Some? ==>
      var n := |r.value.name| + 2 + |r.value.value|;
      n <= |line| && line[..n] == r.value.name + ": " + r.value.value
  {
    var row := Split(line, ": ");
    if |row| == 2 then
      SplitTwoPrefix(line, ": ");
      assert IndexOf(line, ": ").Some?;
      Some(HeaderLine(row[0], row[1]))
    else None
  }

  /** ": " does not overlap itself: in `a + ": " + b`, where it does not
      occur in `a`, it occurs right after `a` and otherwise only inside `b`. */
  lemma DelimiterJoin(a: string, b: string)
    requires NoDelimiter(a)
    ensures forall j :: 0 <= j && OccursAt(a + ": " + b, ": ", j) ==>
      j == |a| || (j >= |a| + 2 && OccursAt(b, ": ", j - |a| - 2))
  {
    var s := a + ": " + b;
    assert s == a + (": " + b) && s == (a + ": ") + b;
    forall j | 0 <= j && OccursAt(s, ": ", j)
      ensures j == |a| || (j >= |a| + 2 && OccursAt(b, ": ", j - |a| - 2))
    {
      assert s[j..j + 2][0] == s[j] == ':' && s[j..j + 2][1] == s[j + 1] == ' ';
      if j + 2 <= |a| {
        OccursPrefix(a, ": " + b, ": ", j);
      } else if j >= |a| + 2 {
        OccursSuffix(a + ": ", b, ": ", j - |a| - 2);
      }
    }
  }

  /** "Name: value" is recorded as (Name, value) when the value is not
      empty; "Name: " is skipped. Either part may hold ':' (as in
      "Host: localhost:8080"), just not ": ". */
  lemma HeaderOfPair(name: string, value: string)
    requires NoDelimiter(name) && NoDelimiter(value)
    ensures HeaderOf(name + ": " + value) == if value != "" then Some(HeaderLine(name, value)) else None
  {
    DelimiterJoin(name, value);
    SplitPair(name, ": ", value);
  }

  /** A line with the delimiter twice is skipped rather than split at the
      first delimiter, except that "A: b: " drops its empty last part and
      so is recorded as (A, b). */
  lemma HeaderOfTriple(a: string, b: string, c: string)
    requires NoDelimiter(a) && NoDelimiter(b) && NoDelimiter(c) && b != ""
    ensures HeaderOf(a + ": " + b + ": " + c) == if c == "" then Some(HeaderLine(a, b)) else None
  {
    var t := b + ": " + c;
    assert a + ": " + b + ": " + c == a + ": " + t;
    DelimiterJoin(b, c);
    DelimiterJoin(a, t);
    SplitTriple(a, ": ", b, c);
  }

  /** A blank line holds no ':' and so is never recorded. */
  lemma BlankIsNoHeader(line: string)
    requires IsBlank(line)
    ensures HeaderOf(line) == None
  {
    assert ':' !in line;
    IndexOfAbsent(line, ": ");
  }

  /** The header additions a line causes. */
  function Recorded(line: string): seq<HeaderLine>
  {
    match HeaderOf(line)
    case None => []
    case Some(h) => [h]
  }

  /** The header additions of a run of lines, in order. */
  function RecordedAll(ls: seq<string>): (hs: seq<HeaderLine>)
    ensures |hs| <= |ls|
  {
    if ls == [] then [] else Recorded(ls[0]) + RecordedAll(ls[1..])
  }

  /** Reading one more line appends what that line records. */
  lemma {:induction false} RecordedSnoc(ls: seq<string>, line: string)
    ensures RecordedAll(ls + [line]) == RecordedAll(ls) + Recorded(line)
  {
    if ls == [] {
      assert [line][1..] == [];
    } else {
      assert (ls + [line])[1..] == ls[1..] + [line];
      RecordedSnoc(ls[1..], line);
    }
  }

  /** Every recorded header comes from one of the lines. */
  lemma {:induction false} RecordedFromLines(ls: seq<string>, h: HeaderLine)
    requires h in RecordedAll(ls)
    ensures exists i :: 0 <= i < |ls| && HeaderOf(ls[i]) == Some(h)
  {
    if h in Recorded(ls[0]) {
      assert HeaderOf(ls[0]) == Some(h);
    } else {
      RecordedFromLines(ls[1..], h);
      var i :| 0 <= i < |ls| - 1 && HeaderOf(ls[1..][i]) == Some(h);
      assert ls[1..][i] == ls[i + 1];
    }
  }

  /** None of the first `n` lines is blank. */
  predicate NoneBlank(ls: seq<string>, n: nat)
    requires n <= |ls|
  {
    forall i :: 0 <= i < n ==> !IsBlank(ls[i])
  }

  lemma NoneBlankStep(ls: seq<string>, n: nat)
    requires n < |ls| && NoneBlank(ls, n) && !IsBlank(ls[n])
    ensures NoneBlank(ls, n + 1)
  {
  }

  /** The header block of the `do … while` loop: lines are read and
      recorded up to and including the first line that trims to "" (a
      blank line, see `TrimEmptyIff`). `None`
      when the input ends first (readLine gives null). Otherwise the
      headers and the number of lines consumed. */
  function HeaderBlock(ls: seq<string>): (r: Option<(seq<HeaderLine>, nat)>)
    ensures r.None? ==> forall i :: 0 <= i < |ls| ==> !IsBlank(ls[i])
    ensures r.Some? ==> 1 <= r.value.1 <= |ls| && IsBlank(ls[r.value.1 - 1])
    ensures r.Some? ==> forall i :: 0 <= i < r.value.1 - 1 ==> !IsBlank(ls[i])
    decreases |ls|
  {
    if ls == [] then None
    else if IsBlank(ls[0]) then Some((Recorded(ls[0]), 1))
    else
      var tail := ls[1..];
      match HeaderBlock(tail)
      case None => None
      case Some((hs, n)) => Some((Recorded(ls[0]) + hs, n + 1))
  }

  /** Input without a blank line has no header block. */
  lemma {:induction false} HeaderBlockNone(ls: seq<string>)
    requires NoneBlank(ls, |ls|)
    ensures HeaderBlock(ls).None?
    decreases |ls|
  {
    if ls != [] {
      assert !IsBlank(ls[0]);
      HeaderBlockNone(ls[1..]);
    }
  }

  /** The block ends at the first blank line. */
  lemma {:induction false} HeaderBlockAt(ls: seq<string>, n: nat)
    requires n < |ls| && NoneBlank(ls, n) && IsBlank(ls[n])
    ensures HeaderBlock(ls).Some? && HeaderBlock(ls).value.1 == n + 1
    decreases n
  {
    if n > 0 {
      assert !IsBlank(ls[0]);
      assert ls[1..][n - 1] == ls[n];
      HeaderBlockAt(ls[1..], n - 1);
    }
  }

  /** The headers of the block are those its lines record. */
  lemma {:induction false} HeaderBlockRecords(ls: seq<string>)
    requires HeaderBlock(ls).Some?
    ensures HeaderBlock(ls).value.0 == RecordedAll(ls[..HeaderBlock(ls).value.1])
    decreases |ls|
  {
    var n := HeaderBlock(ls).value.1;
    assert ls[..n][0] == ls[0];
    if IsBlank(ls[0]) {
      assert ls[..1][1..] == [];
    } else {
      HeaderBlockRecords(ls[1..]);
      assert ls[..n][1..] == ls[1..][..n - 1];
    }
  }

  // ---------------------------------------------------------------------
  // The body of a POST request

  /** `Integer.parseInt(header.get("Content-Length"))`, and the length must
      be usable as an array size. */
  function ContentLength(hs: seq<HeaderLine>, env: Env): (r: Result<nat, ConnectionError>)
    ensures r.Ok? ==> exists text :: env.headerGet(hs, "Content-Length") == Some(text) && ParseInt(text) == Some(r.value)
    ensures env.headerGet(hs, "Content-Length").None? ==> r == Err(BadContentLength)
    // a header that parseInt refuses (not a number, or out of range) fails
    ensures env.headerGet(hs, "Content-Length").Some? && ParseInt(env.headerGet(hs, "Content-Length").value).None? ==>
      r == Err(BadContentLength)
    ensures r == Err(NegativeContentLength) <==>
      env.headerGet(hs, "Content-Length").Some? && ParseInt(env.headerGet(hs, "Content-Length").value).Some? &&
      ParseInt(env.headerGet(hs, "Content-Length").value).value < 0
  {
    match env.headerGet(hs, "Content-Length")
    case None => Err(BadContentLength)
    case Some(text) =>
      match ParseInt(text)
      case None => Err(BadContentLength)
      case Some(v) => if v < 0 then Err(NegativeContentLength) else Ok(v as nat)
  }

  /** A decimal length is read as that number; a negative one is refused. */
  lemma ContentLengthDecimal(hs: seq<HeaderLine>, env: Env, n: nat)
    requires n <= MaxInt
    ensures env.headerGet(hs, "Content-Length") == Some(Decimal(n)) ==> ContentLength(hs, env) == Ok(n)
    ensures n > 0 && env.headerGet(hs, "Content-Length") == Some("-" + Decimal(n)) ==>
      ContentLength(hs, env) == Err(NegativeContentLength)
  {
    ParseIntDecimal(n);
    if n > 0 {
      ParseIntNegative(n);
    }
  }

  /** A header holding a non-digit, or a number beyond 32 bits, fails the
      connection. */
  lemma ContentLengthNotNumeric(hs: seq<HeaderLine>, env: Env, text: string, n: nat)
    requires env.headerGet(hs, "Content-Length") == Some(text)
    ensures (exists k :: 0 < k < |text| && !IsDigit(text[k])) ==> ContentLength(hs, env) == Err(BadContentLength)
    ensures text == "" ==> ContentLength(hs, env) == Err(BadContentLength)
    ensures n > MaxInt && text == Decimal(n) ==> ContentLength(hs, env) == Err(BadContentLength)
  {
    ParseIntRejects(text, n);
  }

  /** `new String(buff)` after reading into `char[n]`: the next `n`
      characters, padded with NUL characters when the input has fewer. */
  function Body(cs: string, n: nat): (body: string)
    ensures |body| == n
    ensures n <= |cs| ==> body == cs[..n]
    ensures n > |cs| ==> body[..|cs|] == cs && forall k :: |cs| <= k < n ==> body[k] == '\0'
  {
    if n <= |cs| then cs[..n] else cs + seq(n - |cs|, _ => '\0')
  }

  /** The parameters after the body parameters were put into the query
      parameters: every key of either, with the body's value winning. */
  predicate Overrides(merged: map<string, string>, query: map<string, string>, post: map<string, string>)
  {
    && merged.Keys == query.Keys + post.Keys
    && (forall k :: k in post ==> merged[k] == post[k])
    && (forall k :: k in query && k !in post ==> merged[k] == query[k])
  }

  /** `parameters.put(name, postParameters.get(name))` for every body
      parameter name, in the unspecified order of the key set. */
  method MergeParameters(query: map<string, string>, post: map<string, string>) returns (merged: map<string, string>)
    ensures Overrides(merged, query, post)
  {
    merged := query;
    var rest := post.Keys;
    while rest != {}
      invariant rest <= post.Keys
      invariant merged.Keys == query.Keys + (post.Keys - rest)
      invariant forall k :: k in post && k !in rest ==> merged[k] == post[k]
      invariant forall k :: k in query && k !in post ==> merged[k] == query[k]
      invariant forall k :: k in query && k in rest ==> merged[k] == query[k]
      decreases rest
    {
      var name :| name in rest;
      merged := merged[name := post[name]];
      rest := rest - {name};
    }
  }

  /** Merging in no body parameters leaves the query parameters, and a
      body parameter always wins over the query parameter of that name. */
  lemma OverridesIsUnion(merged: map<string, string>, query: map<string, string>, post: map<string, string>)
    ensures Overrides(merged, query, post) <==> merged == query + post
  {
    if Overrides(merged, query, post) {
      assert merged.Keys == (query + post).Keys;
      forall k | k in merged ensures merged[k] == (query + post)[k] {
      }
    }
  }

  /** The parameters of the request and the number of body characters
      read: the query parameters for any verb but POST; for POST the body
      of Content-Length characters is parsed and its parameters put over
      the query parameters. */
  function Parameters(verb: string, query: map<string, string>, hs: seq<HeaderLine>, cs: string, env: Env): (r: (Result<map<string, string>, ConnectionError>, nat))
    ensures r.1 <= |cs|
    ensures verb != "POST" ==> r == (Ok(query), 0)
    ensures verb == "POST" && r.0.Ok? ==>
      && ContentLength(hs, env).Ok?
      && var body := Body(cs, ContentLength(hs, env).value);
      && env.bodyParameters(body).Some?
      && Overrides(r.0.value, query, env.bodyParameters(body).value)
  {
    if verb != "POST" then (Ok(query), 0)
    else match ContentLength(hs, env)
      case Err(e) => (Err(e), 0)
      case Ok(len) =>
        var taken := if len <= |cs| then len else |cs|;
        match env.bodyParameters(Body(cs, len))
        case None => (Err(InvalidRequest), taken)
        case Some(post) =>
          OverridesIsUnion(query + post, query, post);
          (Ok(query + post), taken)
  }

  // ---------------------------------------------------------------------
  // generateRequest as a whole

  /** What `generateRequest` does with the input: its result (`Ok(None)`
      when the connection yields no line at all) and how many lines and
      characters it consumes. */
  datatype Parse = Parse(result: Result<Option<Request>, ConnectionError>, lines: nat, chars: nat)

  /** Dropping `a` lines and then `b` more drops `a + b`. */
  lemma DropDrop<T>(s: seq<T>, a: nat, b: nat)
    requires a + b <= |s|
    ensures s[a..][b..] == s[a + b..]
  {
  }

  function ParseRequest(ls: seq<string>, cs: string, env: Env): (p: Parse)
    ensures p.lines <= |ls| && p.chars <= |cs|
    ensures ls == [] <==> p == Parse(Ok(None), 0, 0)
    ensures p.result.Ok? && p.result.value.Some? ==>
      var req := p.result.value.value;
      && RequestLine(ls[0], env.verbs) == Ok((req.verb, req.location))
      && env.routeParameters(req.location).Some?
      && HeaderBlock(ls[1..]) == Some((req.headers, p.lines - 1))
      && Parameters(req.verb, env.routeParameters(req.location).value, req.headers, cs, env) == (Ok(req.parameters), p.chars)
  {
    if ls == [] then Parse(Ok(None), 0, 0)
    else match RequestLine(ls[0], env.verbs)
      case Err(e) => Parse(Err(e), 1, 0)
      case Ok((verb, route)) =>
        match env.routeParameters(route)
        case None => Parse(Err(InvalidRequest), 1, 0)
        case Some(query) =>
          match HeaderBlock(ls[1..])
          case None => Parse(Err(EndOfInput), |ls|, 0)
          case Some((hs, n)) =>
            match Parameters(verb, query, hs, cs, env)
            case (Err(e), taken) => Parse(Err(e), 1 + n, taken)
            case (Ok(parameters), taken) => Parse(Ok(Some(Request(verb, route, hs, parameters))), 1 + n, taken)
  }

  // ---------------------------------------------------------------------
  // Dispatch

  /** `verb + " " + location.split("\\?")[0]`; None when the split is empty
      (the index then throws). */
  function DispatchKey(verb: string, location: string): (r: Option<string>)
    ensures r.None? <==> location != "" && forall k :: 0 <= k < |location| ==> location[k] == '?'
    ensures r.Some? ==> r.value == verb + " " + Before(location, "?")
  {
    SplitEmptyIff(location, '?');
    var parts := Split(location, "?");
    if |parts| == 0 then None
    else
      SplitHead(location, "?");
      Some(verb + " " + parts[0])
  }

  /** A request for an endpoint's path, with or without a query string,
      dispatches to the route key the endpoint was registered under. */
  lemma DispatchReachesRoute(m: MethodDesc, query: string)
    requires m.path.Some? && m.path.value != "" && '?' !in m.path.value && (m.get || m.post)
    ensures DispatchKey(if m.get then "GET" else "POST", m.path.value) == Some(RouteKey(m).value)
    ensures DispatchKey(if m.get then "GET" else "POST", m.path.value + "?" + query) == Some(RouteKey(m).value)
  {
    var p := m.path.value;
    var verb := if m.get then "GET" else "POST";
    IndexOfAbsent(p, "?");
    forall j | 0 <= j < |p| ensures !OccursAt(p + "?" + query, "?", j) {
      OccursChar(p + "?" + query, '?', j);
      assert (p + "?" + query)[j] == p[j];
    }
    IndexOfAfter(p, "?", query);
    assert (p + "?" + query)[..|p|] == p;
    assert p[0] != '?' && (p + "?" + query)[0] == p[0];
    assert verb + " " + p == (verb + " ") + p;
    assert RouteKey(m).value == (verb + " ") + p;
  }

  // ---------------------------------------------------------------------
  // The connection

  class ServerThread {
    var input: seq<string>   // lines not yet read
    var chars: string        // characters after them
    var output: seq<string>  // lines written with println
    var closed: bool         // in, out and the socket closed

    constructor (input: seq<string>, chars: string)
      ensures this.input == input && this.chars == chars && output == [] && !closed
    {
      this.input := input;
      this.chars := chars;
      output := [];
      closed := false;
    }

    /** `in.readLine()`: the next line, or None (null) at the end. */
    method ReadLine() returns (line: Option<string>)
      modifies this`input
      ensures old(input) == [] ==> line == None && input == []
      ensures old(input) != [] ==> line == Some(old(input)[0]) && input == old(input)[1..]
    {
      if input == [] {
        line := None;
      } else {
        line := Some(input[0]);
        input := input[1..];
      }
    }

    /** `in.read(buff, 0, n)` into a fresh `char[n]`, then `new String(buff)`. */
    method ReadBody(n: nat) returns (body: string)
      modifies this`chars
      ensures body == Body(old(chars), n)
      ensures chars == old(chars)[if n <= |old(chars)| then n else |old(chars)|..]
    {
      body := Body(chars, n);
      chars := chars[if n <= |chars| then n else |chars|..];
    }

    /** The `do … while` loop of `generateRequest`: read lines, recording
        each as a header when it splits in two, until one trims to "". */
    method ReadHeaders() returns (r: Option<seq<HeaderLine>>)
      modifies this`input
      ensures HeaderBlock(old(input)).None? ==> r.None? && input == []
      ensures HeaderBlock(old(input)).Some? ==>
        r == Some(HeaderBlock(old(input)).value.0) && input == old(input)[HeaderBlock(old(input)).value.1..]
    {
      ghost var ls := input;
      var headers: seq<HeaderLine> := [];
      var n := 0;
      while true
        invariant 0 <= n <= |ls| && input == ls[n..]
        invariant NoneBlank(ls, n)
        invariant headers == RecordedAll(ls[..n])
        decreases |input|
      {
        var command := ReadLine();
        if command.None? {
          assert n == |ls|;
          HeaderBlockNone(ls);
          return None;
        }
        var line := command.value;
        assert ls[..n + 1] == ls[..n] + [line];
        RecordedSnoc(ls[..n], line);
        headers := headers + Recorded(line);
        TrimEmptyIff(line);
        if Trim(line) == "" {
          HeaderBlockAt(ls, n);
          n := n + 1;
          break;
        }
        NoneBlankStep(ls, n);
        n := n + 1;
      }
      HeaderBlockRecords(ls);
      r := Some(headers);
    }

    /** The POST branch of `generateRequest`. */
    method ReadParameters(verb: string, query: map<string, string>, hs: seq<HeaderLine>, env: Env) returns (r: Result<map<string, string>, ConnectionError>)
      modifies this`chars
      ensures var q := Parameters(verb, query, hs, old(chars), env);
        r == q.0 && chars == old(chars)[q.1..]
    {
      r := Ok(query);
      if verb == "POST" {
        var contentLength := ContentLength(hs, env);
        if contentLength.Err? {
          return Err(contentLength.error);
        }
        var jsonBody := ReadBody(contentLength.value);
        var post := env.bodyParameters(jsonBody);
        if post.None? {
          return Err(InvalidRequest);
        }
        var merged := MergeParameters(query, post.value);
        OverridesIsUnion(merged, query, post.value);
        r := Ok(merged);
      }
    }

    /** `generateRequest`. */
    method GenerateRequest(env: Env) returns (r: Result<Option<Request>, ConnectionError>)
      modifies this`input, this`chars
      ensures var p := ParseRequest(old(input), old(chars), env);
        r == p.result && input == old(input)[p.lines..] && chars == old(chars)[p.chars..]
    {
      var command := ReadLine();
      if command.None? {
        return Ok(None);
      }
      var requestLine := RequestLine(command.value, env.verbs);
      if requestLine.Err? {
        return Err(requestLine.error);
      }
      var (verb, route) := requestLine.value;
      var query := env.routeParameters(route);
      if query.None? {
        return Err(InvalidRequest);
      }
      ghost var rest := input;
      assert rest == old(input)[1..];
      var headers := ReadHeaders();
      if headers.None? {
        return Err(EndOfInput);
      }
      ghost var n := HeaderBlock(rest).value.1;
      DropDrop(old(input), 1, n);
      var parameters := ReadParameters(verb, query.value, headers.value, env);
      if parameters.Err? {
        return Err(parameters.error);
      }
      r := Ok(Some(Request(verb, route, headers.value, parameters.value)));
    }

    /** `run`: the response is written only when the endpoint returns a
        Response; the streams and the socket are closed when no request was
        read and after a dispatch that returned, but not after any failure. */
    method Run(routes: EndpointsController, env: Env)
      modifies this
      ensures var p := ParseRequest(old(input), old(chars), env);
        && input == old(input)[p.lines..] && chars == old(chars)[p.chars..]
        && (p.result.Err? ==> output == old(output) && closed == old(closed))
        && (p.result == Ok(None) ==> output == old(output) && closed)
        && (p.result.Ok? && p.result.value.Some? ==>
              var req := p.result.value.value;
              match DispatchKey(req.verb, req.location)
              case None => output == old(output) && closed == old(closed)
              case Some(key) =>
                match routes.InvokeEndpoint(key, [req], env.call)
                case Err(_) => output == old(output) && closed == old(closed)
                case Ok(Response(text)) => output == old(output) + [text] && closed
                case Ok(_) => output == old(output) && closed)
    {
      var request := GenerateRequest(env);
      if request.Err? {
        return;
      }
      if request.value.None? {
        closed := true;
        return;
      }
      var req := request.value.value;
      var endpointPath := DispatchKey(req.verb, req.location);
      if endpointPath.None? {
        return;
      }
      var response := routes.InvokeEndpoint(endpointPath.value, [req], env.call);
      if response.Err? {
        return;
      }
      if response.value.Response? {
        output := output + [response.value.rendered];
      }
      closed := true;
    }
  }
}
