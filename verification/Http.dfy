/** HTTP/1.1 request framing: `Session::parseRequest` over cursors, and what it computes. */
module Http {
  import opened Bytes
  import opened RingBuffers
  import opened Scan
  import opened Decimal

  const COLON: Byte := 58
  const QUESTION: Byte := 63
  const MIN_REQUEST_SIZE: nat := 16

  datatype Method = GET | POST | PUT | PATCH | DELETE | HEAD | OPTIONS | UNKNOWN

  /** `HttpRequest::parseMethod`: by first letter, and by length for the three methods in P. */
  function ParseMethod(m: seq<Byte>): Method {
    if m == [] then UNKNOWN
    else
      match m[0]
      case 71 => GET
      case 80 => if |m| == 3 then PUT else if |m| == 4 then POST else if |m| == 5 then PATCH else UNKNOWN
      case 72 => HEAD
      case 68 => DELETE
      case 79 => OPTIONS
      case _ => UNKNOWN
  }

  /** The seven method names of the standard. */
  function NameOf(m: Method): seq<Byte>
    requires m != UNKNOWN
  {
    match m
    case GET => [71, 69, 84]
    case POST => [80, 79, 83, 84]
    case PUT => [80, 85, 84]
    case PATCH => [80, 65, 84, 67, 72]
    case DELETE => [68, 69, 76, 69, 84, 69]
    case HEAD => [72, 69, 65, 68]
    case OPTIONS => [79, 80, 84, 73, 79, 78, 83]
  }

  /** Every method is recognised by its own name, so no two names are confused. */
  lemma NamesRecognised(m: Method)
    requires m != UNKNOWN
    ensures ParseMethod(NameOf(m)) == m
    ensures SPACE !in NameOf(m) && CR !in NameOf(m)
  {
  }

  /** Anything else is unknown, CONNECT and TRACE among it; a first letter of the other six is enough. */
  lemma UnknownExactly(m: seq<Byte>)
    ensures ParseMethod(m) == UNKNOWN <==>
            m == [] || m[0] !in {68, 71, 72, 79, 80} || (m[0] == 80 && !(3 <= |m| <= 5))
    ensures ParseMethod([67, 79, 78, 78, 69, 67, 84]) == ParseMethod([84, 82, 65, 67, 69]) == UNKNOWN
  {
  }

  // ---- cursors ----

  /** Where a cursor started at `from` stops: at the first `stop` or `other`, or at `limit`. */
  function Seek(data: seq<Byte>, from: nat, limit: nat, stop: Byte, other: Byte): (r: nat)
    requires from <= limit <= |data|
    ensures from <= r <= limit
    ensures r < limit ==> data[r] == stop || data[r] == other
    ensures forall i :: from <= i < r ==> data[i] != stop && data[i] != other
    decreases limit - from
  {
    if from == limit || data[from] == stop || data[from] == other then from
    else Seek(data, from + 1, limit, stop, other)
  }

  method SeekTo(data: seq<Byte>, from: nat, limit: nat, stop: Byte, other: Byte) returns (r: nat)
    requires from <= limit <= |data|
    ensures r == Seek(data, from, limit, stop, other)
  {
    r := from;
    while r < limit && data[r] != stop && data[r] != other
      invariant from <= r <= limit
      invariant Seek(data, r, limit, stop, other) == Seek(data, from, limit, stop, other)
    {
      r := r + 1;
    }
  }

  // ---- the request line ----

  datatype RequestLine = RequestLine(verb: Method, path: seq<Byte>, query: seq<Byte>, version: seq<Byte>)

  /** Where the method, the path and the query of a request line end. */
  datatype Cuts = Cuts(methodEnd: nat, pathEnd: nat, queryEnd: nat)

  /** The cuts of the line that ends, at its CR, at `end`; `None` where a space is missing. */
  function CutsOf(data: seq<Byte>, end: nat): (c: Option<Cuts>)
    requires end <= |data|
    ensures c.Some? ==> c.value.methodEnd < c.value.pathEnd <= c.value.queryEnd < end
    ensures c.Some? && data[c.value.pathEnd] == QUESTION ==> c.value.pathEnd < c.value.queryEnd
  {
    var m := Seek(data, 0, end, SPACE, SPACE);
    if m == end then None
    else
      var p := Seek(data, m + 1, end, QUESTION, SPACE);
      if p == end then None
      else
        var q := if data[p] == QUESTION then Seek(data, p + 1, end, SPACE, SPACE) else p;
        if q == end then None else Some(Cuts(m, p, q))
  }

  function LineAt(data: seq<Byte>, end: nat, c: Cuts): RequestLine
    requires c.methodEnd < c.pathEnd <= c.queryEnd < end <= |data|
    requires data[c.pathEnd] == QUESTION ==> c.pathEnd < c.queryEnd
  {
    var query := if data[c.pathEnd] == QUESTION then data[c.pathEnd + 1..c.queryEnd] else [];
    RequestLine(ParseMethod(data[..c.methodEnd]), data[c.methodEnd + 1..c.pathEnd], query, data[c.queryEnd + 1..end])
  }

  function ParseLine(data: seq<Byte>, end: nat): Option<RequestLine>
    requires end <= |data|
  {
    match CutsOf(data, end)
    case None => None
    case Some(c) => Some(LineAt(data, end, c))
  }

  /** Moves the cursors along the request line. */
  method FindCuts(data: seq<Byte>, lineEnd: nat) returns (c: Option<Cuts>)
    requires lineEnd <= |data|
    ensures c == CutsOf(data, lineEnd)
  {
    var methodEnd := SeekTo(data, 0, lineEnd, SPACE, SPACE);
    if methodEnd == lineEnd {
      return None;
    }
    var pathEnd := SeekTo(data, methodEnd + 1, lineEnd, QUESTION, SPACE);
    if pathEnd == lineEnd {
      return None;
    }
    var queryEnd := pathEnd;
    if data[pathEnd] == QUESTION {
      queryEnd := SeekTo(data, pathEnd + 1, lineEnd, SPACE, SPACE);
      if queryEnd == lineEnd {
        return None;
      }
    }
    return Some(Cuts(methodEnd, pathEnd, queryEnd));
  }

  /** Cuts the request line into its parts. */
  method CutLine(data: seq<Byte>, lineEnd: nat) returns (line: Option<RequestLine>)
    requires lineEnd <= |data|
    ensures line == ParseLine(data, lineEnd)
  {
    var cuts := FindCuts(data, lineEnd);
    if cuts.None? {
      return None;
    }
    var c := cuts.value;
    var queryStart := if data[c.pathEnd] == QUESTION then c.pathEnd + 1 else c.pathEnd;
    var query := data[queryStart..c.queryEnd];
    var verb := ParseMethod(data[..c.methodEnd]);
    line := Some(RequestLine(verb, data[c.methodEnd + 1..c.pathEnd], query, data[c.queryEnd + 1..lineEnd]));
    assert line.value == LineAt(data, lineEnd, c);
  }

  // ---- headers ----

  /** What the header loop remembers. */
  datatype HeaderState = HeaderState(keepAlive: bool, hasLen: bool, len: nat)

  const NO_HEADERS := HeaderState(true, false, 0)

  /** `c | 32`. */
  function Lower(c: Byte): nat {
    if c / 32 % 2 == 1 then c else c + 32
  }

  /** The same but for bit 5, which in letters is their case. */
  predicate SameButCase(a: Byte, b: Byte) {
    a % 32 == b % 32 && a / 64 == b / 64
  }

  lemma LowerExactly(a: Byte, b: Byte)
    ensures Lower(a) == Lower(b) <==> SameButCase(a, b)
  {
    var x, y := a / 32 % 2, b / 32 % 2;
    assert a == 64 * (a / 64) + 32 * x + a % 32 && b == 64 * (b / 64) + 32 * y + b % 32;
  }

  /** `iequals_small`. */
  predicate EqualsIgnoringCase(a: seq<Byte>, b: seq<Byte>) {
    |a| == |b| && forall i :: 0 <= i < |a| ==> Lower(a[i]) == Lower(b[i])
  }

  /** "close" */
  const CLOSE: seq<Byte> := [99, 108, 111, 115, 101]
  /** "keep-alive" */
  const KEEP_ALIVE: seq<Byte> := [107, 101, 101, 112, 45, 97, 108, 105, 118, 101]

  /** One header: only the length of its name decides what it is. */
  function Field(st: HeaderState, nameLength: nat, value: seq<Byte>): HeaderState {
    if nameLength == 10 then
      if EqualsIgnoringCase(value, CLOSE) then st.(keepAlive := false)
      else if EqualsIgnoringCase(value, KEEP_ALIVE) then st.(keepAlive := true)
      else st
    else if nameLength == 14 then st.(hasLen := true, len := Atoi(value))
    else st
  }

  /** `ok` is false where the loop makes `parseRequest` give up; `at` is where the body starts. */
  datatype Headers = Headers(ok: bool, at: nat, st: HeaderState)

  /** One turn of the header loop: done either way, or on to the next line. */
  datatype Turn = Done(h: Headers) | Onward(p: nat, st: HeaderState)

  function OneHeader(data: seq<Byte>, p: nat, st: HeaderState, maxBody: nat): (t: Turn)
    requires p < |data|
    ensures t.Done? ==> p <= t.h.at <= |data|
    ensures t.Onward? ==> p + 2 <= t.p <= |data|
    ensures st.len <= maxBody ==> (t.Onward? ==> t.st.len <= maxBody) && (t.Done? && t.h.ok ==> t.h.st.len <= maxBody)
  {
    if p + 1 < |data| && data[p] == CR && data[p + 1] == LF then Done(Headers(true, p + 2, st))
    else
      var end := FirstCr(data, p);
      if end + 1 >= |data| || data[end + 1] != LF then Done(Headers(false, p, st))
      else
        var colon := Seek(data, p, end, COLON, COLON);
        if colon == end then Onward(end + 2, st)
        else
          var next := Field(st, colon - p, data[ValueStart(data, colon, end)..end]);
          if colon - p == 14 && next.len > maxBody then Done(Headers(false, p, next))
          else Onward(end + 2, next)
  }

  /** The loop also ends, successfully, where the data ends. */
  function ParseHeaders(data: seq<Byte>, p: nat, st: HeaderState, maxBody: nat): (h: Headers)
    requires p <= |data|
    ensures p <= h.at <= |data|
    ensures h.ok && st.len <= maxBody ==> h.st.len <= maxBody
    decreases |data| - p
  {
    if p == |data| then Headers(true, p, st)
    else
      match OneHeader(data, p, st, maxBody)
      case Done(h) => h
      case Onward(q, next) => ParseHeaders(data, q, next, maxBody)
  }

  /** A single space after the colon is skipped. */
  function ValueStart(data: seq<Byte>, colon: nat, end: nat): (v: nat)
    requires colon < end <= |data|
    ensures colon < v <= end
  {
    if colon + 1 < end && data[colon + 1] == SPACE then colon + 2 else colon + 1
  }

  method MatchesIgnoringCase(a: seq<Byte>, b: seq<Byte>) returns (r: bool)
    ensures r == EqualsIgnoringCase(a, b)
    ensures r <==> |a| == |b| && forall i :: 0 <= i < |a| ==> SameButCase(a[i], b[i])
  {
    if |a| != |b| {
      return false;
    }
    var i := 0;
    while i < |a|
      invariant 0 <= i <= |a|
      invariant forall k :: 0 <= k < i ==> Lower(a[k]) == Lower(b[k]) && SameButCase(a[k], b[k])
    {
      LowerExactly(a[i], b[i]);
      if Lower(a[i]) != Lower(b[i]) {
        return false;
      }
      i := i + 1;
    }
    return true;
  }

  /** The switch on the length of a header's name. */
  method TakeField(st: HeaderState, klen: nat, value: seq<Byte>) returns (next: HeaderState)
    ensures next == Field(st, klen, value)
  {
    next := st;
    if klen == 10 {
      var isClose := MatchesIgnoringCase(value, CLOSE);
      if isClose {
        next := next.(keepAlive := false);
      } else {
        var isKeepAlive := MatchesIgnoringCase(value, KEEP_ALIVE);
        if isKeepAlive {
          next := next.(keepAlive := true);
        }
      }
    } else if klen == 14 {
      var len := FastAtoi(value);
      next := next.(len := len, hasLen := true);
    }
  }

  /** The body of the header loop. */
  method TakeHeader(data: seq<Byte>, p: nat, st: HeaderState, maxBody: nat) returns (t: Turn)
    requires p < |data|
    ensures t == OneHeader(data, p, st, maxBody)
  {
    if p + 1 < |data| && data[p] == CR && data[p + 1] == LF {
      return Done(Headers(true, p + 2, st));
    }
    var hEnd := FindCrlf(data, p);
    if hEnd.None? || hEnd.value + 1 >= |data| || data[hEnd.value + 1] != LF {
      return Done(Headers(false, p, st));
    }
    var end := hEnd.value;
    var colon := SeekTo(data, p, end, COLON, COLON);
    if colon == end {
      return Onward(end + 2, st);
    }
    var v := colon + 1;
    if v < end && data[v] == SPACE {
      v := v + 1;
    }
    var next := TakeField(st, colon - p, data[v..end]);
    if colon - p == 14 && next.len > maxBody {
      return Done(Headers(false, p, next));
    }
    return Onward(end + 2, next);
  }

  /** The header loop, from the first byte after the request line. */
  method TakeHeaders(data: seq<Byte>, start: nat, maxBody: nat) returns (h: Headers)
    requires start <= |data|
    ensures h == ParseHeaders(data, start, NO_HEADERS, maxBody)
  {
    var p, st := start, NO_HEADERS;
    while p < |data|
      invariant start <= p <= |data|
      invariant ParseHeaders(data, p, st, maxBody) == ParseHeaders(data, start, NO_HEADERS, maxBody)
      decreases |data| - p
    {
      var t := TakeHeader(data, p, st, maxBody);
      match t {
        case Done(done) => return done;
        case Onward(q, next) => p, st := q, next;
      }
    }
    return Headers(true, p, st);
  }

  // ---- the whole request ----

  /** A result, and what was stored on the way: the request line, keep-alive and the body, each only if reached. */
  datatype Parsed = Parsed(
    ok: bool, size: nat, line: Option<RequestLine>, keepAlive: Option<bool>, body: Option<seq<Byte>>)

  const NOTHING := Parsed(false, 0, None, None, None)

  /** Where the body starts and the request ends. */
  datatype Rest = Rest(ok: bool, bodyAt: nat, size: nat, keepAlive: bool)

  function RestOf(data: seq<Byte>, at: nat, maxBody: nat): (t: Rest)
    requires at <= |data|
    ensures t.ok ==> at <= t.bodyAt <= t.size <= |data|
  {
    var h := ParseHeaders(data, at, NO_HEADERS, maxBody);
    var bodyLen := if h.st.hasLen then h.st.len else 0;
    Rest(h.ok && h.at + bodyLen <= |data|, h.at, h.at + bodyLen, h.st.keepAlive)
  }

  /** Headers and body, once the request line has been read up to `at`. */
  function AfterLine(data: seq<Byte>, at: nat, line: RequestLine, maxBody: nat): (r: Parsed)
    requires at <= |data|
    ensures r.ok ==> at <= r.size <= |data|
  {
    var t := RestOf(data, at, maxBody);
    if !t.ok then Parsed(false, 0, Some(line), Some(t.keepAlive), None)
    else
      Parsed(true, t.size, Some(line), Some(t.keepAlive),
             if t.bodyAt < t.size then Some(data[t.bodyAt..t.size]) else None)
  }

  /** The request line at the front, and where the headers start. */
  datatype Front = NoLine | Line(at: nat, line: RequestLine)

  /** The line that ends at the CR at `end`. */
  function FrontTo(data: seq<Byte>, end: nat): (f: Front)
    requires end + 1 < |data|
    ensures f.Line? ==> 4 <= f.at <= |data|
  {
    match ParseLine(data, end)
    case None => NoLine
    case Some(line) => Line(end + 2, line)
  }

  function FrontOf(data: seq<Byte>): (f: Front)
    ensures f.Line? ==> 4 <= f.at <= |data|
  {
    if |data| < MIN_REQUEST_SIZE then NoLine
    else
      var end := FirstCr(data, 0);
      if end + 1 >= |data| || data[end + 1] != LF then NoLine else FrontTo(data, end)
  }

  function Parse(data: seq<Byte>, maxBody: nat): (r: Parsed)
    ensures r.ok ==> 4 <= r.size <= |data|
  {
    match FrontOf(data)
    case NoLine => NOTHING
    case Line(at, line) => AfterLine(data, at, line, maxBody)
  }

  method TakeFront(data: seq<Byte>) returns (f: Front)
    ensures f == FrontOf(data)
  {
    if |data| < MIN_REQUEST_SIZE {
      return NoLine;
    }
    var lineEnd := FindCrlf(data, 0);
    if lineEnd.None? || lineEnd.value + 1 >= |data| || data[lineEnd.value + 1] != LF {
      return NoLine;
    }
    assert FrontOf(data) == FrontTo(data, lineEnd.value);
    var line := CutLine(data, lineEnd.value);
    if line.None? {
      return NoLine;
    }
    return Line(lineEnd.value + 2, line.value);
  }

  /** The header loop and the length check; no sum leaves the range of `size_t`. */
  method FindRest(data: seq<Byte>, at: nat, maxBody: nat) returns (t: Rest)
    requires at <= |data| && |data| + maxBody < TWO_64
    ensures t.ok == RestOf(data, at, maxBody).ok && t.keepAlive == RestOf(data, at, maxBody).keepAlive
    ensures t.ok ==> t == RestOf(data, at, maxBody)
  {
    var h := TakeHeaders(data, at, maxBody);
    var size := h.at;
    if h.ok && h.st.hasLen && h.st.len > 0 {
      size := Add64(h.at, h.st.len);
    }
    if !h.ok || |data| < size {
      return Rest(false, at, at, h.st.keepAlive);
    }
    return Rest(true, h.at, size, h.st.keepAlive);
  }

  // ---- the session ----

  /** The fields `parseRequest` stores into. */
  datatype Stored = Stored(line: RequestLine, body: seq<Byte>, keepAlive: bool)

  function Store(s: Stored, r: Parsed): Stored {
    Stored(
      if r.line.Some? then r.line.value else s.line,
      if r.body.Some? then r.body.value else s.body,
      if r.keepAlive.Some? then r.keepAlive.value else s.keepAlive)
  }

  class HttpRequest {
    var verb: Method
    var path: seq<Byte>
    var query: seq<Byte>
    var version: seq<Byte>
    var body: seq<Byte>

    constructor ()
      ensures Line() == RequestLine(UNKNOWN, [], [], []) && body == []
    {
      verb := UNKNOWN;
      path, query, version, body := [], [], [], [];
    }

    function Line(): RequestLine
      reads this
    {
      RequestLine(verb, path, query, version)
    }

    method SetMethod(m: Method)
      modifies this`verb
      ensures verb == m
    {
      verb := m;
    }

    method SetPath(p: seq<Byte>, q: seq<Byte>)
      modifies this`path, this`query
      ensures path == p && query == q
    {
      path, query := p, q;
    }

    method SetVersion(v: seq<Byte>)
      modifies this`version
      ensures version == v
    {
      version := v;
    }

    method SetBody(b: seq<Byte>)
      modifies this`body
      ensures body == b
    {
      body := b;
    }
  }

  class HttpSession {
    const req: HttpRequest
    const readBuf: RingBuffer
    const maxBody: nat
    var keepAlive: bool

    /** No offset into the read buffer plus an admitted body length leaves the range of `size_t`. */
    ghost predicate Valid()
      reads readBuf
    {
      readBuf.Valid() && readBuf.capacity + maxBody < TWO_64
    }

    constructor (readSize: nat, maxBody: nat)
      requires readSize + maxBody < TWO_64
      ensures Valid() && readBuf.contents == [] && fresh(readBuf) && fresh(req) && this.maxBody == maxBody
    {
      var r := new HttpRequest();
      var rb := new RingBuffer(readSize);
      req, readBuf, keepAlive := r, rb, false;
      this.maxBody := maxBody;
    }

    function Fields(): Stored
      reads this, req
    {
      Stored(req.Line(), req.body, keepAlive)
    }

    /** Stores the parts of a request line. */
    method StoreLine(line: RequestLine)
      modifies req
      ensures req.Line() == line && req.body == old(req.body)
    {
      req.SetMethod(line.verb);
      req.SetPath(line.path, line.query);
      req.SetVersion(line.version);
    }

    /** Headers and body; only a complete request moves the read buffer. */
    method TakeRest(at: nat) returns (ok: bool)
      requires Valid() && at <= |readBuf.contents|
      modifies this`keepAlive, req`body, readBuf
      ensures Valid()
      ensures var r := AfterLine(old(readBuf.contents), at, old(req.Line()), maxBody);
              ok == r.ok && Fields() == Store(old(Fields()), r) &&
              readBuf.contents == if ok then old(readBuf.contents)[r.size..] else old(readBuf.contents)
    {
      var t := FindRest(readBuf.contents, at, maxBody);
      keepAlive := t.keepAlive;
      if !t.ok {
        return false;
      }
      if t.bodyAt < t.size {
        req.SetBody(readBuf.contents[t.bodyAt..t.size]);
      }
      readBuf.AdvanceReadPos(t.size);
      return true;
    }

    /** Takes one request off the read buffer, or leaves the buffer as it is. */
    method ParseRequest() returns (ok: bool)
      requires Valid()
      modifies this`keepAlive, req, readBuf
      ensures Valid()
      ensures var r := Parse(old(readBuf.contents), maxBody);
              ok == r.ok && Fields() == Store(old(Fields()), r) &&
              readBuf.contents == if ok then old(readBuf.contents)[r.size..] else old(readBuf.contents)
    {
      var front := TakeFront(readBuf.contents);
      match front {
        case NoLine =>
          return false;
        case Line(at, line) =>
          StoreLine(line);
          ok := TakeRest(at);
      }
    }

    /** `while (parseRequest()) handleRequest();`, collecting what each handler is shown. */
    method DrainRequests() returns (handled: seq<Stored>)
      requires Valid()
      modifies this`keepAlive, req, readBuf
      ensures Valid()
      ensures handled == Requests(old(readBuf.contents), old(Fields()), maxBody)
      ensures readBuf.contents == Remainder(old(readBuf.contents), maxBody)
      ensures Fields() == AfterDrain(old(readBuf.contents), old(Fields()), maxBody)
      ensures 4 * |handled| <= |old(readBuf.contents)| - |readBuf.contents|
    {
      handled := [];
      ghost var start, first := readBuf.contents, Fields();
      while true
        invariant Valid()
        invariant handled + Requests(readBuf.contents, Fields(), maxBody) == Requests(start, first, maxBody)
        invariant Remainder(readBuf.contents, maxBody) == Remainder(start, maxBody)
        invariant AfterDrain(readBuf.contents, Fields(), maxBody) == AfterDrain(start, first, maxBody)
        invariant 4 * |handled| <= |start| - |readBuf.contents|
        decreases |readBuf.contents|
      {
        ghost var data, before := readBuf.contents, Fields();
        var ok := ParseRequest();
        if !ok {
          return handled;
        }
        Assoc(handled, [Fields()], Requests(readBuf.contents, Fields(), maxBody));
        handled := handled + [Fields()];
      }
    }
  }

  /** What the handlers are shown, one after the other. */
  function Requests(data: seq<Byte>, s: Stored, maxBody: nat): seq<Stored>
    decreases |data|
  {
    var r := Parse(data, maxBody);
    if !r.ok then [] else [Store(s, r)] + Requests(data[r.size..], Store(s, r), maxBody)
  }

  /** What is stored when the loop ends: the last attempt, the one that fails, stores as far as it gets. */
  function AfterDrain(data: seq<Byte>, s: Stored, maxBody: nat): Stored
    decreases |data|
  {
    var r := Parse(data, maxBody);
    if !r.ok then Store(s, r) else AfterDrain(data[r.size..], Store(s, r), maxBody)
  }

  /** What is left in the read buffer then. */
  function Remainder(data: seq<Byte>, maxBody: nat): seq<Byte>
    decreases |data|
  {
    var r := Parse(data, maxBody);
    if !r.ok then data else Remainder(data[r.size..], maxBody)
  }
}
