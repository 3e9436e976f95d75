/**
 * Exactly which bytes are accepted as a request: printed requests, and the beginnings
 * of one that end with its request line or a header line.
 */
module HttpLanguage {
  import opened Bytes
  import opened Scan
  import opened Decimal
  import opened Http
  import opened HttpRuns

  // ---- the request line ----

  lemma NotInPiece(data: seq<Byte>, i: nat, j: nat, c: Byte)
    requires i <= j <= |data| && forall k :: i <= k < j ==> data[k] != c
    ensures c !in data[i..j]
  {
  }

  /** The query, with its question mark, that lies between two cuts. */
  lemma QueryOf(data: seq<Byte>, end: nat, c: Cuts) returns (query: Option<seq<Byte>>)
    requires end <= |data| && CutsOf(data, end) == Some(c) && forall i :: 0 <= i < end ==> data[i] != CR
    ensures data[c.pathEnd..c.queryEnd] == if query.Some? then [QUESTION] + query.value else []
    ensures query.Some? ==> SPACE !in query.value && CR !in query.value
    ensures LineAt(data, end, c).query == if query.Some? then query.value else []
    ensures data[c.queryEnd] == SPACE
  {
    var p, q := c.pathEnd, c.queryEnd;
    if data[p] == QUESTION {
      query := Some(data[p + 1..q]);
      NotInPiece(data, p + 1, q, SPACE);
      NotInPiece(data, p + 1, q, CR);
      assert data[p..q] == [QUESTION] + data[p + 1..q];
    } else {
      query := None;
    }
  }

  lemma PiecesAgain(data: seq<Byte>, m: nat, p: nat, q: nat, end: nat)
    requires m < p <= q < end <= |data| && data[m] == SPACE && data[q] == SPACE
    ensures data[..m] + [SPACE] + data[m + 1..p] + data[p..q] + [SPACE] + data[q + 1..end] == data[..end]
  {
    SliceJoins(data, 0, m, m + 1);
    SliceJoins(data, 0, m + 1, p);
    SliceJoins(data, 0, p, q);
    SliceJoins(data, 0, q, q + 1);
    SliceJoins(data, 0, q + 1, end);
    assert data[m..m + 1] == [SPACE] && data[q..q + 1] == [SPACE];
    assert data[0..m] == data[..m] && data[0..end] == data[..end];
  }

  /** A request line that is accepted was printed. */
  lemma LineWasPrinted(data: seq<Byte>, end: nat) returns (r: Printed)
    requires end <= |data| && ParseLine(data, end).Some? && forall i :: 0 <= i < end ==> data[i] != CR
    ensures LineOk(r) && LineText(r) == data[..end] && LineOf(r) == ParseLine(data, end).value
    ensures r.headers == [] && r.body == []
  {
    var c := CutsOf(data, end).value;
    var m, p, q := c.methodEnd, c.pathEnd, c.queryEnd;
    var query := QueryOf(data, end, c);
    r := Printed(data[..m], data[m + 1..p], query, data[q + 1..end], [], []);
    NotInPiece(data, 0, m, SPACE);
    NotInPiece(data, 0, m, CR);
    NotInPiece(data, m + 1, p, SPACE);
    NotInPiece(data, m + 1, p, QUESTION);
    NotInPiece(data, m + 1, p, CR);
    NotInPiece(data, q + 1, end, CR);
    assert data[0..m] == data[..m];
    ConcatSix(r.verb, [SPACE], r.path, QueryText(r), [SPACE], r.version);
    PiecesAgain(data, m, p, q, end);
  }

  // ---- headers ----

  /** Name, colon and what stands behind it, put together again. */
  lemma NameAndValue(data: seq<Byte>, p: nat, colon: nat, v: nat, end: nat)
    requires p <= colon < v <= end <= |data| && data[colon] == COLON
    ensures data[p..colon] + [COLON] + (data[colon + 1..v] + data[v..end]) == data[p..end]
  {
    SliceJoins(data, p, colon, colon + 1);
    SliceJoins(data, p, colon + 1, v);
    SliceJoins(data, p, v, end);
    assert data[colon..colon + 1] == [COLON];
    Assoc(data[p..colon] + [COLON], data[colon + 1..v], data[v..end]);
  }

  /** The header a line with a colon was printed from. */
  function HeaderIn(data: seq<Byte>, p: nat, colon: nat, end: nat): Header
    requires p <= colon < end <= |data|
  {
    Header(data[p..colon], colon + 1 < end && data[colon + 1] == SPACE, data[ValueStart(data, colon, end)..end])
  }

  lemma HeaderInIs(data: seq<Byte>, p: nat, colon: nat, end: nat)
    requires p <= colon < end <= |data| && data[colon] == COLON
    requires (forall i :: p <= i < colon ==> data[i] != COLON) && forall i :: p <= i < end ==> data[i] != CR
    ensures HeaderLine(HeaderIn(data, p, colon, end)) && HeaderBody(HeaderIn(data, p, colon, end)) == data[p..end]
  {
    var v := ValueStart(data, colon, end);
    NotInPiece(data, p, colon, COLON);
    NotInPiece(data, p, colon, CR);
    NotInPiece(data, v, end, CR);
    assert data[colon + 1..v] == if colon + 1 < end && data[colon + 1] == SPACE then [SPACE] else [];
    NameAndValue(data, p, colon, v, end);
  }

  /** What the turn did, by where the colon is. */
  lemma OnwardParts(data: seq<Byte>, p: nat, st: HeaderState, maxBody: nat)
    requires p < |data| && OneHeader(data, p, st, maxBody).Onward?
    ensures var t, end := OneHeader(data, p, st, maxBody), FirstCr(data, p);
            p < end && t.p == end + 2 <= |data| && data[end] == CR && data[end + 1] == LF &&
            var colon := Seek(data, p, end, COLON, COLON);
            if colon == end then t.st == st
            else
              var value := data[ValueStart(data, colon, end)..end];
              t.st == Field(st, colon - p, value) && (colon - p == 14 ==> Atoi(value) <= maxBody)
  {
  }

  /** A line that the header loop goes on from was printed. */
  lemma HeaderWasPrinted(data: seq<Byte>, p: nat, st: HeaderState, maxBody: nat) returns (h: Header)
    requires p < |data| && OneHeader(data, p, st, maxBody).Onward?
    ensures Within(h, maxBody)
    ensures var t := OneHeader(data, p, st, maxBody);
            p < t.p <= |data| && data[p..t.p] == HeaderText(h) && t.st == Apply(st, h)
  {
    var end := FirstCr(data, p);
    var colon := Seek(data, p, end, COLON, COLON);
    OnwardParts(data, p, st, maxBody);
    SliceJoins(data, p, end, end + 2);
    assert data[end..end + 2] == CRLF;
    if colon == end {
      NotInPiece(data, p, end, CR);
      NotInPiece(data, p, end, COLON);
      h := NoColon(data[p..end]);
    } else {
      HeaderInIs(data, p, colon, end);
      h := HeaderIn(data, p, colon, end);
      assert NamesLength(h) <==> colon - p == 14;
      assert !TooLong(h, maxBody);
    }
  }

  /** What the loop went over: header lines, and a blank line unless the data ran out. */
  predicate PrintedFrom(data: seq<Byte>, p: nat, h: Headers, hs: seq<Header>, blank: bool)
    requires p <= h.at <= |data|
  {
    data[p..h.at] == HeadersText(hs) + (if blank then CRLF else []) && (!blank ==> h.at == |data|)
  }

  lemma {:induction false} HeadersWerePrinted(data: seq<Byte>, p: nat, st: HeaderState, maxBody: nat)
    returns (hs: seq<Header>, blank: bool)
    requires p <= |data| && ParseHeaders(data, p, st, maxBody).ok
    ensures forall h :: h in hs ==> Within(h, maxBody)
    ensures var h := ParseHeaders(data, p, st, maxBody);
            PrintedFrom(data, p, h, hs, blank) && h.st == Folded(st, hs)
    decreases |data| - p
  {
    if p == |data| {
      hs, blank := [], false;
    } else if OneHeader(data, p, st, maxBody).Done? {
      hs, blank := [], true;
      assert data[p..p + 2] == CRLF;
    } else {
      var t := OneHeader(data, p, st, maxBody);
      var h := HeaderWasPrinted(data, p, st, maxBody);
      var rest;
      rest, blank := HeadersWerePrinted(data, t.p, t.st, maxBody);
      hs := [h] + rest;
      var at := ParseHeaders(data, t.p, t.st, maxBody).at;
      SliceJoins(data, p, t.p, at);
      assert hs[0] == h && hs[1..] == rest;
      Assoc(HeaderText(h), HeadersText(rest), if blank then CRLF else []);
    }
  }

  /** Printed headers at the end of the data: the loop takes that for the end of the headers. */
  lemma {:induction false} HeadersRunOut(pre: seq<Byte>, hs: seq<Header>, st: HeaderState, maxBody: nat)
    requires forall h :: h in hs ==> Within(h, maxBody)
    ensures ParseHeaders(pre + HeadersText(hs), |pre|, st, maxBody) ==
            Headers(true, |pre + HeadersText(hs)|, Folded(st, hs))
    decreases |hs|
  {
    var data := pre + HeadersText(hs);
    if hs == [] {
      assert data == pre;
    } else {
      assert Within(hs[0], maxBody);
      Assoc(pre, HeaderText(hs[0]), HeadersText(hs[1..]));
      HeaderParses(pre, hs[0], HeadersText(hs[1..]), st, maxBody);
      HeadersRunOut(pre + HeaderText(hs[0]), hs[1..], Apply(st, hs[0]), maxBody);
    }
  }

  // ---- whole requests ----

  /** The first `n` bytes are a printed request. */
  predicate IsRequest(data: seq<Byte>, maxBody: nat, r: Printed, n: nat) {
    Sound(r, maxBody) && Print(r) <= data && n == |Print(r)|
  }

  /** All there is are the request line and header lines of one, with no positive length in force. */
  predicate IsBeginning(data: seq<Byte>, maxBody: nat, r: Printed) {
    LineOk(r) && (forall h :: h in r.headers ==> Within(h, maxBody)) && LengthGiven(r.headers) == 0 &&
    data == LineText(r) + CRLF + HeadersText(r.headers)
  }

  lemma RequestIsTaken(data: seq<Byte>, maxBody: nat, r: Printed, n: nat)
    requires |data| >= MIN_REQUEST_SIZE && IsRequest(data, maxBody, r, n)
    ensures Parse(data, maxBody) == Seen(r)
  {
    assert data == Print(r) + data[n..];
    RequestRoundTrip(r, data[n..], maxBody);
  }

  lemma LineStands(r: Printed, rest: seq<Byte>)
    requires LineOk(r)
    ensures var data, end := LineText(r) + CRLF + rest, |LineText(r)|;
            FirstCr(data, 0) == end && end + 1 < |data| && data[end + 1] == LF &&
            ParseLine(data, end) == Some(LineOf(r))
  {
    var line := LineText(r);
    var data := line + CRLF + rest;
    Assoc(line, CRLF, rest);
    LineHasNoCr(r);
    Slices(line, CRLF, rest, []);
    assert data + [] == data;
    PairAt(data, |line|, CR, LF);
    assert data[0..0 + |line|] == line;
    CrOver(data, 0, line);
    LineParses(r, CRLF + rest);
  }

  lemma BeginningHeaders(data: seq<Byte>, maxBody: nat, r: Printed)
    requires (forall h :: h in r.headers ==> Within(h, maxBody)) && data == LineText(r) + CRLF + HeadersText(r.headers)
    ensures |LineText(r)| + 2 <= |data|
    ensures ParseHeaders(data, |LineText(r)| + 2, NO_HEADERS, maxBody) ==
            Headers(true, |data|, Folded(NO_HEADERS, r.headers))
  {
    HeadersRunOut(LineText(r) + CRLF, r.headers, NO_HEADERS, maxBody);
    assert |LineText(r) + CRLF| == |LineText(r)| + 2;
  }

  lemma BeginningIsTaken(data: seq<Byte>, maxBody: nat, r: Printed)
    requires |data| >= MIN_REQUEST_SIZE && IsBeginning(data, maxBody, r)
    ensures Parse(data, maxBody).ok && Parse(data, maxBody).size == |data|
  {
    LineStands(r, HeadersText(r.headers));
    BeginningHeaders(data, maxBody, r);
    FoldedLength(r.headers);
    EndsHere(data, |LineText(r)|, LineOf(r), Folded(NO_HEADERS, r.headers), maxBody);
  }

  lemma EndsHere(data: seq<Byte>, end: nat, line: RequestLine, st: HeaderState, maxBody: nat)
    requires |data| >= MIN_REQUEST_SIZE && FirstCr(data, 0) == end && end + 1 < |data| && data[end + 1] == LF
    requires ParseLine(data, end) == Some(line) && InForce(st) == 0
    requires ParseHeaders(data, end + 2, NO_HEADERS, maxBody) == Headers(true, |data|, st)
    ensures Parse(data, maxBody).ok && Parse(data, maxBody).size == |data|
  {
    ParseByParts(data, end, end + 2, line, Headers(true, |data|, st), |data|, maxBody);
  }

  /** What an accepted request was parsed from. */
  lemma TakenPieces(data: seq<Byte>, maxBody: nat) returns (end: nat, line: RequestLine, h: Headers)
    requires Parse(data, maxBody).ok
    ensures |data| >= MIN_REQUEST_SIZE && FirstCr(data, 0) == end && end + 1 < |data| && data[end + 1] == LF
    ensures ParseLine(data, end) == Some(line) && h == ParseHeaders(data, end + 2, NO_HEADERS, maxBody) && h.ok
    ensures h.at + InForce(h.st) == Parse(data, maxBody).size <= |data|
  {
    end := FirstCr(data, 0);
    assert FrontOf(data).Line? && FrontOf(data) == FrontTo(data, end);
    line := ParseLine(data, end).value;
    LineIsRead(data, end, line, maxBody);
    h := ParseHeaders(data, end + 2, NO_HEADERS, maxBody);
  }

  lemma JoinedRequest(data: seq<Byte>, end: nat, at: nat, n: nat, hs: seq<Byte>)
    requires end + 2 <= at <= n <= |data| && data[end] == CR && data[end + 1] == LF
    requires data[end + 2..at] == hs
    ensures data[..end] + CRLF + hs == data[..at] && data[..end] + CRLF + hs + data[at..n] == data[..n]
  {
    SliceJoins(data, 0, end, end + 2);
    SliceJoins(data, 0, end + 2, at);
    SliceJoins(data, 0, at, n);
    assert data[end..end + 2] == CRLF && data[0..end] == data[..end];
    assert data[0..at] == data[..at] && data[0..n] == data[..n];
  }

  lemma PrintOf(r: Printed, line: seq<Byte>)
    requires LineText(r) == line
    ensures Print(r) == line + CRLF + (HeadersText(r.headers) + CRLF) + r.body
  {
    ConcatFive(line, CRLF, HeadersText(r.headers), CRLF, r.body);
    Assoc(line + CRLF, HeadersText(r.headers), CRLF);
  }

  /** Headers that end with a blank line: a whole request. */
  lemma WholeWasPrinted(data: seq<Byte>, maxBody: nat, r: Printed, end: nat, at: nat, n: nat)
    requires end + 2 <= at <= n <= |data| && data[end] == CR && data[end + 1] == LF
    requires LineText(r) == data[..end] && data[end + 2..at] == HeadersText(r.headers) + CRLF
    requires r.body == data[at..n] && Sound(r, maxBody)
    ensures IsRequest(data, maxBody, r, n)
  {
    JoinedRequest(data, end, at, n, data[end + 2..at]);
    PrintOf(r, data[..end]);
    assert Print(r) == data[..n];
  }

  /** Headers that end with the data: a beginning of one. */
  lemma PartWasPrinted(data: seq<Byte>, maxBody: nat, r: Printed, end: nat)
    requires end + 2 <= |data| && data[end] == CR && data[end + 1] == LF
    requires LineText(r) == data[..end] && data[end + 2..] == HeadersText(r.headers)
    requires r.body == [] && Sound(r, maxBody)
    ensures IsBeginning(data, maxBody, r)
  {
    JoinedRequest(data, end, |data|, |data|, HeadersText(r.headers));
    assert data[..|data|] == data;
  }

  /** Headers and a body leave the request line as it is. */
  lemma FilledIn(line: Printed, hs: seq<Header>, body: seq<Byte>, maxBody: nat)
    requires LineOk(line) && (forall h :: h in hs ==> Within(h, maxBody)) && LengthGiven(hs) == |body|
    ensures var r := line.(headers := hs, body := body);
            Sound(r, maxBody) && LineText(r) == LineText(line) && r.headers == hs && r.body == body
  {
  }

  /** What was parsed as headers was printed, and gives the body's length. */
  lemma HeadersTaken(data: seq<Byte>, at: nat, maxBody: nat) returns (hs: seq<Header>, blank: bool)
    requires at <= |data| && ParseHeaders(data, at, NO_HEADERS, maxBody).ok
    ensures forall h :: h in hs ==> Within(h, maxBody)
    ensures var h := ParseHeaders(data, at, NO_HEADERS, maxBody);
            LengthGiven(hs) == InForce(h.st) &&
            if blank then data[at..h.at] == HeadersText(hs) + CRLF
            else h.at == |data| && data[at..] == HeadersText(hs)
  {
    hs, blank := HeadersWerePrinted(data, at, NO_HEADERS, maxBody);
    FoldedLength(hs);
    assert HeadersText(hs) + [] == HeadersText(hs);
  }

  /** Line, headers and body put together. */
  lemma PutTogether(
    data: seq<Byte>, maxBody: nat, line: Printed, end: nat, hs: seq<Header>, blank: bool, at: nat, n: nat)
    returns (r: Printed)
    requires end + 2 <= at <= n <= |data| && data[end] == CR && data[end + 1] == LF
    requires LineOk(line) && LineText(line) == data[..end]
    requires (forall h :: h in hs ==> Within(h, maxBody)) && at + LengthGiven(hs) == n
    requires if blank then data[end + 2..at] == HeadersText(hs) + CRLF
             else at == |data| && data[end + 2..] == HeadersText(hs)
    ensures if blank then IsRequest(data, maxBody, r, n) else IsBeginning(data, maxBody, r) && n == |data|
  {
    r := line.(headers := hs, body := data[at..n]);
    FilledIn(line, hs, data[at..n], maxBody);
    if blank {
      WholeWasPrinted(data, maxBody, r, end, at, n);
    } else {
      PartWasPrinted(data, maxBody, r, end);
    }
  }

  /** The rest of what is accepted, behind a printed request line. */
  lemma RestWasPrinted(data: seq<Byte>, maxBody: nat, line: Printed, end: nat, h: Headers, n: nat)
    returns (r: Printed, whole: bool)
    requires end + 1 < |data| && data[end] == CR && data[end + 1] == LF && LineOk(line) && LineText(line) == data[..end]
    requires h == ParseHeaders(data, end + 2, NO_HEADERS, maxBody) && h.ok && h.at + InForce(h.st) == n <= |data|
    ensures if whole then IsRequest(data, maxBody, r, n) else IsBeginning(data, maxBody, r) && n == |data|
  {
    var hs;
    hs, whole := HeadersTaken(data, end + 2, maxBody);
    r := PutTogether(data, maxBody, line, end, hs, whole, h.at, n);
  }

  /** What is accepted, line, headers and `n` bytes in all, was printed, in whole or in part. */
  lemma TakenWasPrinted(data: seq<Byte>, maxBody: nat, end: nat, h: Headers, n: nat)
    returns (r: Printed, whole: bool)
    requires FirstCr(data, 0) == end && end + 1 < |data| && data[end + 1] == LF && ParseLine(data, end).Some?
    requires h == ParseHeaders(data, end + 2, NO_HEADERS, maxBody) && h.ok && h.at + InForce(h.st) == n <= |data|
    ensures if whole then IsRequest(data, maxBody, r, n) else IsBeginning(data, maxBody, r) && n == |data|
  {
    var line := LineWasPrinted(data, end);
    r, whole := RestWasPrinted(data, maxBody, line, end, h, n);
  }

  /**
   * Exactly which bytes are accepted as a request, and how many of them: a printed
   * request at the front, whatever follows it; or a beginning of one that ends with its
   * request line or a header line, with no positive length in force, and is all there is.
   */
  lemma AcceptedRequests(data: seq<Byte>, maxBody: nat, n: nat)
    ensures (Parse(data, maxBody).ok && Parse(data, maxBody).size == n) <==>
            |data| >= 16 &&
            ((exists r: Printed :: IsRequest(data, maxBody, r, n)) ||
             (n == |data| && exists r: Printed :: IsBeginning(data, maxBody, r)))
  {
    if Parse(data, maxBody).ok && Parse(data, maxBody).size == n {
      var end, _, h := TakenPieces(data, maxBody);
      var r, whole := TakenWasPrinted(data, maxBody, end, h, n);
    }
    if |data| >= MIN_REQUEST_SIZE {
      if r: Printed :| IsRequest(data, maxBody, r, n) {
        RequestIsTaken(data, maxBody, r, n);
      } else if n == |data| {
        if r: Printed :| IsBeginning(data, maxBody, r) {
          BeginningIsTaken(data, maxBody, r);
        }
      }
    }
  }
}
