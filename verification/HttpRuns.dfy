/** Printed requests through the parser: one at a time, pipelined, and cut short. */
module HttpRuns {
  import opened Bytes
  import opened Scan
  import opened Decimal
  import opened Http

  const CRLF: seq<Byte> := [CR, LF]

  /** A header line: a name, a colon, perhaps a space, and a value; or text without a colon, which is skipped. */
  datatype Header = Header(name: seq<Byte>, spaced: bool, value: seq<Byte>) | NoColon(text: seq<Byte>)

  /** A request as a client prints it. */
  datatype Printed = Printed(
    verb: seq<Byte>, path: seq<Byte>, query: Option<seq<Byte>>, version: seq<Byte>,
    headers: seq<Header>, body: seq<Byte>)

  predicate Named(h: Header, length: nat) {
    h.Header? && |h.name| == length
  }

  predicate NamesLength(h: Header) {
    Named(h, 14)
  }

  predicate SomeNamesLength(hs: seq<Header>) {
    exists h :: h in hs && NamesLength(h)
  }

  /** A header that prints as one line, and whose space, if it has one, is not the value's. */
  predicate HeaderLine(h: Header) {
    match h
    case Header(name, spaced, value) =>
      COLON !in name && CR !in name && CR !in value && (!spaced && value != [] ==> value[0] != SPACE)
    case NoColon(text) => text != [] && COLON !in text && CR !in text
  }

  /** A length that, as it is read, is above the limit. */
  predicate TooLong(h: Header, maxBody: nat) {
    NamesLength(h) && Atoi(h.value) > maxBody
  }

  predicate Within(h: Header, maxBody: nat) {
    HeaderLine(h) && !TooLong(h, maxBody)
  }

  /** The length the last length header gives; none without one. */
  function LengthGiven(hs: seq<Header>): nat {
    if hs == [] then 0
    else
      var last := hs[|hs| - 1];
      if NamesLength(last) then Atoi(last.value) else LengthGiven(hs[..|hs| - 1])
  }

  /** Lines that print as lines, no length above the limit, and a body of the length given. */
  predicate Sound(r: Printed, maxBody: nat) {
    LineOk(r) && (forall h :: h in r.headers ==> Within(h, maxBody)) && LengthGiven(r.headers) == |r.body|
  }

  predicate WellFormed(r: Printed, maxBody: nat) {
    Sound(r, maxBody) && |Print(r)| >= 16
  }

  // ---- printing ----

  function QueryText(r: Printed): seq<Byte> {
    if r.query.Some? then [QUESTION] + r.query.value else []
  }

  function LineText(r: Printed): seq<Byte> {
    Concat([r.verb, [SPACE], r.path, QueryText(r), [SPACE], r.version])
  }

  /** What stands behind the colon. */
  function ValueText(h: Header): seq<Byte>
    requires h.Header?
  {
    (if h.spaced then [SPACE] else []) + h.value
  }

  /** The line without its end. */
  function HeaderBody(h: Header): seq<Byte> {
    if h.Header? then h.name + [COLON] + ValueText(h) else h.text
  }

  function HeaderText(h: Header): seq<Byte> {
    HeaderBody(h) + CRLF
  }

  function HeadersText(hs: seq<Header>): seq<Byte> {
    if hs == [] then [] else HeaderText(hs[0]) + HeadersText(hs[1..])
  }

  function Print(r: Printed): seq<Byte> {
    Concat([LineText(r), CRLF, HeadersText(r.headers), CRLF, r.body])
  }

  function PrintAll(rs: seq<Printed>): seq<Byte> {
    if rs == [] then [] else Print(rs[0]) + PrintAll(rs[1..])
  }

  /** A request, byte for byte: spaces are 32, '?' is 63, ':' is 58, and lines end in 13 and 10. */
  lemma PrintSpelled(r: Printed)
    ensures Print(r) ==
            r.verb + [32] + r.path + (if r.query.Some? then [63] + r.query.value else []) + [32] + r.version +
            [13, 10] + HeadersText(r.headers) + [13, 10] + r.body
  {
    ConcatSix(r.verb, [SPACE], r.path, QueryText(r), [SPACE], r.version);
    ConcatFive(LineText(r), CRLF, HeadersText(r.headers), CRLF, r.body);
  }

  lemma HeaderSpelled(h: Header, rest: seq<Header>)
    ensures HeadersText([h] + rest) ==
            (match h
             case Header(name, spaced, value) => name + [58] + (if spaced then [32] else []) + value
             case NoColon(text) => text) + [13, 10] + HeadersText(rest)
    ensures HeadersText([]) == []
  {
    assert ([h] + rest)[1..] == rest;
    if h.Header? {
      Assoc(h.name + [58], if h.spaced then [32] else [], h.value);
    }
  }

  /** The bytes that may not stand in the parts of a request line, as numbers. */
  lemma LineOkSpelled(r: Printed)
    ensures LineOk(r) <==>
            32 !in r.verb && 13 !in r.verb && 32 !in r.path && 63 !in r.path && 13 !in r.path && 13 !in r.version &&
            (r.query.Some? ==> 32 !in r.query.value && 13 !in r.query.value)
  {
  }

  // ---- what the parser should see ----

  function LineOf(r: Printed): RequestLine {
    RequestLine(ParseMethod(r.verb), r.path, if r.query.Some? then r.query.value else [], r.version)
  }

  function Apply(st: HeaderState, h: Header): HeaderState {
    if h.Header? then Field(st, |h.name|, h.value) else st
  }

  function Folded(st: HeaderState, hs: seq<Header>): HeaderState
    decreases |hs|
  {
    if hs == [] then st else Folded(Apply(st, hs[0]), hs[1..])
  }

  function Seen(r: Printed): Parsed {
    Parsed(true, |Print(r)|, Some(LineOf(r)), Some(Folded(NO_HEADERS, r.headers).keepAlive),
           if r.body != [] then Some(r.body) else None)
  }

  // ---- cursors on printed text ----

  lemma SeekUnique(data: seq<Byte>, from: nat, limit: nat, stop: Byte, other: Byte, r: nat)
    requires from <= r <= limit <= |data| && (r < limit ==> data[r] == stop || data[r] == other)
    requires forall i :: from <= i < r ==> data[i] != stop && data[i] != other
    ensures Seek(data, from, limit, stop, other) == r
  {
  }

  /** A cursor runs over a piece without stops and halts on the byte behind it. */
  lemma SeekOver(data: seq<Byte>, from: nat, piece: seq<Byte>, limit: nat, stop: Byte, other: Byte)
    requires from + |piece| < limit <= |data| && data[from..from + |piece|] == piece
    requires stop !in piece && other !in piece && (data[from + |piece|] == stop || data[from + |piece|] == other)
    ensures Seek(data, from, limit, stop, other) == from + |piece|
  {
    forall i | from <= i < from + |piece|
      ensures data[i] != stop && data[i] != other
    {
      assert data[i] == piece[i - from];
    }
    SeekUnique(data, from, limit, stop, other, from + |piece|);
  }

  lemma CrOver(data: seq<Byte>, from: nat, piece: seq<Byte>)
    requires from + |piece| <= |data| && data[from..from + |piece|] == piece && CR !in piece
    requires from + |piece| < |data| ==> data[from + |piece|] == CR
    ensures FirstCr(data, from) == from + |piece|
  {
    forall i | from <= i < from + |piece|
      ensures data[i] != CR
    {
      assert data[i] == piece[i - from];
    }
    FirstCrUnique(data, from, from + |piece|);
  }

  // ---- the request line ----

  predicate LineOk(r: Printed) {
    SPACE !in r.verb && CR !in r.verb && SPACE !in r.path && QUESTION !in r.path && CR !in r.path && CR !in r.version &&
    (r.query.Some? ==> SPACE !in r.query.value && CR !in r.query.value)
  }

  lemma LineHasNoCr(r: Printed)
    requires LineOk(r)
    ensures CR !in LineText(r)
  {
    ConcatSix(r.verb, [SPACE], r.path, QueryText(r), [SPACE], r.version);
  }

  /** Pieces of a front are pieces of the whole. */
  lemma PieceOfFront(front: seq<Byte>, rest: seq<Byte>, i: nat, j: nat)
    requires i <= j <= |front|
    ensures (front + rest)[i..j] == front[i..j]
  {
  }

  lemma FirstOfPiece(data: seq<Byte>, i: nat, c: Byte)
    requires i < |data| && data[i..i + 1] == [c]
    ensures data[i] == c
  {
    assert data[i] == data[i..i + 1][0];
  }

  lemma PairAt(data: seq<Byte>, i: nat, a: Byte, b: Byte)
    requires i + 2 <= |data| && data[i..i + 2] == [a, b]
    ensures data[i] == a && data[i + 1] == b
  {
    assert data[i] == data[i..i + 2][0] && data[i + 1] == data[i..i + 2][1];
  }

  /** Where the parts of a printed request line lie. */
  lemma LinePieces(r: Printed, rest: seq<Byte>)
    ensures var data := LineText(r) + rest;
            var m, p := |r.verb|, |r.verb| + 1 + |r.path|;
            var q, end := p + |QueryText(r)|, |LineText(r)|;
            q + 1 <= end && data[..m] == r.verb && data[m] == SPACE && data[m + 1..p] == r.path &&
            data[p..q] == QueryText(r) && data[q] == SPACE && data[q + 1..end] == r.version
  {
    var line := LineText(r);
    var m, p := |r.verb|, |r.verb| + 1 + |r.path|;
    var q, end := p + |QueryText(r)|, |line|;
    ConcatSix(r.verb, [SPACE], r.path, QueryText(r), [SPACE], r.version);
    SixPieces(r.verb, [SPACE], r.path, QueryText(r), [SPACE], r.version);
    PieceOfFront(line, rest, 0, m);
    PieceOfFront(line, rest, m, m + 1);
    PieceOfFront(line, rest, m + 1, p);
    PieceOfFront(line, rest, p, q);
    PieceOfFront(line, rest, q, q + 1);
    PieceOfFront(line, rest, q + 1, end);
    FirstOfPiece(line + rest, m, SPACE);
    FirstOfPiece(line + rest, q, SPACE);
  }

  lemma QueryStarts(data: seq<Byte>, p: nat, r: Printed)
    requires var q := p + |QueryText(r)|; q < |data| && data[p..q] == QueryText(r) && data[q] == SPACE
    ensures data[p] == if r.query.Some? then QUESTION else SPACE
    ensures r.query.Some? ==> data[p + 1..p + |QueryText(r)|] == r.query.value
  {
    if r.query.Some? {
      var text := data[p..p + |QueryText(r)|];
      assert data[p] == text[0] && data[p + 1..p + |QueryText(r)|] == text[1..];
    }
  }

  /** Where the query, if there is one, ends. */
  lemma QueryCut(r: Printed, data: seq<Byte>, p: nat, end: nat)
    requires LineOk(r) && p + |QueryText(r)| < end <= |data|
    requires data[p..p + |QueryText(r)|] == QueryText(r) && data[p + |QueryText(r)|] == SPACE
    ensures data[p] == if r.query.Some? then QUESTION else SPACE
    ensures if data[p] == QUESTION then Seek(data, p + 1, end, SPACE, SPACE) == p + |QueryText(r)|
            else QueryText(r) == []
  {
    QueryStarts(data, p, r);
    if r.query.Some? {
      assert data[p + 1..p + 1 + |r.query.value|] == r.query.value;
      SeekOver(data, p + 1, r.query.value, end, SPACE, SPACE);
    }
  }

  lemma LineCuts(r: Printed, data: seq<Byte>, end: nat)
    requires LineOk(r) && end == |LineText(r)| <= |data|
    requires var m, p := |r.verb|, |r.verb| + 1 + |r.path|;
             var q := p + |QueryText(r)|;
             q + 1 <= end && data[..m] == r.verb && data[m] == SPACE && data[m + 1..p] == r.path &&
             data[p..q] == QueryText(r) && data[q] == SPACE
    ensures var p := |r.verb| + 1 + |r.path|;
            CutsOf(data, end) == Some(Cuts(|r.verb|, p, p + |QueryText(r)|)) &&
            (r.query.Some? <==> data[p] == QUESTION)
  {
    var m, p := |r.verb|, |r.verb| + 1 + |r.path|;
    QueryCut(r, data, p, end);
    assert data[0..0 + m] == r.verb;
    SeekOver(data, 0, r.verb, end, SPACE, SPACE);
    assert data[m + 1..m + 1 + |r.path|] == r.path;
    SeekOver(data, m + 1, r.path, end, QUESTION, SPACE);
    CutsByParts(data, end, m, p, p + |QueryText(r)|);
  }

  lemma CutsByParts(data: seq<Byte>, end: nat, m: nat, p: nat, q: nat)
    requires m < p <= q < end <= |data|
    requires Seek(data, 0, end, SPACE, SPACE) == m && Seek(data, m + 1, end, QUESTION, SPACE) == p
    requires if data[p] == QUESTION then Seek(data, p + 1, end, SPACE, SPACE) == q else q == p
    ensures CutsOf(data, end) == Some(Cuts(m, p, q))
  {
  }

  lemma LineAtCuts(r: Printed, data: seq<Byte>)
    requires |LineText(r)| <= |data|
    requires var m, p := |r.verb|, |r.verb| + 1 + |r.path|;
             var q, end := p + |QueryText(r)|, |LineText(r)|;
             q + 1 <= end && data[..m] == r.verb && data[m + 1..p] == r.path &&
             data[p..q] == QueryText(r) && data[q + 1..end] == r.version && (r.query.Some? <==> data[p] == QUESTION)
    ensures var p := |r.verb| + 1 + |r.path|;
            LineAt(data, |LineText(r)|, Cuts(|r.verb|, p, p + |QueryText(r)|)) == LineOf(r)
  {
    var p := |r.verb| + 1 + |r.path|;
    if r.query.Some? {
      assert data[p + 1..p + |QueryText(r)|] == data[p..p + |QueryText(r)|][1..] == r.query.value;
    }
  }

  lemma LineParses(r: Printed, rest: seq<Byte>)
    requires LineOk(r)
    ensures ParseLine(LineText(r) + rest, |LineText(r)|) == Some(LineOf(r))
  {
    var data := LineText(r) + rest;
    LinePieces(r, rest);
    LineCuts(r, data, |LineText(r)|);
    LineAtCuts(r, data);
  }

  // ---- headers ----

  lemma BodyHasNoCr(h: Header)
    requires HeaderLine(h)
    ensures HeaderBody(h) != [] && CR !in HeaderBody(h)
  {
  }

  lemma TurnByParts(data: seq<Byte>, p: nat, colon: nat, end: nat, st: HeaderState, maxBody: nat)
    requires p <= colon < end && end + 1 < |data| && data[p] != CR && data[end + 1] == LF
    requires FirstCr(data, p) == end && Seek(data, p, end, COLON, COLON) == colon
    ensures var next := Field(st, colon - p, data[ValueStart(data, colon, end)..end]);
            OneHeader(data, p, st, maxBody) ==
            if colon - p == 14 && next.len > maxBody then Done(Headers(false, p, next)) else Onward(end + 2, next)
  {
  }

  /** Where name, colon and the rest lie. */
  lemma ColonPieces(data: seq<Byte>, p: nat, name: seq<Byte>, rest: seq<Byte>)
    requires p + |name| + 1 + |rest| <= |data| && data[p..p + |name| + 1 + |rest|] == name + [COLON] + rest
    ensures data[p..p + |name|] == name && data[p + |name|] == COLON
    ensures data[p + |name| + 1..p + |name| + 1 + |rest|] == rest
  {
    var line, colon, end := name + [COLON] + rest, p + |name|, p + |name| + 1 + |rest|;
    Slices(name, [COLON], rest, []);
    assert line + [] == line;
    assert data[p..colon] == data[p..end][..|name|] && data[colon + 1..end] == data[p..end][|name| + 1..];
    assert data[colon] == data[p..end][|name|];
  }

  /** The cursor stops at the colon behind a name. */
  lemma NameEnds(data: seq<Byte>, p: nat, name: seq<Byte>, end: nat)
    requires p + |name| < end <= |data| && data[p..p + |name|] == name && data[p + |name|] == COLON
    requires COLON !in name
    ensures Seek(data, p, end, COLON, COLON) == p + |name|
  {
    SeekOver(data, p, name, end, COLON, COLON);
  }

  /** The value starts behind the one space there may be. */
  lemma ValueFound(data: seq<Byte>, colon: nat, end: nat, h: Header)
    requires HeaderLine(h) && h.Header? && colon < end <= |data| && data[colon + 1..end] == ValueText(h)
    ensures data[ValueStart(data, colon, end)..end] == h.value
  {
    var rest := data[colon + 1..end];
    if rest != [] {
      assert data[colon + 1] == rest[0];
    }
    if h.spaced {
      assert rest[1..] == h.value && data[colon + 2..end] == rest[1..];
    } else {
      assert rest == h.value;
    }
  }

  lemma TurnWithColon(data: seq<Byte>, p: nat, end: nat, h: Header, st: HeaderState, maxBody: nat)
    requires HeaderLine(h) && h.Header? && p <= end && end + 1 < |data| && data[p..end] == HeaderBody(h)
    requires FirstCr(data, p) == end && data[p] != CR && data[end + 1] == LF
    ensures OneHeader(data, p, st, maxBody) ==
            if TooLong(h, maxBody) then Done(Headers(false, p, Apply(st, h))) else Onward(end + 2, Apply(st, h))
  {
    var colon := p + |h.name|;
    assert end == colon + 1 + |ValueText(h)|;
    ColonPieces(data, p, h.name, ValueText(h));
    NameEnds(data, p, h.name, end);
    ValueFound(data, colon, end, h);
    TurnByParts(data, p, colon, end, st, maxBody);
  }

  lemma TurnWithoutColon(data: seq<Byte>, p: nat, end: nat, text: seq<Byte>, st: HeaderState, maxBody: nat)
    requires COLON !in text && p <= end && end + 1 < |data| && data[p..end] == text
    requires FirstCr(data, p) == end && data[p] != CR && data[end + 1] == LF
    ensures OneHeader(data, p, st, maxBody) == Onward(end + 2, st)
  {
    forall i | p <= i < end
      ensures data[i] != COLON
    {
      assert data[i] == text[i - p];
    }
    SeekUnique(data, p, end, COLON, COLON, end);
  }

  /** A header line found at `p`. */
  lemma HeaderAt(data: seq<Byte>, p: nat, end: nat, h: Header, st: HeaderState, maxBody: nat)
    requires HeaderLine(h) && p <= end && end + 1 < |data| && data[p..end] == HeaderBody(h)
    requires FirstCr(data, p) == end && data[end + 1] == LF
    ensures OneHeader(data, p, st, maxBody) ==
            if TooLong(h, maxBody) then Done(Headers(false, p, Apply(st, h))) else Onward(end + 2, Apply(st, h))
  {
    BodyHasNoCr(h);
    assert data[p] == data[p..end][0] == HeaderBody(h)[0];
    match h
    case Header(_, _, _) => TurnWithColon(data, p, end, h, st, maxBody);
    case NoColon(text) => TurnWithoutColon(data, p, end, text, st, maxBody);
  }

  /** One printed header line is taken as it was printed, or ends the request if it gives too long a length. */
  lemma HeaderParses(pre: seq<Byte>, h: Header, post: seq<Byte>, st: HeaderState, maxBody: nat)
    requires HeaderLine(h)
    ensures OneHeader(pre + HeaderText(h) + post, |pre|, st, maxBody) ==
            if TooLong(h, maxBody) then Done(Headers(false, |pre|, Apply(st, h)))
            else Onward(|pre + HeaderText(h)|, Apply(st, h))
  {
    var data, body := pre + HeaderText(h) + post, HeaderBody(h);
    var end := |pre| + |body|;
    Slices(pre, body, CRLF, post);
    Assoc(pre, body, CRLF);
    PairAt(data, end, CR, LF);
    BodyHasNoCr(h);
    CrOver(data, |pre|, body);
    HeaderAt(data, |pre|, end, h, st, maxBody);
  }

  lemma HeadersCons(pre: seq<Byte>, hs: seq<Header>, post: seq<Byte>)
    requires hs != []
    ensures pre + HeadersText(hs) + post == pre + HeaderText(hs[0]) + (HeadersText(hs[1..]) + post)
    ensures pre + HeadersText(hs) + post == (pre + HeaderText(hs[0])) + HeadersText(hs[1..]) + post
  {
    Assoc(pre, HeaderText(hs[0]), HeadersText(hs[1..]));
    Assoc(pre + HeaderText(hs[0]), HeadersText(hs[1..]), post);
  }

  lemma {:induction false} HeadersParse(
    pre: seq<Byte>, hs: seq<Header>, post: seq<Byte>, st: HeaderState, maxBody: nat)
    requires forall h :: h in hs ==> Within(h, maxBody)
    requires |post| >= 2 && post[0] == CR && post[1] == LF
    ensures ParseHeaders(pre + HeadersText(hs) + post, |pre|, st, maxBody) ==
            Headers(true, |pre| + |HeadersText(hs)| + 2, Folded(st, hs))
    decreases |hs|
  {
    if hs == [] {
      var data := pre + HeadersText(hs) + post;
      assert data == pre + post && data[|pre|] == post[0] && data[|pre| + 1] == post[1];
    } else {
      assert Within(hs[0], maxBody);
      HeadersCons(pre, hs, post);
      HeaderParses(pre, hs[0], HeadersText(hs[1..]) + post, st, maxBody);
      HeadersParse(pre + HeaderText(hs[0]), hs[1..], post, Apply(st, hs[0]), maxBody);
    }
  }

  /** The loop at a printed header that gives too long a length. */
  lemma StopsHere(pre: seq<Byte>, h: Header, post: seq<Byte>, st: HeaderState, maxBody: nat)
    requires HeaderLine(h) && TooLong(h, maxBody)
    ensures !ParseHeaders(pre + HeaderText(h) + post, |pre|, st, maxBody).ok
  {
    HeaderParses(pre, h, post, st, maxBody);
  }

  /** And at one that does not. */
  lemma GoesOn(pre: seq<Byte>, h: Header, post: seq<Byte>, st: HeaderState, maxBody: nat)
    requires HeaderLine(h) && !TooLong(h, maxBody)
    ensures ParseHeaders(pre + HeaderText(h) + post, |pre|, st, maxBody) ==
            ParseHeaders(pre + HeaderText(h) + post, |pre + HeaderText(h)|, Apply(st, h), maxBody)
  {
    HeaderParses(pre, h, post, st, maxBody);
  }

  lemma {:induction false} TooLongStops(
    pre: seq<Byte>, hs: seq<Header>, post: seq<Byte>, st: HeaderState, maxBody: nat, k: nat, long: Header)
    requires forall h :: h in hs ==> HeaderLine(h)
    requires k < |hs| && hs[k] == long && TooLong(long, maxBody)
    ensures !ParseHeaders(pre + HeadersText(hs) + post, |pre|, st, maxBody).ok
    decreases k
  {
    var h, rest := hs[0], hs[1..];
    assert HeaderLine(h);
    HeadersCons(pre, hs, post);
    if k == 0 {
      StopsHere(pre, long, HeadersText(rest) + post, st, maxBody);
    } else if TooLong(h, maxBody) {
      StopsHere(pre, h, HeadersText(rest) + post, st, maxBody);
    } else {
      GoesOn(pre, h, HeadersText(rest) + post, st, maxBody);
      assert rest[k - 1] == long;
      TooLongStops(pre + HeaderText(h), rest, post, Apply(st, h), maxBody, k - 1, long);
    }
  }

  lemma {:induction false} FoldedAppend(st: HeaderState, a: seq<Header>, b: seq<Header>)
    ensures Folded(st, a + b) == Folded(Folded(st, a), b)
    decreases |a|
  {
    if a == [] {
      assert a + b == b;
    } else {
      assert (a + b)[0] == a[0] && (a + b)[1..] == a[1..] + b;
      FoldedAppend(Apply(st, a[0]), a[1..], b);
    }
  }

  /** The body length a header state stands for. */
  function InForce(st: HeaderState): nat {
    if st.hasLen then st.len else 0
  }

  /** The length the fold comes to is the one the last length header gives. */
  lemma {:induction false} FoldedLength(hs: seq<Header>)
    ensures LengthGiven(hs) == InForce(Folded(NO_HEADERS, hs))
    decreases |hs|
  {
    if hs != [] {
      var front, last := hs[..|hs| - 1], hs[|hs| - 1];
      FoldedLength(front);
      FoldedAppend(NO_HEADERS, front, [last]);
      assert front + [last] == hs && [last][1..] == [];
    }
  }

  /** A ten-character name, and c-l-o-s-e in either case. */
  predicate SaysClose(h: Header) {
    Named(h, 10) && |h.value| == 5 &&
    h.value[0] in {67, 99} && h.value[1] in {76, 108} && h.value[2] in {79, 111} && h.value[3] in {83, 115} &&
    h.value[4] in {69, 101}
  }

  /** K-e-e-p, a hyphen (or a CR, which no header line holds), and a-l-i-v-e, in either case. */
  predicate SaysKeepAlive(h: Header) {
    Named(h, 10) && |h.value| == 10 &&
    h.value[0] in {75, 107} && h.value[1] in {69, 101} && h.value[2] in {69, 101} && h.value[3] in {80, 112} &&
    h.value[4] in {13, 45} && h.value[5] in {65, 97} && h.value[6] in {76, 108} && h.value[7] in {73, 105} &&
    h.value[8] in {86, 118} && h.value[9] in {69, 101}
  }

  lemma SaysCloseExactly(h: Header)
    ensures SaysClose(h) <==> Named(h, 10) && EqualsIgnoringCase(h.value, CLOSE)
  {
  }

  lemma SaysKeepAliveExactly(h: Header)
    ensures SaysKeepAlive(h) <==> Named(h, 10) && EqualsIgnoringCase(h.value, KEEP_ALIVE)
  {
  }

  /** Header `k` asks for a close, and nothing behind it takes that back. */
  predicate LastWordIsClose(hs: seq<Header>, k: nat) {
    k < |hs| && SaysClose(hs[k]) && forall i :: k < i < |hs| ==> !SaysKeepAlive(hs[i])
  }

  predicate SomeKeepAlive(hs: seq<Header>) {
    exists i :: 0 <= i < |hs| && SaysKeepAlive(hs[i])
  }

  predicate Closing(hs: seq<Header>) {
    exists k :: 0 <= k < |hs| && LastWordIsClose(hs, k)
  }

  lemma ClosingCons(hs: seq<Header>)
    requires hs != []
    ensures SomeKeepAlive(hs) <==> SaysKeepAlive(hs[0]) || SomeKeepAlive(hs[1..])
    ensures Closing(hs) <==> Closing(hs[1..]) || (SaysClose(hs[0]) && !SomeKeepAlive(hs[1..]))
  {
    var rest := hs[1..];
    assert forall i :: 0 <= i < |rest| ==> rest[i] == hs[i + 1];
    assert forall i :: 1 <= i < |hs| ==> hs[i] == rest[i - 1];
    forall k: nat | LastWordIsClose(rest, k)
      ensures LastWordIsClose(hs, k + 1)
    {
    }
    forall k: nat | LastWordIsClose(hs, k)
      ensures Closing(rest) || (SaysClose(hs[0]) && !SomeKeepAlive(rest))
    {
      assert k > 0 ==> LastWordIsClose(rest, k - 1);
    }
    assert SaysClose(hs[0]) && !SomeKeepAlive(rest) ==> LastWordIsClose(hs, 0);
  }

  lemma ApplyKeepAlive(st: HeaderState, h: Header)
    ensures Apply(st, h).keepAlive <==> SaysKeepAlive(h) || (st.keepAlive && !SaysClose(h))
  {
    SaysCloseExactly(h);
    SaysKeepAliveExactly(h);
  }

  lemma {:induction false} FoldedKeepAlive(st: HeaderState, hs: seq<Header>)
    ensures !Folded(st, hs).keepAlive <==> Closing(hs) || (!st.keepAlive && !SomeKeepAlive(hs))
    decreases |hs|
  {
    if hs != [] {
      ApplyKeepAlive(st, hs[0]);
      FoldedKeepAlive(Apply(st, hs[0]), hs[1..]);
      ClosingCons(hs);
    }
  }

  /**
   * A request is not kept alive exactly when some ten-character header says close
   * and no later one says keep-alive.
   */
  lemma KeepAliveExactly(r: Printed)
    ensures Seen(r).keepAlive == Some(!Closing(r.headers))
  {
    FoldedKeepAlive(NO_HEADERS, r.headers);
  }

  // ---- one request, many requests ----

  /** Where the parts of a printed request lie. */
  lemma RequestPieces(r: Printed, tail: seq<Byte>)
    ensures var data := Print(r) + tail;
            var line, hs := LineText(r), HeadersText(r.headers);
            var bodyAt := |line| + 2 + |hs| + 2;
            |Print(r)| == bodyAt + |r.body| && |data| == bodyAt + |r.body| + |tail| &&
            data[..|line|] == line && data[|line|] == CR && data[|line| + 1] == LF &&
            data[bodyAt..bodyAt + |r.body|] == r.body &&
            data == line + data[|line|..] && data == (line + CRLF) + hs + (CRLF + r.body + tail)
  {
    var line, hs := LineText(r), HeadersText(r.headers);
    ConcatFive(line, CRLF, hs, CRLF, r.body);
    SixPieces(line, CRLF, hs, CRLF, r.body, tail);
    var data := Print(r) + tail;
    PairAt(data, |line|, CR, LF);
    Assoc(line + CRLF + hs, CRLF, r.body);
    Assoc(line + CRLF + hs, CRLF + r.body, tail);
  }

  lemma PrintedLine(r: Printed, tail: seq<Byte>)
    requires LineOk(r)
    ensures var data := Print(r) + tail;
            var end := |LineText(r)|;
            FirstCr(data, 0) == end && end + 1 < |data| && data[end + 1] == LF &&
            ParseLine(data, end) == Some(LineOf(r))
  {
    var line, data := LineText(r), Print(r) + tail;
    RequestPieces(r, tail);
    LineHasNoCr(r);
    assert data[0..0 + |line|] == line;
    CrOver(data, 0, line);
    LineParses(r, data[|line|..]);
  }

  lemma RestByParts(data: seq<Byte>, at: nat, line: RequestLine, h: Headers, n: nat, maxBody: nat)
    requires at <= |data| && ParseHeaders(data, at, NO_HEADERS, maxBody) == h && h.ok
    requires h.at + InForce(h.st) == n <= |data|
    ensures AfterLine(data, at, line, maxBody) ==
            Parsed(true, n, Some(line), Some(h.st.keepAlive), if h.at < n then Some(data[h.at..n]) else None)
  {
  }

  /** Headers that ask for more than there is. */
  lemma RestAwaited(data: seq<Byte>, at: nat, line: RequestLine, h: Headers, maxBody: nat)
    requires at <= |data| && ParseHeaders(data, at, NO_HEADERS, maxBody) == h && h.ok && |data| < h.at + InForce(h.st)
    ensures AfterLine(data, at, line, maxBody) == Parsed(false, 0, Some(line), Some(h.st.keepAlive), None)
  {
  }

  lemma LineIsRead(data: seq<Byte>, end: nat, line: RequestLine, maxBody: nat)
    requires |data| >= MIN_REQUEST_SIZE && FirstCr(data, 0) == end && end + 1 < |data| && data[end + 1] == LF
    requires ParseLine(data, end) == Some(line)
    ensures Parse(data, maxBody) == AfterLine(data, end + 2, line, maxBody)
  {
    assert FrontOf(data) == FrontTo(data, end) == Line(end + 2, line);
  }

  /** A request whose line, headers and body are where they are. */
  lemma ParseByParts(data: seq<Byte>, end: nat, at: nat, line: RequestLine, h: Headers, n: nat, maxBody: nat)
    requires |data| >= MIN_REQUEST_SIZE && FirstCr(data, 0) == end && end + 1 < |data| && data[end + 1] == LF
    requires ParseLine(data, end) == Some(line)
    requires at == end + 2 && ParseHeaders(data, at, NO_HEADERS, maxBody) == h && h.ok
    requires h.at + InForce(h.st) == n <= |data|
    ensures Parse(data, maxBody) ==
            Parsed(true, n, Some(line), Some(h.st.keepAlive), if h.at < n then Some(data[h.at..n]) else None)
  {
    LineIsRead(data, end, line, maxBody);
    RestByParts(data, at, line, h, n, maxBody);
  }

  lemma PrintedHeaders(r: Printed, tail: seq<Byte>, maxBody: nat)
    requires forall h :: h in r.headers ==> Within(h, maxBody)
    ensures |LineText(r)| + 2 <= |Print(r) + tail|
    ensures ParseHeaders(Print(r) + tail, |LineText(r)| + 2, NO_HEADERS, maxBody) ==
            Headers(true, |LineText(r)| + 2 + |HeadersText(r.headers)| + 2, Folded(NO_HEADERS, r.headers))
  {
    var pre, post := LineText(r) + CRLF, CRLF + r.body + tail;
    RequestPieces(r, tail);
    assert post[0] == CR && post[1] == LF;
    HeadersParse(pre, r.headers, post, NO_HEADERS, maxBody);
    assert |pre| == |LineText(r)| + 2;
  }

  lemma BodyLies(r: Printed, tail: seq<Byte>, at: nat)
    requires at == |LineText(r)| + 2 + |HeadersText(r.headers)| + 2
    ensures |Print(r)| == at + |r.body| && (Print(r) + tail)[at..at + |r.body|] == r.body
  {
    RequestPieces(r, tail);
  }

  /** A printed request, whatever follows it, is parsed back and exactly consumed. */
  lemma RequestRoundTrip(r: Printed, tail: seq<Byte>, maxBody: nat)
    requires Sound(r, maxBody) && |Print(r) + tail| >= 16
    ensures Parse(Print(r) + tail, maxBody) == Seen(r)
  {
    var data, end := Print(r) + tail, |LineText(r)|;
    var h := Headers(true, end + 2 + |HeadersText(r.headers)| + 2, Folded(NO_HEADERS, r.headers));
    BodyLies(r, tail, h.at);
    PrintedLine(r, tail);
    PrintedHeaders(r, tail, maxBody);
    FoldedLength(r.headers);
    ParseByParts(data, end, end + 2, LineOf(r), h, h.at + |r.body|, maxBody);
  }

  /** With one ten-character header, that one decides: the connection is kept unless it spells close. */
  lemma OneWordHeard(r: Printed, tail: seq<Byte>, maxBody: nat, k: nat)
    requires Sound(r, maxBody) && |Print(r) + tail| >= 16 && k < |r.headers|
    requires forall j :: 0 <= j < |r.headers| && j != k ==> !Named(r.headers[j], 10)
    ensures Parse(Print(r) + tail, maxBody).keepAlive == Some(!SaysClose(r.headers[k]))
  {
    RequestRoundTrip(r, tail, maxBody);
    KeepAliveExactly(r);
    assert SaysClose(r.headers[k]) ==> LastWordIsClose(r.headers, k);
  }

  /** A keep-alive behind any number of closes takes them back. */
  lemma KeepAliveTakesBack(r: Printed, tail: seq<Byte>, maxBody: nat, k: nat)
    requires Sound(r, maxBody) && |Print(r) + tail| >= 16 && k < |r.headers| && SaysKeepAlive(r.headers[k])
    requires forall j :: k < j < |r.headers| ==> !SaysClose(r.headers[j])
    ensures Parse(Print(r) + tail, maxBody).keepAlive == Some(true)
  {
    RequestRoundTrip(r, tail, maxBody);
    KeepAliveExactly(r);
  }

  /** A request whose body has not all arrived is not taken, but its line and keep-alive are stored. */
  lemma BodyAwaited(r: Printed, maxBody: nat)
    requires LineOk(r) && (forall h :: h in r.headers ==> Within(h, maxBody))
    requires |Print(r)| >= 16 && |r.body| < LengthGiven(r.headers)
    ensures Parse(Print(r), maxBody) == Parsed(false, 0, Some(LineOf(r)), Some(!Closing(r.headers)), None)
  {
    var data, end, at := Print(r), |LineText(r)|, |LineText(r)| + 2 + |HeadersText(r.headers)| + 2;
    assert data + [] == data;
    BodyLies(r, [], at);
    PrintedLine(r, []);
    PrintedHeaders(r, [], maxBody);
    FoldedLength(r.headers);
    KeepAliveExactly(r);
    RestAwaited(data, end + 2, LineOf(r), Headers(true, at, Folded(NO_HEADERS, r.headers)), maxBody);
    LineIsRead(data, end, LineOf(r), maxBody);
  }

  lemma PrintedTooLong(r: Printed, tail: seq<Byte>, maxBody: nat, k: nat)
    requires forall h :: h in r.headers ==> HeaderLine(h)
    requires k < |r.headers| && TooLong(r.headers[k], maxBody)
    ensures |LineText(r)| + 2 <= |Print(r) + tail|
    ensures !ParseHeaders(Print(r) + tail, |LineText(r)| + 2, NO_HEADERS, maxBody).ok
  {
    RequestPieces(r, tail);
    TooLongStops(LineText(r) + CRLF, r.headers, CRLF + r.body + tail, NO_HEADERS, maxBody, k, r.headers[k]);
  }

  /** A length read as above the limit anywhere in the headers refuses the request, whatever its body. */
  lemma TooLongRefused(r: Printed, tail: seq<Byte>, maxBody: nat, k: nat)
    requires LineOk(r) && |Print(r)| >= 16
    requires forall h :: h in r.headers ==> HeaderLine(h)
    requires k < |r.headers| && TooLong(r.headers[k], maxBody)
    ensures var p := Parse(Print(r) + tail, maxBody);
            !p.ok && p.line == Some(LineOf(r)) && p.body == None
  {
    PrintedLine(r, tail);
    LineIsRead(Print(r) + tail, |LineText(r)|, LineOf(r), maxBody);
    PrintedTooLong(r, tail, maxBody, k);
  }

  /** What the handlers are shown for a list of requests. */
  function Shown(s: Stored, rs: seq<Printed>): seq<Stored>
    decreases |rs|
  {
    if rs == [] then [] else [Store(s, Seen(rs[0]))] + Shown(Store(s, Seen(rs[0])), rs[1..])
  }

  /** Each is shown its own line, keep-alive and body; with an empty body, the one shown before it. */
  lemma {:induction false} ShownExactly(s: Stored, rs: seq<Printed>, i: nat)
    requires i < |rs|
    ensures |Shown(s, rs)| == |rs|
    ensures var now, r := Shown(s, rs)[i], rs[i];
            now.line == LineOf(r) && now.keepAlive == !Closing(r.headers) &&
            now.body == if r.body != [] then r.body else if i == 0 then s.body else Shown(s, rs)[i - 1].body
    decreases i
  {
    var s1 := Store(s, Seen(rs[0]));
    ShownLength(s1, rs[1..]);
    if i == 0 {
      KeepAliveExactly(rs[0]);
    } else {
      ShownExactly(s1, rs[1..], i - 1);
      assert rs[1..][i - 1] == rs[i] && Shown(s, rs)[i] == Shown(s1, rs[1..])[i - 1];
    }
  }

  lemma {:induction false} ShownLength(s: Stored, rs: seq<Printed>)
    ensures |Shown(s, rs)| == |rs|
    decreases |rs|
  {
    if rs != [] {
      ShownLength(Store(s, Seen(rs[0])), rs[1..]);
    }
  }

  function Last(s: Stored, shown: seq<Stored>): Stored {
    if shown == [] then s else shown[|shown| - 1]
  }

  lemma FirstOfMany(r: Printed, rest: seq<Byte>, maxBody: nat)
    requires WellFormed(r, maxBody)
    ensures Parse(Print(r) + rest, maxBody) == Seen(r) && (Print(r) + rest)[|Print(r)|..] == rest
  {
    RequestRoundTrip(r, rest, maxBody);
  }

  /** Pipelining: the drain loop hands over every printed request, in order, and leaves what follows them. */
  lemma {:induction false} Pipelining(rs: seq<Printed>, tail: seq<Byte>, s: Stored, maxBody: nat)
    requires forall r :: r in rs ==> WellFormed(r, maxBody)
    ensures Requests(PrintAll(rs) + tail, s, maxBody) == Shown(s, rs) + Requests(tail, Last(s, Shown(s, rs)), maxBody)
    ensures Remainder(PrintAll(rs) + tail, maxBody) == Remainder(tail, maxBody)
    decreases |rs|
  {
    if rs == [] {
      assert PrintAll(rs) + tail == tail;
    } else {
      var first, rest := Print(rs[0]), PrintAll(rs[1..]) + tail;
      var s1 := Store(s, Seen(rs[0]));
      Assoc(first, PrintAll(rs[1..]), tail);
      FirstOfMany(rs[0], rest, maxBody);
      Pipelining(rs[1..], tail, s1, maxBody);
      Assoc([s1], Shown(s1, rs[1..]), Requests(tail, Last(s1, Shown(s1, rs[1..])), maxBody));
    }
  }

  lemma {:induction false} DrainEnds(rs: seq<Printed>, tail: seq<Byte>, s: Stored, maxBody: nat)
    requires forall r :: r in rs ==> WellFormed(r, maxBody)
    ensures AfterDrain(PrintAll(rs) + tail, s, maxBody) == AfterDrain(tail, Last(s, Shown(s, rs)), maxBody)
    decreases |rs|
  {
    if rs == [] {
      assert PrintAll(rs) + tail == tail;
    } else {
      var first, rest := Print(rs[0]), PrintAll(rs[1..]) + tail;
      Assoc(first, PrintAll(rs[1..]), tail);
      FirstOfMany(rs[0], rest, maxBody);
      DrainEnds(rs[1..], tail, Store(s, Seen(rs[0])), maxBody);
    }
  }

  lemma FailureStores(tail: seq<Byte>, s: Stored, maxBody: nat)
    requires !Parse(tail, maxBody).ok
    ensures AfterDrain(tail, s, maxBody).keepAlive ==
            match FrontOf(tail)
            case NoLine => s.keepAlive
            case Line(at, _) => RestOf(tail, at, maxBody).keepAlive
  {
  }

  /**
   * Whether the connection is kept after the drain: what the last request taken asked
   * for, unless a later one has begun. As soon as that one's line is there, what the
   * last one asked for is forgotten.
   */
  lemma KeptAfterDrain(rs: seq<Printed>, tail: seq<Byte>, s: Stored, maxBody: nat)
    requires rs != [] && (forall r :: r in rs ==> WellFormed(r, maxBody)) && !Parse(tail, maxBody).ok
    ensures AfterDrain(PrintAll(rs) + tail, s, maxBody).keepAlive ==
            match FrontOf(tail)
            case NoLine => !Closing(rs[|rs| - 1].headers)
            case Line(at, _) => RestOf(tail, at, maxBody).keepAlive
  {
    var last := Last(s, Shown(s, rs));
    DrainEnds(rs, tail, s, maxBody);
    ShownExactly(s, rs, |rs| - 1);
    FailureStores(tail, last, maxBody);
  }

  /** A request line and one byte more. */
  function JustBegun(r: Printed, c: Byte): seq<Byte> {
    LineText(r) + CRLF + [c]
  }

  lemma BegunIsStored(r: Printed, c: Byte, maxBody: nat)
    requires LineOk(r) && |LineText(r)| >= 13 && c != 13
    ensures Parse(JustBegun(r, c), maxBody) == Parsed(false, 0, Some(LineOf(r)), Some(true), None)
  {
    var data, end := JustBegun(r, c), |LineText(r)|;
    BegunLine(r, c);
    assert data[end + 2] == c;
    FirstCrUnique(data, end + 2, |data|);
    assert OneHeader(data, end + 2, NO_HEADERS, maxBody) == Done(Headers(false, end + 2, NO_HEADERS));
    LineIsRead(data, end, LineOf(r), maxBody);
  }

  lemma BegunLine(r: Printed, c: Byte)
    requires LineOk(r)
    ensures var data, end := JustBegun(r, c), |LineText(r)|;
            FirstCr(data, 0) == end && |data| == end + 3 && data[end + 1] == LF &&
            ParseLine(data, end) == Some(LineOf(r))
  {
    var line, data := LineText(r), JustBegun(r, c);
    LineHasNoCr(r);
    assert data[..|line|] == line && data[0..0 + |line|] == line && data[|line|] == CR;
    CrOver(data, 0, line);
    Assoc(line, CRLF, [c]);
    LineParses(r, CRLF + [c]);
  }

  /** A request and something behind it that is none. */
  lemma OneDrained(r: Printed, tail: seq<Byte>, s: Stored, maxBody: nat)
    requires WellFormed(r, maxBody) && !Parse(tail, maxBody).ok
    ensures AfterDrain(Print(r) + tail, s, maxBody) == Store(Store(s, Seen(r)), Parse(tail, maxBody))
  {
    FirstOfMany(r, tail, maxBody);
  }

  /** Alone in the buffer, a request decides for itself. */
  lemma CloseHeeded(r: Printed, s: Stored, maxBody: nat)
    requires WellFormed(r, maxBody)
    ensures AfterDrain(Print(r), s, maxBody).keepAlive <==> !Closing(r.headers)
  {
    assert Print(r) + [] == Print(r);
    OneDrained(r, [], s, maxBody);
    KeepAliveExactly(r);
  }

  lemma LaterKeeps(r: Printed, tail: seq<Byte>, s: Stored, maxBody: nat)
    requires WellFormed(r, maxBody) && !Parse(tail, maxBody).ok && Parse(tail, maxBody).keepAlive == Some(true)
    ensures AfterDrain(Print(r) + tail, s, maxBody).keepAlive
  {
    OneDrained(r, tail, s, maxBody);
  }

  /** With the next one just begun behind it, the connection is kept, even if the request asked for a close. */
  lemma CloseForgotten(r: Printed, next: Printed, c: Byte, s: Stored, maxBody: nat)
    requires WellFormed(r, maxBody) && LineOk(next) && |LineText(next)| >= 13 && c != 13
    ensures AfterDrain(Print(r) + JustBegun(next, c), s, maxBody).keepAlive
  {
    BegunIsStored(next, c, maxBody);
    LaterKeeps(r, JustBegun(next, c), s, maxBody);
  }

  // ---- printed lengths ----

  /** What a length printed in decimal is taken for: its value modulo 2^64, before the limit is looked at. */
  lemma ContentLengthHeader(h: Header, n: nat, maxBody: nat)
    requires NamesLength(h) && h.value == Digits(n)
    ensures LengthGiven([h]) == n % TWO_64 && (TooLong(h, maxBody) <==> n % TWO_64 > maxBody)
  {
    AtoiIsValue(Digits(n), []);
    ValueOfDigits(n);
    assert Digits(n) + [] == Digits(n);
  }

  /** Every length header of a request prints `n`, and there is one. */
  predicate GivesLength(hs: seq<Header>, n: nat) {
    (forall h :: h in hs ==> HeaderLine(h) && (NamesLength(h) ==> h.value == Digits(n))) && SomeNamesLength(hs)
  }

  lemma {:induction false} LengthIsGiven(hs: seq<Header>, n: nat)
    requires GivesLength(hs, n)
    ensures LengthGiven(hs) == n % TWO_64
    decreases |hs|
  {
    var front, last := hs[..|hs| - 1], hs[|hs| - 1];
    assert last in hs;
    if NamesLength(last) {
      ContentLengthHeader(last, n, 0);
    } else {
      assert forall h :: h in hs <==> h in front || h == last;
      LengthIsGiven(front, n);
    }
  }

  /** A request that prints its length is taken exactly when that length modulo 2^64 is within the limit. */
  lemma LengthLimitExactly(r: Printed, n: nat, tail: seq<Byte>, maxBody: nat)
    requires LineOk(r) && |Print(r)| >= 16 && GivesLength(r.headers, n) && |r.body| == n % TWO_64
    ensures Parse(Print(r) + tail, maxBody).ok <==> n % TWO_64 <= maxBody
    ensures n % TWO_64 <= maxBody ==> Parse(Print(r) + tail, maxBody) == Seen(r)
  {
    forall h | h in r.headers && NamesLength(h)
      ensures TooLong(h, maxBody) <==> n % TWO_64 > maxBody
    {
      ContentLengthHeader(h, n, maxBody);
    }
    LengthIsGiven(r.headers, n);
    if n % TWO_64 <= maxBody {
      RequestRoundTrip(r, tail, maxBody);
    } else {
      var k :| 0 <= k < |r.headers| && NamesLength(r.headers[k]);
      TooLongRefused(r, tail, maxBody, k);
    }
  }

  /** "Content-Length" */
  const CONTENT_LENGTH: seq<Byte> := [67, 111, 110, 116, 101, 110, 116, 45, 76, 101, 110, 103, 116, 104]

  /** "POST / HTTP/1.1" with a length 2^64 too long. */
  function Overstated(body: seq<Byte>): Printed {
    Printed(NameOf(POST), [47], None, [72, 84, 84, 80, 47, 49, 46, 49],
            [Header(CONTENT_LENGTH, true, Digits(TWO_64 + |body|))], body)
  }

  lemma OneLengthHeader(h: Header, n: nat)
    requires NamesLength(h) && h.spaced && h.value == Digits(n) && COLON !in h.name && CR !in h.name
    ensures GivesLength([h], n)
  {
    DigitsAreDigits(n);
    assert h in [h];
  }

  lemma OverstatedShape(body: seq<Byte>)
    ensures LineOk(Overstated(body)) && |LineText(Overstated(body))| == 15 &&
            GivesLength(Overstated(body).headers, TWO_64 + |body|)
  {
    var r := Overstated(body);
    LineLength(r);
    OneLengthHeader(Header(CONTENT_LENGTH, true, Digits(TWO_64 + |body|)), TWO_64 + |body|);
  }

  /** It is accepted, though the length it prints is above every 64-bit limit. */
  lemma OverstatedIsTaken(body: seq<Byte>, tail: seq<Byte>, maxBody: nat)
    requires |body| <= maxBody < TWO_64
    ensures TWO_64 + |body| > maxBody && GivesLength(Overstated(body).headers, TWO_64 + |body|)
    ensures Parse(Print(Overstated(body)) + tail, maxBody) == Seen(Overstated(body))
  {
    var r := Overstated(body);
    RequestPieces(r, tail);
    OverstatedShape(body);
    assert (TWO_64 + |body|) % TWO_64 == |body|;
    LengthLimitExactly(r, TWO_64 + |body|, tail, maxBody);
  }

  lemma LineLength(r: Printed)
    ensures |LineText(r)| == |r.verb| + |r.path| + |QueryText(r)| + |r.version| + 2
  {
    ConcatSix(r.verb, [SPACE], r.path, QueryText(r), [SPACE], r.version);
  }

  lemma DigitsAreDigits(n: nat)
    ensures CR !in Digits(n)
  {
  }
}
