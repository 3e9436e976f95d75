/**
 * Requests of which only a part has arrived. The header loop takes the end of the
 * buffer for the end of the headers, so some incomplete requests are accepted;
 * this module says exactly which.
 */
module HttpCutShort {
  import opened Bytes
  import opened Scan
  import opened Decimal
  import opened Http
  import opened HttpRuns

  /** How many whole header lines make up the first `n` bytes of the printed headers, if a number of them does. */
  function LinesIn(hs: seq<Header>, n: nat): (j: Option<nat>)
    ensures j.Some? ==> j.value <= |hs|
    decreases |hs|
  {
    if n == 0 then Some(0)
    else if hs == [] || n < |HeaderText(hs[0])| then None
    else
      match LinesIn(hs[1..], n - |HeaderText(hs[0])|)
      case None => None
      case Some(j) => Some(j + 1)
  }

  /** The lines counted are the lines there. */
  lemma {:induction false} LinesInExactly(hs: seq<Header>, n: nat, j: nat)
    requires j <= |hs|
    ensures LinesIn(hs, n) == Some(j) <==> |HeadersText(hs[..j])| == n
    decreases |hs|
  {
    if j == 0 {
      assert hs[..0] == [];
    } else {
      assert hs[..j][0] == hs[0] && hs[..j][1..] == hs[1..][..j - 1];
      if n >= |HeaderText(hs[0])| {
        LinesInExactly(hs[1..], n - |HeaderText(hs[0])|, j - 1);
      }
    }
  }

  // ---- lines cut short ----

  /** A line whose CR LF is not all there stops the loop. */
  lemma CutLineFails(data: seq<Byte>, p: nat, text: seq<Byte>, st: HeaderState, maxBody: nat)
    requires p < |data| && CR !in text && text != []
    requires |data| - p <= |text| + 1
    requires forall i :: p <= i < |data| && i - p < |text| ==> data[i] == text[i - p]
    requires |data| - p == |text| + 1 ==> data[p + |text|] == CR
    ensures FirstCr(data, p) + 1 >= |data|
    ensures !ParseHeaders(data, p, st, maxBody).ok
  {
    assert data[p] == text[0] && text[0] in text;
    FirstCrUnique(data, p, if |data| - p <= |text| then |data| else p + |text|);
  }

  lemma HeaderCutFails(pre: seq<Byte>, h: Header, post: seq<Byte>, k: nat, st: HeaderState, maxBody: nat)
    requires HeaderLine(h) && |pre| < k < |pre| + |HeaderText(h)|
    ensures !ParseHeaders((pre + HeaderText(h) + post)[..k], |pre|, st, maxBody).ok
  {
    var text := HeaderBody(h);
    BodyHasNoCr(h);
    var full := pre + HeaderText(h) + post;
    var data := full[..k];
    assert full == pre + text + (CRLF + post);
    assert forall i :: |pre| <= i < |pre| + |text| ==> full[i] == text[i - |pre|];
    CutLineFails(data, |pre|, text, st, maxBody);
  }

  lemma BlankCut(pre: seq<Byte>, post: seq<Byte>, k: nat, st: HeaderState, maxBody: nat)
    requires |post| >= 2 && post[0] == CR && post[1] == LF && |pre| < k <= |pre| + |post|
    ensures var h := ParseHeaders((pre + post)[..k], |pre|, st, maxBody);
            if k == |pre| + 1 then !h.ok else h == Headers(true, |pre| + 2, st)
  {
    var data := (pre + post)[..k];
    assert data[|pre|] == CR;
    if k > |pre| + 1 {
      assert data[|pre| + 1] == LF;
    } else {
      FirstCrUnique(data, |pre|, |pre|);
    }
  }

  /** What the header loop makes of printed headers of which `k - |pre|` bytes have arrived. */
  function HeadersSeen(pre: seq<Byte>, hs: seq<Header>, k: nat, st: HeaderState): Option<Headers>
    requires |pre| <= k
  {
    var n := k - |pre|;
    if n >= |HeadersText(hs)| + 2 then Some(Headers(true, |pre| + |HeadersText(hs)| + 2, Folded(st, hs)))
    else
      match LinesIn(hs, n)
      case Some(j) => Some(Headers(true, k, Folded(st, hs[..j])))
      case None => None
  }

  lemma HeadersSeenCons(pre: seq<Byte>, hs: seq<Header>, k: nat, st: HeaderState)
    requires hs != [] && |pre| + |HeaderText(hs[0])| <= k
    ensures HeadersSeen(pre, hs, k, st) ==
            HeadersSeen(pre + HeaderText(hs[0]), hs[1..], k, Apply(st, hs[0]))
  {
    var n, t := k - |pre|, |HeaderText(hs[0])|;
    assert |HeadersText(hs)| == t + |HeadersText(hs[1..])|;
    assert t > 0;
    if n < |HeadersText(hs)| + 2 && LinesIn(hs, n).Some? {
      var j := LinesIn(hs, n).value;
      assert hs[..j][0] == hs[0] && hs[..j][1..] == hs[1..][..j - 1];
    }
  }

  lemma HeaderArrived(pre: seq<Byte>, h: Header, rest: seq<Byte>, k: nat, st: HeaderState, maxBody: nat)
    requires Within(h, maxBody)
    requires |pre| + |HeaderText(h)| <= k <= |pre| + |HeaderText(h)| + |rest|
    ensures |pre| < k
    ensures OneHeader((pre + HeaderText(h) + rest)[..k], |pre|, st, maxBody) ==
            Onward(|pre + HeaderText(h)|, Apply(st, h))
  {
    var some := rest[..k - |pre| - |HeaderText(h)|];
    assert (pre + HeaderText(h) + rest)[..k] == pre + HeaderText(h) + some;
    HeaderParses(pre, h, some, st, maxBody);
  }

  /** The loop ends as foreseen, or gives up where nothing is. */
  predicate Agrees(h: Headers, seen: Option<Headers>) {
    match seen
    case Some(x) => h == x
    case None => !h.ok
  }

  lemma ParseOnward(data: seq<Byte>, p: nat, st: HeaderState, q: nat, next: HeaderState, maxBody: nat)
    requires p < |data| && OneHeader(data, p, st, maxBody) == Onward(q, next)
    ensures ParseHeaders(data, p, st, maxBody) == ParseHeaders(data, q, next, maxBody)
  {
  }

  lemma NoHeadersCut(pre: seq<Byte>, hs: seq<Header>, post: seq<Byte>, k: nat, st: HeaderState, maxBody: nat)
    requires |post| >= 2 && post[0] == CR && post[1] == LF && |pre| <= k <= |pre| + |HeadersText(hs)| + |post|
    requires hs == [] || k == |pre|
    ensures Agrees(ParseHeaders((pre + HeadersText(hs) + post)[..k], |pre|, st, maxBody), HeadersSeen(pre, hs, k, st))
  {
    assert hs[..0] == [];
    if k > |pre| {
      assert pre + HeadersText(hs) + post == pre + post;
      BlankCut(pre, post, k, st, maxBody);
    }
  }

  lemma {:induction false} HeadersCut(
    pre: seq<Byte>, hs: seq<Header>, post: seq<Byte>, k: nat, st: HeaderState, maxBody: nat)
    requires forall h :: h in hs ==> Within(h, maxBody)
    requires |post| >= 2 && post[0] == CR && post[1] == LF
    requires |pre| <= k <= |pre| + |HeadersText(hs)| + |post|
    ensures Agrees(ParseHeaders((pre + HeadersText(hs) + post)[..k], |pre|, st, maxBody), HeadersSeen(pre, hs, k, st))
    decreases |hs|
  {
    if hs == [] || k == |pre| {
      NoHeadersCut(pre, hs, post, k, st, maxBody);
    } else {
      var line, rest, next := HeaderText(hs[0]), HeadersText(hs[1..]) + post, Apply(st, hs[0]);
      HeadersCons(pre, hs, post);
      assert Within(hs[0], maxBody);
      if k < |pre| + |line| {
        HeaderCutFails(pre, hs[0], rest, k, st, maxBody);
      } else {
        var data := (pre + HeadersText(hs) + post)[..k];
        HeaderArrived(pre, hs[0], rest, k, st, maxBody);
        ParseOnward(data, |pre|, st, |pre + line|, next, maxBody);
        HeadersSeenCons(pre, hs, k, st);
        HeadersCut(pre + line, hs[1..], post, k, next, maxBody);
      }
    }
  }

  // ---- requests cut short ----

  /** The request line and then whole header lines, the last length among which, if there is one, is zero. */
  predicate EndsEarly(r: Printed, k: nat) {
    exists j :: 0 <= j <= |r.headers| && EndsAfter(r, k, j)
  }

  /** The request line and the first `j` header lines. */
  predicate EndsAfter(r: Printed, k: nat, j: nat)
    requires j <= |r.headers|
  {
    k == |LineText(r)| + 2 + |HeadersText(r.headers[..j])| && LengthGiven(r.headers[..j]) == 0
  }

  lemma EndsEarlyByCount(r: Printed, k: nat)
    requires k >= |LineText(r)| + 2
    ensures EndsEarly(r, k) <==>
            match LinesIn(r.headers, k - (|LineText(r)| + 2))
            case None => false
            case Some(j) => LengthGiven(r.headers[..j]) == 0
  {
    var n := k - (|LineText(r)| + 2);
    forall j | 0 <= j <= |r.headers|
      ensures LinesIn(r.headers, n) == Some(j) <==> |HeadersText(r.headers[..j])| == n
    {
      LinesInExactly(r.headers, n, j);
    }
    match LinesIn(r.headers, n)
    case Some(j) => assert EndsEarly(r, k) <==> EndsAfter(r, k, j);
    case None =>
  }

  lemma LineCutShort(r: Printed, k: nat, maxBody: nat)
    requires LineOk(r) && k < |LineText(r)| + 2 <= |Print(r)|
    ensures !Parse(Print(r)[..k], maxBody).ok
  {
    var line, data := LineText(r), Print(r)[..k];
    RequestPieces(r, []);
    assert Print(r) + [] == Print(r);
    LineHasNoCr(r);
    var end := if k <= |line| then k else |line|;
    forall i | 0 <= i < end
      ensures data[i] != CR
    {
      assert data[i] == Print(r)[..|line|][i] == line[i] && line[i] in line;
    }
    FirstCrUnique(data, 0, end);
  }

  /** Once the request line is whole, it is read as it was printed. */
  lemma LineArrived(r: Printed, k: nat, maxBody: nat)
    requires LineOk(r) && |LineText(r)| + 2 <= k <= |Print(r)| && k >= MIN_REQUEST_SIZE
    ensures Parse(Print(r)[..k], maxBody) == AfterLine(Print(r)[..k], |LineText(r)| + 2, LineOf(r), maxBody)
  {
    var line, data := LineText(r), Print(r)[..k];
    RequestPieces(r, []);
    assert Print(r) + [] == Print(r);
    LineHasNoCr(r);
    assert data[0..0 + |line|] == Print(r)[..|line|] == line;
    assert data[|line|] == CR && data[|line| + 1] == LF;
    CrOver(data, 0, line);
    assert data == line + data[|line|..];
    LineParses(r, data[|line|..]);
    LineIsRead(data, |line|, LineOf(r), maxBody);
  }

  lemma HeadersArrived(r: Printed, k: nat, maxBody: nat)
    requires WellFormed(r, maxBody) && |LineText(r)| + 2 <= k <= |Print(r)|
    ensures |LineText(r) + CRLF| == |LineText(r)| + 2
    ensures Agrees(ParseHeaders(Print(r)[..k], |LineText(r)| + 2, NO_HEADERS, maxBody),
                   HeadersSeen(LineText(r) + CRLF, r.headers, k, NO_HEADERS))
  {
    RequestPieces(r, []);
    assert Print(r) + [] == Print(r) && CRLF + r.body + [] == CRLF + r.body;
    HeadersCut(LineText(r) + CRLF, r.headers, CRLF + r.body, k, NO_HEADERS, maxBody);
  }

  lemma RestOutcome(data: seq<Byte>, at: nat, line: RequestLine, maxBody: nat)
    requires at <= |data|
    ensures var h := ParseHeaders(data, at, NO_HEADERS, maxBody);
            var end := h.at + if h.st.hasLen then h.st.len else 0;
            var r := AfterLine(data, at, line, maxBody);
            (r.ok <==> h.ok && end <= |data|) && (r.ok ==> r.size == end)
  {
  }

  /** What the header loop can come to before the request is whole. */
  lemma SeenEarly(r: Printed, k: nat, maxBody: nat)
    requires WellFormed(r, maxBody) && |LineText(r)| + 2 <= k < |Print(r)|
    ensures var at := |LineText(r)| + 2;
            match HeadersSeen(LineText(r) + CRLF, r.headers, k, NO_HEADERS)
            case None => !EndsEarly(r, k)
            case Some(h) =>
              var end := h.at + if h.st.hasLen then h.st.len else 0;
              (end <= k <==> EndsEarly(r, k)) && (end <= k ==> end == k)
  {
    var at := |LineText(r)| + 2;
    RequestPieces(r, []);
    assert |LineText(r) + CRLF| == at;
    EndsEarlyByCount(r, k);
    var n := k - at;
    if n >= |HeadersText(r.headers)| + 2 {
      FoldedLength(r.headers);
      BeyondHeaders(r.headers, n);
    } else if LinesIn(r.headers, n).Some? {
      FoldedLength(r.headers[..LinesIn(r.headers, n).value]);
    }
  }

  /** The part that has the whole request line. */
  lemma AfterLineExactly(r: Printed, k: nat, maxBody: nat)
    requires WellFormed(r, maxBody) && |LineText(r)| + 2 <= k < |Print(r)|
    ensures var p := AfterLine(Print(r)[..k], |LineText(r)| + 2, LineOf(r), maxBody);
            (p.ok <==> EndsEarly(r, k)) && (p.ok ==> p.size == k)
  {
    HeadersArrived(r, k, maxBody);
    SeenEarly(r, k, maxBody);
    SeenIsOk(LineText(r) + CRLF, r.headers, k);
    RestOutcome(Print(r)[..k], |LineText(r)| + 2, LineOf(r), maxBody);
  }

  lemma SeenIsOk(pre: seq<Byte>, hs: seq<Header>, k: nat)
    requires |pre| <= k
    ensures HeadersSeen(pre, hs, k, NO_HEADERS).Some? ==> HeadersSeen(pre, hs, k, NO_HEADERS).value.ok
  {
  }

  /**
   * Of the proper beginnings of a printed request that are long enough to be looked
   * at, exactly those that end with the request line or a header line, with no
   * positive length in force, are taken for a whole request.
   */
  lemma TakenTooEarlyExactly(r: Printed, k: nat, maxBody: nat)
    requires WellFormed(r, maxBody) && 16 <= k < |Print(r)|
    ensures Parse(Print(r)[..k], maxBody).ok <==> EndsEarly(r, k)
    ensures EndsEarly(r, k) ==> Parse(Print(r)[..k], maxBody).size == k
  {
    if k < |LineText(r)| + 2 {
      RequestPieces(r, []);
      LineCutShort(r, k, maxBody);
    } else {
      LineArrived(r, k, maxBody);
      AfterLineExactly(r, k, maxBody);
    }
  }

  lemma BeyondHeaders(hs: seq<Header>, n: nat)
    requires n > |HeadersText(hs)|
    ensures LinesIn(hs, n) == None
    decreases |hs|
  {
    if hs != [] && n >= |HeaderText(hs[0])| {
      BeyondHeaders(hs[1..], n - |HeaderText(hs[0])|);
    }
  }

  /** For instance: a request line of at least 14 characters that has arrived alone is taken for a request. */
  lemma LineAloneIsTaken(r: Printed, maxBody: nat)
    requires WellFormed(r, maxBody) && |LineText(r)| >= 14
    ensures Parse(LineText(r) + CRLF, maxBody).ok
  {
    var k := |LineText(r)| + 2;
    RequestPieces(r, []);
    assert Print(r) + [] == Print(r);
    assert Print(r)[..k] == LineText(r) + CRLF;
    assert r.headers[..0] == [];
    assert EndsAfter(r, k, 0);
    TakenTooEarlyExactly(r, k, maxBody);
  }
}
