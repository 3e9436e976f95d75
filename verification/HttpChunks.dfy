/**
 * Printed requests that arrive in pieces, the drain loop run after each piece: when
 * they are handed over as if they had arrived at once.
 */
module HttpChunks {
  import opened Bytes
  import opened Http
  import opened HttpRuns
  import opened HttpCutShort

  // ---- draining piece by piece ----

  /** All requests taken off the front of a buffer, each with the bytes it took. */
  function TakenAll(data: seq<Byte>, maxBody: nat): seq<Parsed>
    decreases |data|
  {
    var r := Parse(data, maxBody);
    if !r.ok then [] else [r] + TakenAll(data[r.size..], maxBody)
  }

  /** The same when the buffer is filled chunk by chunk and drained after each. */
  function Fed(unread: seq<Byte>, chunks: seq<seq<Byte>>, maxBody: nat): seq<Parsed>
    decreases |chunks|
  {
    if chunks == [] then []
    else
      var data := unread + chunks[0];
      TakenAll(data, maxBody) + Fed(Remainder(data, maxBody), chunks[1..], maxBody)
  }

  function SeenAll(rs: seq<Printed>): seq<Parsed> {
    if rs == [] then [] else [Seen(rs[0])] + SeenAll(rs[1..])
  }

  // ---- a position in a stream of requests ----

  /** The first `k` bytes of `r` are taken for a whole request. */
  predicate EarlyIn(r: Printed, k: int) {
    16 <= k < |Print(r)| && EndsEarly(r, k)
  }

  /** Position `n` of a stream of requests is such a place in request `i`. */
  predicate EarlyInNth(rs: seq<Printed>, i: nat, n: int) {
    i < |rs| && EarlyIn(rs[i], n - |PrintAll(rs[..i])|)
  }

  /** Cut at `n`, a stream of requests ends so that one of them is taken too early. */
  predicate EarlyAt(rs: seq<Printed>, n: int) {
    exists i :: 0 <= i < |rs| && EarlyInNth(rs, i, n)
  }

  lemma NthOfRest(rs: seq<Printed>, i: nat, n: int)
    requires rs != []
    ensures EarlyInNth(rs, i, n) <==>
            if i == 0 then EarlyIn(rs[0], n) else EarlyInNth(rs[1..], i - 1, n - |Print(rs[0])|)
  {
    if i == 0 {
      assert rs[..0] == [];
    } else if i < |rs| {
      assert rs[..i][0] == rs[0] && rs[..i][1..] == rs[1..][..i - 1];
    }
  }

  lemma EarlyCons(rs: seq<Printed>, n: int)
    requires rs != []
    ensures EarlyAt(rs, n) <==> EarlyIn(rs[0], n) || EarlyAt(rs[1..], n - |Print(rs[0])|)
  {
    var rest, k := rs[1..], n - |Print(rs[0])|;
    NthOfRest(rs, 0, n);
    if i :| 0 <= i < |rs| && EarlyInNth(rs, i, n) {
      NthOfRest(rs, i, n);
    }
    if i :| 0 <= i < |rest| && EarlyInNth(rest, i, k) {
      NthOfRest(rs, i + 1, n);
    }
  }

  /** No request lies at or before the start. */
  lemma {:induction false} NothingBefore(rs: seq<Printed>, n: int)
    requires n <= 0
    ensures !EarlyAt(rs, n)
    decreases |rs|
  {
    if rs != [] {
      EarlyCons(rs, n);
      NothingBefore(rs[1..], n - |Print(rs[0])|);
    }
  }

  /** The requests from the one the position `n` is in on. */
  function From(rs: seq<Printed>, n: nat): seq<Printed> {
    if rs == [] || n < |Print(rs[0])| then rs else From(rs[1..], n - |Print(rs[0])|)
  }

  /** Where in that one the position is. */
  function Into(rs: seq<Printed>, n: nat): nat {
    if rs == [] || n < |Print(rs[0])| then n else Into(rs[1..], n - |Print(rs[0])|)
  }

  /** The requests that end at or before `n`, as the parser sees them. */
  function Whole(rs: seq<Printed>, n: nat): seq<Parsed> {
    if rs == [] || n < |Print(rs[0])| then [] else [Seen(rs[0])] + Whole(rs[1..], n - |Print(rs[0])|)
  }

  predicate AllWellFormed(rs: seq<Printed>, maxBody: nat) {
    forall r :: r in rs ==> WellFormed(r, maxBody)
  }

  lemma {:induction false} PositionSplits(rs: seq<Printed>, n: nat, maxBody: nat)
    requires AllWellFormed(rs, maxBody) && n <= |PrintAll(rs)|
    ensures SeenAll(rs) == Whole(rs, n) + SeenAll(From(rs, n)) && AllWellFormed(From(rs, n), maxBody)
    ensures Into(rs, n) <= |PrintAll(From(rs, n))| && PrintAll(rs)[n..] == PrintAll(From(rs, n))[Into(rs, n)..]
    ensures From(rs, n) != [] ==> Into(rs, n) < |Print(From(rs, n)[0])|
    decreases |rs|
  {
    if rs != [] && n >= |Print(rs[0])| {
      var first := |Print(rs[0])|;
      PositionSplits(rs[1..], n - first, maxBody);
      assert PrintAll(rs)[n..] == PrintAll(rs[1..])[n - first..];
      Assoc([Seen(rs[0])], Whole(rs[1..], n - first), SeenAll(From(rs[1..], n - first)));
    }
  }

  /** Behind `n`, positions count from the request `n` is in. */
  lemma {:induction false} EarlyFrom(rs: seq<Printed>, n: nat, x: nat)
    ensures EarlyAt(rs, n + x) <==> EarlyAt(From(rs, n), Into(rs, n) + x)
    decreases |rs|
  {
    if rs != [] && n >= |Print(rs[0])| {
      EarlyCons(rs, n + x);
      EarlyFrom(rs[1..], n - |Print(rs[0])|, x);
    }
  }

  // ---- one drain ----

  lemma ShortIsLeft(data: seq<Byte>, maxBody: nat)
    requires |data| < MIN_REQUEST_SIZE
    ensures !Parse(data, maxBody).ok
  {
  }

  /** The part of a request that has arrived, drained. */
  lemma PartTaken(r: Printed, n: nat, maxBody: nat)
    requires WellFormed(r, maxBody) && n < |Print(r)|
    ensures var data := Print(r)[..n];
            if EarlyIn(r, n) then |TakenAll(data, maxBody)| > 0 && TakenAll(data, maxBody)[0].size == n
            else TakenAll(data, maxBody) == [] && Remainder(data, maxBody) == data
  {
    if n < MIN_REQUEST_SIZE {
      ShortIsLeft(Print(r)[..n], maxBody);
    } else {
      TakenTooEarlyExactly(r, n, maxBody);
    }
  }

  lemma FirstTaken(r: Printed, rest: seq<Byte>, maxBody: nat)
    requires WellFormed(r, maxBody)
    ensures TakenAll(Print(r) + rest, maxBody) == [Seen(r)] + TakenAll(rest, maxBody)
    ensures Remainder(Print(r) + rest, maxBody) == Remainder(rest, maxBody)
  {
    FirstOfMany(r, rest, maxBody);
  }

  /** What one drain makes of the first `n` bytes: the whole requests among them, and a beginning only if cut early. */
  lemma {:induction false} FrontTaken(rs: seq<Printed>, n: nat, maxBody: nat)
    requires AllWellFormed(rs, maxBody) && n <= |PrintAll(rs)|
    ensures var data, whole := PrintAll(rs)[..n], Whole(rs, n);
            var taken := TakenAll(data, maxBody);
            if EarlyAt(rs, n) then
              From(rs, n) != [] && |taken| > |whole| && taken[|whole|].size == Into(rs, n)
            else
              Into(rs, n) <= |PrintAll(From(rs, n))| && taken == whole &&
              Remainder(data, maxBody) == PrintAll(From(rs, n))[..Into(rs, n)]
    decreases |rs|
  {
    if rs == [] {
      ShortIsLeft([], maxBody);
    } else {
      var r, first, rest := rs[0], Print(rs[0]), PrintAll(rs[1..]);
      assert WellFormed(r, maxBody);
      EarlyCons(rs, n);
      if n < |first| {
        NothingBefore(rs[1..], n - |first|);
        assert PrintAll(rs)[..n] == first[..n];
        PartTaken(r, n, maxBody);
      } else {
        var k := n - |first|;
        assert PrintAll(rs)[..n] == first + rest[..k];
        FirstTaken(r, rest[..k], maxBody);
        FrontTaken(rs[1..], k, maxBody);
      }
    }
  }

  // ---- many drains ----

  /** The end of the first `j` chunks is such a place; the first chunk starts at `at`. */
  predicate EarlyAfter(rs: seq<Printed>, at: nat, chunks: seq<seq<Byte>>, j: nat) {
    0 < j <= |chunks| && EarlyAt(rs, at + |Concat(chunks[..j])|)
  }

  /** Some chunk ends where a request is taken too early. */
  predicate SomeEarly(rs: seq<Printed>, at: nat, chunks: seq<seq<Byte>>) {
    exists j :: 0 <= j <= |chunks| && EarlyAfter(rs, at, chunks, j)
  }

  lemma EndOfChunks(chunks: seq<seq<Byte>>, j: nat)
    requires 0 < j <= |chunks|
    ensures |Concat(chunks[..j])| == |chunks[0]| + |Concat(chunks[1..][..j - 1])|
  {
    assert chunks[..j][0] == chunks[0] && chunks[..j][1..] == chunks[1..][..j - 1];
  }

  lemma EarlyAfterRest(rs: seq<Printed>, at: nat, chunks: seq<seq<Byte>>, n: nat, j: nat)
    requires chunks != [] && 0 < j && n == at + |chunks[0]|
    ensures EarlyAfter(rs, at, chunks, j) <==>
            if j == 1 then EarlyAt(rs, n) else EarlyAfter(rs, n, chunks[1..], j - 1)
  {
    if j <= |chunks| {
      EndOfChunks(chunks, j);
      if j == 1 {
        assert chunks[1..][..0] == [] && Concat(chunks[1..][..0]) == [];
      }
    }
  }

  lemma SomeEarlyCons(rs: seq<Printed>, at: nat, chunks: seq<seq<Byte>>, n: nat)
    requires chunks != [] && n == at + |chunks[0]|
    ensures SomeEarly(rs, at, chunks) <==> EarlyAt(rs, n) || SomeEarly(rs, n, chunks[1..])
  {
    var rest := chunks[1..];
    EarlyAfterRest(rs, at, chunks, n, 1);
    if j :| 0 <= j <= |rest| && EarlyAfter(rs, n, rest, j) {
      EarlyAfterRest(rs, at, chunks, n, j + 1);
    }
    if j :| 0 <= j <= |chunks| && EarlyAfter(rs, at, chunks, j) {
      EarlyAfterRest(rs, at, chunks, n, j);
    }
  }

  lemma EarlyAfterFrom(rs: seq<Printed>, n: nat, chunks: seq<seq<Byte>>, j: nat)
    ensures EarlyAfter(rs, n, chunks, j) <==> EarlyAfter(From(rs, n), Into(rs, n), chunks, j)
  {
    if 0 < j <= |chunks| {
      EarlyFrom(rs, n, |Concat(chunks[..j])|);
    }
  }

  /** A boundary is early for all requests or for those from `n` on alike. */
  lemma SomeEarlyFrom(rs: seq<Printed>, n: nat, chunks: seq<seq<Byte>>)
    ensures SomeEarly(rs, n, chunks) <==> SomeEarly(From(rs, n), Into(rs, n), chunks)
  {
    if j :| 0 <= j <= |chunks| && EarlyAfter(rs, n, chunks, j) {
      EarlyAfterFrom(rs, n, chunks, j);
    }
    if j :| 0 <= j <= |chunks| && EarlyAfter(From(rs, n), Into(rs, n), chunks, j) {
      EarlyAfterFrom(rs, n, chunks, j);
    }
  }

  lemma SameFront<T>(a: seq<T>, b: seq<T>, c: seq<T>)
    ensures a + b == a + c <==> b == c
  {
    if a + b == a + c {
      assert b == (a + b)[|a|..] == (a + c)[|a|..] == c;
    }
  }

  /** A request taken too early is not the one that was printed. */
  lemma EarlyDiffers(rs: seq<Printed>, n: nat, maxBody: nat, later: seq<Parsed>, handed: seq<Parsed>)
    requires AllWellFormed(rs, maxBody) && n <= |PrintAll(rs)| && EarlyAt(rs, n)
    requires handed == TakenAll(PrintAll(rs)[..n], maxBody) + later
    ensures handed != SeenAll(rs)
  {
    FrontTaken(rs, n, maxBody);
    PositionSplits(rs, n, maxBody);
    var k := |Whole(rs, n)|;
    assert SeenAll(rs)[k] == SeenAll(From(rs, n))[0] == Seen(From(rs, n)[0]);
    assert handed[k].size == Into(rs, n);
  }

  lemma NextChunk(all: seq<Byte>, at: nat, chunks: seq<seq<Byte>>, n: nat)
    requires at <= |all| && chunks != [] && all[at..] == Concat(chunks) && n == at + |chunks[0]|
    ensures n <= |all| && all[..at] + chunks[0] == all[..n] && all[n..] == Concat(chunks[1..])
  {
    assert all[at..] == chunks[0] + Concat(chunks[1..]);
    assert chunks[0] == all[at..][..|chunks[0]|];
  }

  /** A chunk that ends well leaves the question to the chunks behind it. */
  lemma ChunkTaken(rs: seq<Printed>, n: nat, chunks: seq<seq<Byte>>, maxBody: nat, handed: seq<Parsed>)
    requires AllWellFormed(rs, maxBody) && n <= |PrintAll(rs)| && !EarlyAt(rs, n)
    requires var data := PrintAll(rs)[..n];
             handed == TakenAll(data, maxBody) + Fed(Remainder(data, maxBody), chunks, maxBody)
    ensures Into(rs, n) <= |PrintAll(From(rs, n))|
    ensures handed == SeenAll(rs) <==>
            Fed(PrintAll(From(rs, n))[..Into(rs, n)], chunks, maxBody) == SeenAll(From(rs, n))
  {
    FrontTaken(rs, n, maxBody);
    PositionSplits(rs, n, maxBody);
    SameFront(Whole(rs, n), Fed(PrintAll(From(rs, n))[..Into(rs, n)], chunks, maxBody), SeenAll(From(rs, n)));
  }

  /** One turn, seen in the whole stream. */
  lemma FedOne(all: seq<Byte>, at: nat, chunks: seq<seq<Byte>>, n: nat, maxBody: nat)
    requires at <= |all| && chunks != [] && all[at..] == Concat(chunks) && n == at + |chunks[0]|
    ensures n <= |all|
    ensures Fed(all[..at], chunks, maxBody) ==
            TakenAll(all[..n], maxBody) + Fed(Remainder(all[..n], maxBody), chunks[1..], maxBody)
  {
    NextChunk(all, at, chunks, n);
  }

  lemma NothingLeft(rs: seq<Printed>, at: nat)
    requires at <= |PrintAll(rs)| && PrintAll(rs)[at..] == [] && (rs != [] ==> at < |Print(rs[0])|)
    ensures rs == []
  {
  }

  /** A chunk that ends badly. */
  lemma FedEarly(rs: seq<Printed>, at: nat, chunks: seq<seq<Byte>>, n: nat, maxBody: nat)
    requires AllWellFormed(rs, maxBody) && at <= |PrintAll(rs)| && PrintAll(rs)[at..] == Concat(chunks)
    requires chunks != [] && n == at + |chunks[0]| && EarlyAt(rs, n)
    ensures Fed(PrintAll(rs)[..at], chunks, maxBody) != SeenAll(rs)
  {
    var all := PrintAll(rs);
    FedOne(all, at, chunks, n, maxBody);
    EarlyDiffers(rs, n, maxBody, Fed(Remainder(all[..n], maxBody), chunks[1..], maxBody),
                 Fed(all[..at], chunks, maxBody));
  }

  lemma FedOnSame(rs: seq<Printed>, at: nat, chunks: seq<seq<Byte>>, n: nat, maxBody: nat,
                  handed: seq<Parsed>, later: seq<Parsed>)
    requires AllWellFormed(rs, maxBody) && at <= |PrintAll(rs)| && PrintAll(rs)[at..] == Concat(chunks)
    requires chunks != [] && n == at + |chunks[0]| && !EarlyAt(rs, n)
    requires handed == Fed(PrintAll(rs)[..at], chunks, maxBody)
    requires Into(rs, n) <= |PrintAll(From(rs, n))|
    requires later == Fed(PrintAll(From(rs, n))[..Into(rs, n)], chunks[1..], maxBody)
    ensures handed == SeenAll(rs) <==> later == SeenAll(From(rs, n))
  {
    FedOne(PrintAll(rs), at, chunks, n, maxBody);
    ChunkTaken(rs, n, chunks[1..], maxBody, handed);
  }

  /** A chunk that ends well: the requests and the position to go on from. */
  lemma FedOn(rs: seq<Printed>, at: nat, chunks: seq<seq<Byte>>, n: nat, maxBody: nat)
    returns (rs1: seq<Printed>, at1: nat)
    requires AllWellFormed(rs, maxBody) && at <= |PrintAll(rs)| && PrintAll(rs)[at..] == Concat(chunks)
    requires chunks != [] && n == at + |chunks[0]| && !EarlyAt(rs, n)
    ensures AllWellFormed(rs1, maxBody) && at1 <= |PrintAll(rs1)| && PrintAll(rs1)[at1..] == Concat(chunks[1..])
    ensures rs1 != [] ==> at1 < |Print(rs1[0])|
    ensures Fed(PrintAll(rs)[..at], chunks, maxBody) == SeenAll(rs) <==>
            Fed(PrintAll(rs1)[..at1], chunks[1..], maxBody) == SeenAll(rs1)
    ensures SomeEarly(rs, at, chunks) <==> SomeEarly(rs1, at1, chunks[1..])
  {
    rs1, at1 := From(rs, n), Into(rs, n);
    NextChunk(PrintAll(rs), at, chunks, n);
    PositionSplits(rs, n, maxBody);
    FedOnSame(rs, at, chunks, n, maxBody, Fed(PrintAll(rs)[..at], chunks, maxBody),
              Fed(PrintAll(rs1)[..at1], chunks[1..], maxBody));
    SomeEarlyCons(rs, at, chunks, n);
    SomeEarlyFrom(rs, n, chunks[1..]);
  }

  lemma {:induction false} FedFrom(rs: seq<Printed>, at: nat, chunks: seq<seq<Byte>>, maxBody: nat)
    requires AllWellFormed(rs, maxBody) && at <= |PrintAll(rs)| && PrintAll(rs)[at..] == Concat(chunks)
    requires rs != [] ==> at < |Print(rs[0])|
    ensures Fed(PrintAll(rs)[..at], chunks, maxBody) == SeenAll(rs) <==> !SomeEarly(rs, at, chunks)
    decreases |chunks|
  {
    if chunks == [] {
      NothingLeft(rs, at);
    } else {
      var n := at + |chunks[0]|;
      if EarlyAt(rs, n) {
        SomeEarlyCons(rs, at, chunks, n);
        FedEarly(rs, at, chunks, n, maxBody);
      } else {
        var rs1, at1 := FedOn(rs, at, chunks, n, maxBody);
        FedFrom(rs1, at1, chunks[1..], maxBody);
      }
    }
  }

  /**
   * However printed requests are cut into chunks: they are handed over one by one, each
   * with its own bytes, exactly if no chunk ends where a request is taken too early.
   */
  lemma ChunksExactly(rs: seq<Printed>, chunks: seq<seq<Byte>>, maxBody: nat)
    requires AllWellFormed(rs, maxBody) && Concat(chunks) == PrintAll(rs)
    ensures Fed([], chunks, maxBody) == SeenAll(rs) <==> !SomeEarly(rs, 0, chunks)
  {
    assert PrintAll(rs)[..0] == [] && PrintAll(rs)[0..] == PrintAll(rs);
    assert rs != [] ==> WellFormed(rs[0], maxBody);
    FedFrom(rs, 0, chunks, maxBody);
  }
}
