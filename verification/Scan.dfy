/** `StringUtils::find_crlf`: a 16-byte block scan for a carriage return, and the scalar search it stands for. */
module Scan {
  import opened Bytes

  /** Index of the first CR at or after `from`, or the length of `data`. */
  function FirstCr(data: seq<Byte>, from: nat): (r: nat)
    requires from <= |data|
    ensures from <= r <= |data|
    ensures r < |data| ==> data[r] == CR
    ensures forall i :: from <= i < r ==> data[i] != CR
    decreases |data| - from
  {
    if from == |data| || data[from] == CR then from else FirstCr(data, from + 1)
  }

  /** There is only one such index. */
  lemma FirstCrUnique(data: seq<Byte>, from: nat, r: nat)
    requires from <= r <= |data| && (r < |data| ==> data[r] == CR)
    requires forall i :: from <= i < r ==> data[i] != CR
    ensures FirstCr(data, from) == r
  {
  }

  /** A hit is not changed by bytes appended after it. */
  lemma FirstCrStable(a: seq<Byte>, b: seq<Byte>, from: nat)
    requires from <= |a| && FirstCr(a, from) < |a|
    ensures FirstCr(a + b, from) == FirstCr(a, from)
  {
    FirstCrUnique(a + b, from, FirstCr(a, from));
  }

  // ---- one block ----

  /** `_mm_cmpeq_epi8` against CR on the 16 bytes loaded at `p`. */
  function Compare(data: seq<Byte>, p: nat): (hits: seq<bool>)
    requires p + 16 <= |data|
    ensures |hits| == 16 && forall i :: 0 <= i < 16 ==> hits[i] == (data[p + i] == CR)
  {
    seq(16, i requires 0 <= i < 16 => data[p + i] == CR)
  }

  /** `_mm_movemask_epi8`: bit `i` is hit `i`. */
  function MoveMask(hits: seq<bool>): nat {
    if hits == [] then 0 else (if hits[0] then 1 else 0) + 2 * MoveMask(hits[1..])
  }

  /** `__builtin_ctz`: the number of trailing zero bits. */
  function TrailingZeros(mask: nat): nat
    requires mask > 0
  {
    if mask % 2 == 1 then 0 else 1 + TrailingZeros(mask / 2)
  }

  /** The mask is zero exactly when nothing hit; else its trailing zeros count the misses before the first hit. */
  lemma {:induction false} MaskFindsFirst(hits: seq<bool>)
    ensures MoveMask(hits) == 0 <==> forall i :: 0 <= i < |hits| ==> !hits[i]
    ensures MoveMask(hits) > 0 ==>
              var k := TrailingZeros(MoveMask(hits));
              k < |hits| && hits[k] && forall i :: 0 <= i < k ==> !hits[i]
  {
    if hits != [] {
      MaskFindsFirst(hits[1..]);
      assert forall i :: 0 < i < |hits| ==> hits[i] == hits[1..][i - 1];
      if !hits[0] && MoveMask(hits) > 0 {
        assert MoveMask(hits) % 2 == 0 && MoveMask(hits) / 2 == MoveMask(hits[1..]);
      }
    }
  }

  /** The scan: sixteen bytes at a time while sixteen are left, then one by one. No load leaves `data`. */
  method FindCrlf(data: seq<Byte>, from: nat) returns (hit: Option<nat>)
    requires from <= |data|
    ensures hit == if FirstCr(data, from) < |data| then Some(FirstCr(data, from)) else None
    ensures hit.Some? ==> from <= hit.value < |data| && data[hit.value] == 13
    ensures forall i :: from <= i < (if hit.Some? then hit.value else |data|) ==> data[i] != 13
  {
    var p := from;
    while |data| - p >= 16
      invariant from <= p <= |data|
      invariant forall i :: from <= i < p ==> data[i] != CR
    {
      var hits := Compare(data, p);
      var mask := MoveMask(hits);
      MaskFindsFirst(hits);
      if mask != 0 {
        var k := TrailingZeros(mask);
        forall i | from <= i < p + k
          ensures data[i] != CR
        {
          if i >= p {
            assert !hits[i - p];
          }
        }
        FirstCrUnique(data, from, p + k);
        return Some(p + k);
      }
      forall i | from <= i < p + 16
        ensures data[i] != CR
      {
        if i >= p {
          assert !hits[i - p];
        }
      }
      p := p + 16;
    }
    while p < |data|
      invariant from <= p <= |data|
      invariant forall i :: from <= i < p ==> data[i] != CR
    {
      if data[p] == CR {
        FirstCrUnique(data, from, p);
        return Some(p);
      }
      p := p + 1;
    }
    FirstCrUnique(data, from, |data|);
    return None;
  }
}
