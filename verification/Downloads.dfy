/** The curl receive buffer and the download percentage (plugin/SystemServicesHelper.cpp). */
module Downloads {

  const CURL_BUFFER_SIZE := 64 * 1024
  const SIZE_T_RANGE := 0x1_0000_0000_0000_0000

  // ---------------------------------------------------------------------------------------------
  // curl_write
  // ---------------------------------------------------------------------------------------------

  /** The chunk fits when it leaves the last two bytes of the buffer free. */
  predicate Fits(pos: nat, chunk: seq<bv8>) {
    pos + |chunk| < CURL_BUFFER_SIZE - 1
  }

  ghost function AfterChunk(received: seq<bv8>, chunk: seq<bv8>): seq<bv8> {
    if Fits(|received|, chunk) then received + chunk else received
  }

  class WriteResult {
    const data: array<bv8>
    var pos: nat

    ghost predicate Valid()
      reads this
    {
      data.Length == CURL_BUFFER_SIZE && pos <= CURL_BUFFER_SIZE - 2
    }

    ghost function Received(): seq<bv8>
      requires Valid()
      reads this, data
    {
      data[..pos]
    }

    constructor ()
      ensures Valid() && Received() == [] && fresh(data)
    {
      data := new bv8[CURL_BUFFER_SIZE];
      pos := 0;
    }

    /**
     * The memory at ptr holds `size * nmemb` bytes, in the arithmetic of size_t; no object is larger
     * than half of its range. A refusal is size_t's -1.
     */
    method CurlWrite(ptr: seq<bv8>, size: nat, nmemb: nat) returns (written: nat)
      requires Valid()
      requires |ptr| == size * nmemb % SIZE_T_RANGE && |ptr| < SIZE_T_RANGE / 2
      modifies this, data
      ensures Valid()
      ensures written == if Fits(old(pos), ptr) then |ptr| else SIZE_T_RANGE - 1
      ensures Received() == AfterChunk(old(Received()), ptr)
      ensures !Fits(old(pos), ptr) ==> data[..] == old(data[..])
    {
      var n := size * nmemb % SIZE_T_RANGE;
      if (pos + n) % SIZE_T_RANGE >= CURL_BUFFER_SIZE - 1 {
        return SIZE_T_RANGE - 1;
      }
      forall i | 0 <= i < n {
        data[pos + i] := ptr[i];
      }
      pos := pos + n;
      return n;
    }
  }

  ghost function AfterChunks(received: seq<bv8>, chunks: seq<seq<bv8>>): seq<bv8>
    decreases |chunks|
  {
    if chunks == [] then received else AfterChunks(AfterChunk(received, chunks[0]), chunks[1..])
  }

  /** The chunks that fit when they come. */
  ghost function Accepted(pos: nat, chunks: seq<seq<bv8>>): seq<seq<bv8>>
    decreases |chunks|
  {
    if chunks == [] then []
    else if Fits(pos, chunks[0]) then [chunks[0]] + Accepted(pos + |chunks[0]|, chunks[1..])
    else Accepted(pos, chunks[1..])
  }

  ghost function Concat(chunks: seq<seq<bv8>>): seq<bv8> {
    if chunks == [] then [] else chunks[0] + Concat(chunks[1..])
  }

  /** Any run of writes leaves the concatenation of the accepted chunks, and the last two bytes free. */
  lemma {:induction false} BufferIsAcceptedChunks(received: seq<bv8>, chunks: seq<seq<bv8>>)
    requires |received| <= CURL_BUFFER_SIZE - 2
    ensures AfterChunks(received, chunks) == received + Concat(Accepted(|received|, chunks))
    ensures |AfterChunks(received, chunks)| <= CURL_BUFFER_SIZE - 2
    decreases |chunks|
  {
    if chunks != [] {
      BufferIsAcceptedChunks(AfterChunk(received, chunks[0]), chunks[1..]);
      var accepted := Accepted(|received|, chunks);
      if Fits(|received|, chunks[0]) {
        assert accepted[1..] == Accepted(|received| + |chunks[0]|, chunks[1..]);
      }
    }
  }

  /** Everything is kept exactly when the buffer has room for it all, with two bytes to spare. */
  lemma {:induction false} AllKeptExactly(received: seq<bv8>, chunks: seq<seq<bv8>>)
    requires |received| <= 65534
    ensures AfterChunks(received, chunks) == received + Concat(chunks) <==> |received| + |Concat(chunks)| <= 65534
    decreases |chunks|
  {
    BufferIsAcceptedChunks(received, chunks);
    if chunks == [] {
      assert received + [] == received;
    } else if Fits(|received|, chunks[0]) {
      AllKeptExactly(received + chunks[0], chunks[1..]);
      assert received + chunks[0] + Concat(chunks[1..]) == received + Concat(chunks);
    }
  }

  // ---------------------------------------------------------------------------------------------
  // The DOWN branch of getDownloadProgress
  // ---------------------------------------------------------------------------------------------

  type Rounding = real -> real

  /** All that is asked of double arithmetic: rounding is monotone and keeps 0, 1 and 100. */
  ghost predicate Sound(fl: Rounding) {
    && (forall x, y :: x <= y ==> fl(x) <= fl(y))
    && fl(0.0) == 0.0 && fl(1.0) == 1.0 && fl(100.0) == 100.0
  }

  lemma TotalIsPositive(fl: Rounding, total: int)
    requires Sound(fl) && total > 0
    ensures fl(total as real) >= 1.0
  {
    assert fl(1.0) <= fl(total as real);
  }

  /** Both conversions, the quotient and the product are rounded. */
  ghost function Share(fl: Rounding, downloaded: int, total: int): real
    requires Sound(fl) && 0 <= downloaded <= total && total > 0
  {
    TotalIsPositive(fl, total);
    fl(fl(fl(downloaded as real) / fl(total as real)) * 100.0)
  }

  /** The percentage is clamped, and the cast to int truncates it. */
  ghost function Percent(fl: Rounding, downloaded: int, total: int): int
    requires Sound(fl) && 0 <= downloaded <= total && total > 0
  {
    var percent := Share(fl, downloaded, total);
    (if percent > 100.0 then 100.0 else percent).Floor
  }

  lemma DivisionIsMonotone(x: real, y: real, d: real)
    requires x <= y && d > 0.0
    ensures x / d <= y / d
  {
  }

  lemma ShareIsMonotone(fl: Rounding, less: int, more: int, total: int)
    requires Sound(fl) && 0 <= less <= more <= total && total > 0
    ensures Share(fl, less, total) <= Share(fl, more, total)
  {
    TotalIsPositive(fl, total);
    var d := fl(total as real);
    var x, y := fl(less as real), fl(more as real);
    assert x <= y;
    DivisionIsMonotone(x, y, d);
    assert fl(x / d) <= fl(y / d);
    assert fl(x / d) * 100.0 <= fl(y / d) * 100.0;
    assert fl(fl(x / d) * 100.0) <= fl(fl(y / d) * 100.0);
  }

  /** Rounding is monotone, so a bound on the downloaded bytes is one on the percentage. */
  lemma PercentIsMonotone(fl: Rounding, less: int, more: int, total: int)
    requires Sound(fl) && 0 <= less <= more <= total && total > 0
    ensures Percent(fl, less, total) <= Percent(fl, more, total)
  {
    ShareIsMonotone(fl, less, more, total);
  }

  lemma Quotients(d: real)
    requires d > 0.0
    ensures 0.0 / d == 0.0 && d / d == 1.0
  {
  }

  lemma ShareAtEnds(fl: Rounding, total: int)
    requires Sound(fl) && total > 0
    ensures Share(fl, 0, total) == 0.0
    ensures Share(fl, total, total) == 100.0
  {
    TotalIsPositive(fl, total);
    Quotients(fl(total as real));
    assert fl(0 as real) == 0.0;
    assert fl(fl(0.0) * 100.0) == 0.0;
    assert fl(fl(1.0) * 100.0) == 100.0;
  }

  /**
   * The percentage lies between 0 and 100, with 0 and 100 themselves at the ends of the download; the
   * clamp never binds.
   */
  lemma PercentIsBounded(fl: Rounding, downloaded: int, total: int)
    requires Sound(fl) && 0 <= downloaded <= total && total > 0
    ensures 0.0 <= Share(fl, downloaded, total) <= 100.0
    ensures Percent(fl, downloaded, total) == Share(fl, downloaded, total).Floor
    ensures 0 <= Percent(fl, downloaded, total) <= 100
    ensures Percent(fl, 0, total) == 0 && Percent(fl, total, total) == 100
  {
    ShareAtEnds(fl, total);
    ShareIsMonotone(fl, 0, downloaded, total);
    ShareIsMonotone(fl, downloaded, total, total);
  }

  lemma QuotientIsFraction(y: real, t: real, r: real)
    requires y * t == r && 0.0 <= r < t
    ensures 0.0 <= y < 1.0
  {
    assert y == r / t;
  }

  lemma FloorOfQuotient(n: int, t: int, x: real)
    requires t > 0 && x * (t as real) == n as real
    ensures x.Floor == n / t
  {
    var q := n / t;
    var r := n % t;
    assert n == q * t + r && 0 <= r < t;
    assert n as real == (q as real) * (t as real) + (r as real);
    assert (x - q as real) * (t as real) == r as real;
    QuotientIsFraction(x - q as real, t as real, r as real);
  }

  lemma ShareTimesTotal(d: real, t: real)
    requires t > 0.0
    ensures d / t * 100.0 * t == 100.0 * d
  {
    assert d / t * t == d;
  }

  ghost predicate Exact(fl: Rounding) {
    forall x :: fl(x) == x
  }

  lemma ExactIsSound(fl: Rounding)
    requires Exact(fl)
    ensures Sound(fl)
  {
  }

  lemma ExactShare(fl: Rounding, downloaded: int, total: int)
    requires Exact(fl) && Sound(fl) && 0 <= downloaded <= total && total > 0
    ensures Share(fl, downloaded, total) == downloaded as real / total as real * 100.0
  {
  }

  lemma FloorOfShare(downloaded: int, total: int)
    requires total > 0
    ensures (downloaded as real / total as real * 100.0).Floor == 100 * downloaded / total
  {
    ShareTimesTotal(downloaded as real, total as real);
    FloorOfQuotient(100 * downloaded, total, downloaded as real / total as real * 100.0);
  }

  /** Where nothing is rounded the percentage is the whole part of 100 * downloaded / total. */
  lemma PercentIsFloor(fl: Rounding, downloaded: int, total: int)
    requires Exact(fl) && 0 <= downloaded <= total && total > 0
    ensures Sound(fl) && Percent(fl, downloaded, total) == 100 * downloaded / total
  {
    ExactIsSound(fl);
    PercentIsBounded(fl, downloaded, total);
    ExactShare(fl, downloaded, total);
    FloorOfShare(downloaded, total);
  }
}
