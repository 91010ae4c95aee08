/** The chunk plan of the HTTPS OTA download (iotc_https_ota.c): the image of `n` bytes is requested as
    inclusive byte ranges (section 14.1.2 of RFC 9110) of DATA_CHUNK_SIZE bytes, the last one
    shorter, and the progress percentage logged along the way. */
module ChunkPlan {

  /** DATA_CHUNK_SIZE. */
  const DATA_CHUNK_SIZE: int := 1024 * 4

  /** An inclusive byte range `first-last`, as HTTPClient_AddRangeHeader takes it. */
  datatype Range = Range(first: int, last: int)

  function Min(a: int, b: int): int { if a < b then a else b }

  /** The range the loop requests at `start`: `data_end` is `start + DATA_CHUNK_SIZE` cut to `n`, and
      the range ends one byte before it. */
  function ChunkAt(start: int, n: int): Range
  {
    Range(start, Min(start + DATA_CHUNK_SIZE, n) - 1)
  }

  /** The ranges the loop requests from `start` on, while `start < n`. */
  function PlanFrom(start: int, n: int): seq<Range>
    decreases n - start
  {
    if start >= n then [] else [ChunkAt(start, n)] + PlanFrom(start + DATA_CHUNK_SIZE, n)
  }

  /** The whole plan: the loop starts at 0. */
  function Plan(n: int): (r: seq<Range>)
    ensures n <= 0 ==> r == []
  {
    PlanFrom(0, n)
  }

  /** ceil(n / DATA_CHUNK_SIZE) for a positive `n`, and no chunk otherwise. */
  function ChunkCount(n: int): nat
  {
    if n <= 0 then 0 else (n + DATA_CHUNK_SIZE - 1) / DATA_CHUNK_SIZE
  }

  /** Every range of the plan from `start` on begins at `start` or later, inside the image. */
  lemma {:induction false} PlanFromAfter(start: int, n: int)
    ensures forall x :: x in PlanFrom(start, n) ==> start <= x.first < n
    decreases n - start
  {
    if start < n {
      PlanFromAfter(start + DATA_CHUNK_SIZE, n);
    }
  }

  /** The plan from a multiple of the chunk size in closed form. */
  lemma {:induction false} PlanFromClosedForm(k: nat, n: int)
    ensures |PlanFrom(DATA_CHUNK_SIZE * k, n)| == ChunkCount(n - DATA_CHUNK_SIZE * k)
    ensures forall i :: 0 <= i < |PlanFrom(DATA_CHUNK_SIZE * k, n)| ==>
              PlanFrom(DATA_CHUNK_SIZE * k, n)[i] == ChunkAt(DATA_CHUNK_SIZE * (k + i), n)
    decreases n - DATA_CHUNK_SIZE * k
  {
    var start := DATA_CHUNK_SIZE * k;
    if start < n {
      PlanFromClosedForm(k + 1, n);
      assert DATA_CHUNK_SIZE * (k + 1) == start + DATA_CHUNK_SIZE;
      var rest := PlanFrom(start + DATA_CHUNK_SIZE, n);
      assert PlanFrom(start, n) == [ChunkAt(start, n)] + rest;
      forall i | 0 < i < |PlanFrom(start, n)|
        ensures PlanFrom(start, n)[i] == ChunkAt(DATA_CHUNK_SIZE * (k + i), n)
      {
        assert PlanFrom(start, n)[i] == rest[i - 1];
        assert DATA_CHUNK_SIZE * (k + 1 + (i - 1)) == DATA_CHUNK_SIZE * (k + i);
      }
    }
  }

  /** The plan starts at 0 and steps by DATA_CHUNK_SIZE; range i is `[4096 i, min(4096 (i + 1), n) - 1]`;
      every range is non-empty; each begins right after the one before, so the ranges are increasing
      and neither overlap nor leave a gap; the last one ends at byte n - 1; and there are
      ceil(n / 4096) of them. */
  lemma PlanShape(n: int)
    ensures |Plan(n)| == ChunkCount(n)
    ensures forall i :: 0 <= i < |Plan(n)| ==>
              Plan(n)[i].first == DATA_CHUNK_SIZE * i &&
              Plan(n)[i].last == Min(DATA_CHUNK_SIZE * (i + 1), n) - 1
    ensures forall i :: 0 <= i < |Plan(n)| ==> Plan(n)[i].first <= Plan(n)[i].last
    ensures forall i :: 0 < i < |Plan(n)| ==> Plan(n)[i].first == Plan(n)[i - 1].last + 1
    ensures |Plan(n)| > 0 ==> Plan(n)[0].first == 0 && Plan(n)[|Plan(n)| - 1].last == n - 1
  {
    PlanFromClosedForm(0, n);
    var p := Plan(n);
    forall i | 0 <= i < |p|
      ensures p[i].first == DATA_CHUNK_SIZE * i && p[i].last == Min(DATA_CHUNK_SIZE * (i + 1), n) - 1
      ensures p[i].first <= p[i].last
    {
      assert p[i] == ChunkAt(DATA_CHUNK_SIZE * i, n);
      assert DATA_CHUNK_SIZE * i < n by {
        assert i < (n + DATA_CHUNK_SIZE - 1) / DATA_CHUNK_SIZE;
      }
    }
    if |p| > 0 {
      var m := |p| - 1;
      assert m < (n + DATA_CHUNK_SIZE - 1) / DATA_CHUNK_SIZE;
      assert n <= DATA_CHUNK_SIZE * (m + 1);
    }
  }

  /** Every byte of the image lies in exactly one range of the plan, the one numbered b / 4096. */
  lemma PlanCovers(n: int, b: int)
    requires 0 <= b < n
    ensures b / DATA_CHUNK_SIZE < |Plan(n)|
    ensures Plan(n)[b / DATA_CHUNK_SIZE].first <= b <= Plan(n)[b / DATA_CHUNK_SIZE].last
    ensures forall i :: 0 <= i < |Plan(n)| && Plan(n)[i].first <= b <= Plan(n)[i].last ==>
              i == b / DATA_CHUNK_SIZE
  {
    PlanShape(n);
    var p := Plan(n);
    var q := b / DATA_CHUNK_SIZE;
    assert q < (n + DATA_CHUNK_SIZE - 1) / DATA_CHUNK_SIZE;
    forall i | 0 <= i < |p| && p[i].first <= b <= p[i].last
      ensures i == q
    {
      assert DATA_CHUNK_SIZE * i <= b < DATA_CHUNK_SIZE * (i + 1);
    }
  }

  /** The percentage logged at `start`, `start * 100 / n`, computed without overflow: it lies in
      0..99 for every chunk of the plan. */
  function Percent(start: int, n: int): (r: int)
    requires 0 <= start < n
    ensures 0 <= r < 100
  {
    QuotientBelow(start * 100, n, 100);
    start * 100 / n
  }

  /** Percent is `start * 100 / n` rounded down: r percent of the image is at most `start` bytes,
      r + 1 percent is more. */
  lemma PercentRoundsDown(start: int, n: int)
    requires 0 <= start < n
    ensures var r := Percent(start, n);
            r * n <= start * 100 < (r + 1) * n
  {
    QuotientBelow(start * 100, n, 100);
  }

  /** Euclidean division bounds: `a / n` is the largest q with q * n <= a, so a value below m * n
      has quotient below m. */
  lemma QuotientBelow(a: int, n: int, m: int)
    requires 0 <= a < m * n && 0 < n
    ensures 0 <= a / n < m
    ensures (a / n) * n <= a < (a / n + 1) * n
  {
    if a / n >= m {
      MulMonotone(m, a / n, n);
      assert false;
    }
  }

  lemma MulMonotone(a: int, b: int, n: int)
    requires a <= b && 0 <= n
    ensures a * n <= b * n
  {
  }

  /** INT32_MIN..INT32_MAX: `int` on this target. */
  const INT32_MIN: int := -0x8000_0000
  const INT32_MAX: int := 0x7fff_ffff

  /** A product taken modulo 2^32 into the 32-bit int range, as the multiplication wraps on this
      target. */
  function Wrap32(x: int): (r: int)
    ensures INT32_MIN <= r <= INT32_MAX
    ensures INT32_MIN <= x <= INT32_MAX ==> r == x
  {
    (x - INT32_MIN) % 0x1_0000_0000 + INT32_MIN
  }

  /** C's `/` on int: the quotient is truncated toward zero. */
  function CDiv(a: int, b: int): (r: int)
    requires b > 0
    ensures a >= 0 ==> r == a / b
    ensures a < 0 ==> r <= 0
  {
    if a >= 0 then a / b else -((-a) / b)
  }

  /** `data_start * 100 / data_length` as the code computes it: in 32-bit int arithmetic. */
  function PercentAsWritten(start: int, n: int): int
    requires n > 0
  {
    CDiv(Wrap32(start * 100), n)
  }

  /** The largest image size for which `data_start * 100` fits an int at every chunk. */
  const EXACT_PERCENT_SIZE: int := INT32_MAX / 100

  /** The two agree while `start * 100` fits an int, i.e. for images below about 21 MB. */
  lemma PercentAsWrittenBelowOverflow(start: int, n: int)
    requires 0 <= start < n && start * 100 <= INT32_MAX
    ensures PercentAsWritten(start, n) == Percent(start, n)
  {
  }

  /** A 30 000 000-byte image (eight digits pass the length check of the probe) logs progress at
      chunk 5249, whose start is 21 499 904, and there the 32-bit product wraps: the logged
      percentage is negative instead of 71. */
  lemma ProgressOverflow()
    ensures 5249 < |Plan(30_000_000)| && Plan(30_000_000)[5249].first == 21_499_904
    ensures 5249 % 30 == 29
    ensures Percent(21_499_904, 30_000_000) == 71
    ensures PercentAsWritten(21_499_904, 30_000_000) == -71
  {
    PlanShape(30_000_000);
    assert Wrap32(21_499_904 * 100) == -2_144_976_896;
  }
}
