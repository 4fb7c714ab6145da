/** The timespec arithmetic of timespec.c and timespec.h. */
module Timespec {
  import opened Bytes

  const NSEC_PER_SEC := 1_000_000_000
  const MSEC_PER_SEC := 1_000
  const USEC_PER_SEC := 1_000_000
  const NSEC_PER_MSEC := 1_000_000
  const NSEC_PER_USEC := 1_000
  const TWO_32 := 0x1_0000_0000
  const TWO_64 := 0x1_0000_0000_0000_0000

  /** C division and remainder: rounded toward zero. */
  function Quot(a: int, b: int): int
    requires b > 0
  {
    if a >= 0 then a / b else -(-a / b)
  }

  function Rem(a: int, b: int): int
    requires b > 0
  {
    a - Quot(a, b) * b
  }

  lemma QuotRem(a: int)
    ensures a == Quot(a, NSEC_PER_SEC) * NSEC_PER_SEC + Rem(a, NSEC_PER_SEC)
    ensures -NSEC_PER_SEC < Rem(a, NSEC_PER_SEC) < NSEC_PER_SEC
    ensures Rem(a, NSEC_PER_SEC) >= 0 <==> a >= 0 || a % NSEC_PER_SEC == 0
  {
    if a < 0 {
      var b := -a;
      assert b == b / NSEC_PER_SEC * NSEC_PER_SEC + b % NSEC_PER_SEC;
    }
  }

  /** Storing a long in an int keeps the low 32 bits. */
  function ToInt32(a: int): int {
    (a + 0x8000_0000) % TWO_32 - 0x8000_0000
  }

  function ToUint64(a: int): nat {
    a % TWO_64
  }

  /** A struct timespec; time_t and long have 64 bits. */
  class Time {
    var sec: int64
    var nsec: int64

    constructor (sec: int64, nsec: int64)
      ensures this.sec == sec && this.nsec == nsec
    {
      this.sec, this.nsec := sec, nsec;
    }

    /** The nanoseconds it stands for. */
    ghost function Total(): int
      reads this
      ensures Total() == sec * 1_000_000_000 + nsec
    {
      sec * NSEC_PER_SEC + nsec
    }

    ghost predicate Normal()
      reads this
    {
      0 <= nsec < NSEC_PER_SEC
    }
  }

  predicate IsLong(v: int) {
    LLONG_MIN <= v <= LLONG_MAX
  }

  /** Normalised structs are determined by what they stand for. */
  lemma NormalUnique(s: int, n: int, s': int, n': int)
    requires 0 <= n < NSEC_PER_SEC && 0 <= n' < NSEC_PER_SEC
    ensures s * NSEC_PER_SEC + n < s' * NSEC_PER_SEC + n' <==> s < s' || (s == s' && n < n')
    ensures s * NSEC_PER_SEC + n == s' * NSEC_PER_SEC + n' <==> s == s' && n == n'
  {
  }

  // ---- Comparison ----

  /** timespec_compare: negative, zero or positive as lhs is earlier, equal or later. */
  function Compare(lhs: Time, rhs: Time): (r: int)
    requires lhs.Normal() && rhs.Normal()
    reads lhs, rhs
    ensures r < 0 <==> lhs.Total() < rhs.Total()
    ensures r == 0 <==> lhs.Total() == rhs.Total()
  {
    NormalUnique(lhs.sec, lhs.nsec, rhs.sec, rhs.nsec);
    if lhs.sec < rhs.sec then -1 else if lhs.sec > rhs.sec then 1 else ToInt32(lhs.nsec - rhs.nsec)
  }

  /** timespec_equal. */
  predicate Equal(a: Time, b: Time)
    requires a.Normal() && b.Normal()
    reads a, b
    ensures Equal(a, b) <==> a.Total() == b.Total()
  {
    NormalUnique(a.sec, a.nsec, b.sec, b.nsec);
    a.sec == b.sec && a.nsec == b.nsec
  }

  /** timespec_valid: the cast to unsigned rejects negative nanoseconds too. */
  predicate IsValid(ts: Time)
    reads ts
    ensures IsValid(ts) <==> ts.sec >= 0 && 0 <= ts.nsec < 1_000_000_000
  {
    ts.sec >= 0 && ToUint64(ts.nsec) < NSEC_PER_SEC
  }

  // ---- Differences ----

  /** The difference fits the fields of the result on the way. */
  ghost predicate Subtractable(a: Time, b: Time)
    reads a, b
  {
    a.Normal() && b.Normal() && a.sec > LLONG_MIN && IsLong(a.sec - b.sec) && IsLong(a.sec - b.sec - 1)
  }

  /** timespec_subtract.  The result is a - b, also when r is the struct a; when r is the struct b and
      not a, the seconds always come out as 0, which is right only for differences below a second. */
  method Subtract(r: Time, a: Time, b: Time)
    requires Subtractable(a, b)
    modifies r
    ensures r.Normal()
    ensures r.Total() == old(a.Total()) - old(b.Total())
      <==> r != b || a == b || 0 <= old(a.Total()) - old(b.Total()) < NSEC_PER_SEC
    ensures r == b && a != b ==> r.sec == 0
  {
    r.sec := a.sec;
    r.nsec := a.nsec - b.nsec;
    if r.nsec < 0 {
      r.nsec := r.nsec + NSEC_PER_SEC;
      r.sec := r.sec - 1;
    }
    r.sec := r.sec - b.sec;
  }

  /** nanosec_diff: end - start, field by field the same as timespec_subtract. */
  method NanosecDiff(start: Time, end: Time) returns (temp: Time)
    requires Subtractable(end, start)
    ensures fresh(temp) && temp.Normal() && temp.Total() == end.Total() - start.Total()
  {
    if end.nsec - start.nsec < 0 {
      temp := new Time(end.sec - start.sec - 1, NSEC_PER_SEC + end.nsec - start.nsec);
    } else {
      temp := new Time(end.sec - start.sec, end.nsec - start.nsec);
    }
  }

  /** nanosec_timeout.  The elapsed time is read as unsigned: a clock that runs backwards looks like
      one that is far ahead. */
  method NanosecTimeout(timestamp: Time, curtime: Time, timeout: nat) returns (r: bool)
    requires Subtractable(curtime, timestamp) && IsLong(curtime.Total() - timestamp.Total()) && timeout < TWO_64
    ensures r <==> (curtime.Total() - timestamp.Total()) % 0x1_0000_0000_0000_0000 >= timeout
    ensures curtime.Total() >= timestamp.Total() ==> (r <==> curtime.Total() - timestamp.Total() >= timeout)
  {
    var diff := new Time(0, 0);
    Subtract(diff, curtime, timestamp);
    var elapsed := ToUint64(diff.sec * NSEC_PER_SEC + diff.nsec);
    r := elapsed >= timeout;
  }

  // ---- Sums ----

  /** The common tail of the timespec_add functions: n nanoseconds and sec seconds more. */
  method Carry(ts: Time, n: int64, sec: int)
    requires IsLong(ts.nsec + n) && IsLong(ts.sec + Quot(ts.nsec + n, NSEC_PER_SEC) + sec)
    modifies ts
    ensures ts.Total() == old(ts.Total()) + n + sec * NSEC_PER_SEC
    ensures -NSEC_PER_SEC < ts.nsec < NSEC_PER_SEC
    ensures ts.Normal() <==> old(ts.nsec) + n >= 0 || (old(ts.nsec) + n) % NSEC_PER_SEC == 0
  {
    QuotRem(ts.nsec + n);
    ts.nsec := ts.nsec + n;
    ts.sec := ts.sec + (Quot(ts.nsec, NSEC_PER_SEC) + sec);
    ts.nsec := Rem(ts.nsec, NSEC_PER_SEC);
  }

  /** The whole seconds in amount, as the int they are stored in, and what is left in nanoseconds. */
  ghost function SecPart(amount: int64, perSec: int): int
    requires perSec > 0
  {
    ToInt32(Quot(amount, perSec))
  }

  ghost function NsecPart(amount: int64, perSec: int, nsPerUnit: int): int
    requires perSec > 0
  {
    (amount - SecPart(amount, perSec) * perSec) * nsPerUnit
  }

  /** No intermediate value leaves the range of long. */
  ghost predicate Addable(ts: Time, amount: int64, perSec: int, nsPerUnit: int)
    requires perSec > 0
    reads ts
  {
    var n := NsecPart(amount, perSec, nsPerUnit);
    && IsLong(n) && IsLong(ts.nsec + n)
    && IsLong(ts.sec + Quot(ts.nsec + n, NSEC_PER_SEC) + SecPart(amount, perSec))
  }

  /** timespec_addms: exact for either sign.  The result may have negative nanoseconds after a
      negative increment, and has none after any other. */
  method AddMs(ts: Time, ms: int64)
    requires ts.Normal() && Addable(ts, ms, MSEC_PER_SEC, NSEC_PER_MSEC)
    modifies ts
    ensures ts.Total() == old(ts.Total()) + ms * 1_000_000
    ensures var x := old(ts.nsec) + NsecPart(ms, MSEC_PER_SEC, NSEC_PER_MSEC);
      ts.Normal() <==> x >= 0 || x % NSEC_PER_SEC == 0
    ensures 0 <= ms < 0x8000_0000 * MSEC_PER_SEC ==> ts.Normal()
  {
    var sec := ToInt32(Quot(ms, MSEC_PER_SEC));
    var rest := ms - sec * MSEC_PER_SEC;
    Carry(ts, rest * NSEC_PER_MSEC, sec);
  }

  /** timespec_addmicros. */
  method AddMicros(ts: Time, micro: int64)
    requires ts.Normal() && Addable(ts, micro, USEC_PER_SEC, NSEC_PER_USEC)
    modifies ts
    ensures ts.Total() == old(ts.Total()) + micro * 1_000
    ensures var x := old(ts.nsec) + NsecPart(micro, USEC_PER_SEC, NSEC_PER_USEC);
      ts.Normal() <==> x >= 0 || x % NSEC_PER_SEC == 0
    ensures 0 <= micro < 0x8000_0000 * USEC_PER_SEC ==> ts.Normal()
  {
    var sec := ToInt32(Quot(micro, USEC_PER_SEC));
    var rest := micro - sec * USEC_PER_SEC;
    Carry(ts, rest * NSEC_PER_USEC, sec);
  }

  /** timespec_addns. */
  method AddNs(ts: Time, ns: int64)
    requires ts.Normal() && Addable(ts, ns, NSEC_PER_SEC, 1)
    modifies ts
    ensures ts.Total() == old(ts.Total()) + ns
    ensures ts.Normal() <==> (var x := old(ts.nsec) + NsecPart(ns, NSEC_PER_SEC, 1); x >= 0 || x % NSEC_PER_SEC == 0)
    ensures 0 <= ns < 0x8000_0000 * NSEC_PER_SEC ==> ts.Normal()
  {
    var sec := ToInt32(Quot(ns, NSEC_PER_SEC));
    var rest := ns - sec * NSEC_PER_SEC;
    Carry(ts, rest, sec);
  }

  /** __iter_div_u64_rem: division by repeated subtraction; the quotient is counted modulo 2^32. */
  method IterDiv(dividend: nat, divisor: nat) returns (ret: nat, remainder: nat)
    requires dividend < TWO_64 && 0 < divisor < TWO_32
    ensures ret == (dividend / divisor) % TWO_32 && remainder == dividend % divisor
  {
    ret, remainder := 0, dividend;
    ghost var q := 0;
    assert 0 * divisor == 0;
    while remainder >= divisor
      invariant dividend == q * divisor + remainder
      invariant ret == q % TWO_32
    {
      remainder := remainder - divisor;
      ret := (ret + 1) % TWO_32;
      assert (q + 1) * divisor == q * divisor + divisor;
      q := q + 1;
    }
    QuotientUnique(dividend, divisor, q, remainder);
  }

  lemma QuotientUnique(a: nat, b: nat, q: nat, r: nat)
    requires b > 0 && a == q * b + r && r < b
    ensures a / b == q && a % b == r
  {
    var d := a / b - q;
    assert a == (a / b) * b + a % b;
    assert d * b == r - a % b;
    MultipleBounds(d, b);
  }

  lemma MultipleBounds(d: int, b: int)
    requires b > 0
    ensures d >= 1 ==> d * b >= b
    ensures d <= -1 ==> d * b <= -b
  {
  }

  /** timespec_add_ns.  Exact if and only if the sum fits 64 bits and the carried seconds fit 32. */
  method AddUnsignedNs(a: Time, ns: nat)
    requires a.Normal() && ns < TWO_64 && a.sec + TWO_32 <= LLONG_MAX
    modifies a
    ensures a.Normal()
    ensures a.Total() == old(a.Total()) + ns
      <==> old(a.nsec) + ns < TWO_64 && (old(a.nsec) + ns) / NSEC_PER_SEC < TWO_32
  {
    var carry, rest := IterDiv(ToUint64(a.nsec + ns), NSEC_PER_SEC);
    a.sec := a.sec + carry;
    a.nsec := rest;
  }

  /** Both ways of adding nanoseconds leave the same struct wherever both are exact. */
  method AddBothWays(a: Time, b: Time, ns: nat)
    requires a != b && a.Normal() && b.Normal() && a.sec == b.sec && a.nsec == b.nsec
    requires ns < 0x8000_0000 * NSEC_PER_SEC && a.sec + TWO_32 <= LLONG_MAX
    modifies a, b
    ensures a.sec == b.sec && a.nsec == b.nsec
  {
    AddNs(a, ns);
    AddUnsignedNs(b, ns);
    NormalUnique(a.sec, a.nsec, b.sec, b.nsec);
  }
}
