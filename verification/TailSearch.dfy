/** Finding the tail of the WAL: one bounded listing, then an exponential jump and a binary search over 64-bit sequence
    numbers, while other writers keep appending. */
module TailSearch {
  import Lexicographic
  import opened Powers
  import opened WalKeys
  import opened ObjectStore

  const MAX_SEQ := 0xFFFF_FFFF_FFFF_FFFF
  const HEAD_LIST_LIMIT := 1000

  datatype Probe = Found | Missing | Failed

  /** The i-th existence probe of a search, for a sequence number: what it answers. */
  type Prober = (nat, nat) -> Probe

  datatype Outcome = Tail(seqNo: nat) | ProbeFailed

  /** `tails(i)` is the last sequence number in the log when the i-th probe is made. Sequence numbers up to it exist and
      none above it does, and it never falls. */
  ghost predicate Answers(probe: Prober, tails: nat -> nat) {
    && (forall i :: tails(i) <= MAX_SEQ)
    && (forall i, j :: i <= j ==> tails(i) <= tails(j))
    && (forall i: nat, n: nat :: probe(i, n) == Found ==> n <= tails(i))
    && (forall i: nat, n: nat :: probe(i, n) == Missing ==> tails(i) < n)
  }

  /** Some probe of a number above lo, the i-th of the search, failed. */
  ghost predicate FailsAt(probe: Prober, i: nat, lo: nat) {
    exists n :: lo < n <= MAX_SEQ && probe(i, n) == Failed
  }

  ghost predicate NeverFails(probe: Prober) {
    forall i: nat, n: nat :: probe(i, n) != Failed
  }

  ghost predicate Still(tails: nat -> nat) {
    forall i, j :: tails(i) == tails(j)
  }

  /** The floor of the binary logarithm. */
  function Log2(n: nat): nat {
    if n < 2 then 0 else 1 + Log2(n / 2)
  }

  lemma {:induction false} Log2AtLeast(n: nat, k: nat)
    requires Pow2(k) <= n
    ensures k <= Log2(n)
  {
    if k > 0 { Log2AtLeast(n / 2, k - 1); }
  }

  lemma {:induction false} Log2IsFloor(n: nat)
    requires n > 0
    ensures Pow2(Log2(n)) <= n < Pow2(Log2(n) + 1)
  {
    if n >= 2 { Log2IsFloor(n / 2); }
  }

  /** One lengthening of the jump, clamped to the largest sequence number. */
  function Lengthen(high: nat, step: nat): (r: (nat, nat))
    ensures high <= MAX_SEQ && step > 0 ==> high <= r.0 <= MAX_SEQ && r.1 > 0
    ensures high < MAX_SEQ && step > 0 ==> high < r.0
  {
    if step > (MAX_SEQ - high) / 2 then (MAX_SEQ, step) else (high + step * 2, step * 2)
  }

  /** Narrows [low, high) to the tail, in at most k probes when high - low is at most 2^k. */
  method Bisect(low0: nat, high0: nat, probe: Prober, first: nat, ghost tails: nat -> nat, ghost k: nat)
    returns (r: Outcome, probes: nat)
    requires Answers(probe, tails) && first > 0
    requires low0 < high0 <= MAX_SEQ && low0 <= tails(first - 1) && tails(0) < high0
    requires high0 - low0 <= Pow2(k)
    ensures r.Tail? ==> probes > 0 && tails(0) <= r.seqNo <= tails(probes - 1)
    ensures first <= probes <= first + k
    ensures r.ProbeFailed? ==> first < probes && FailsAt(probe, probes - 1, low0)
  {
    var low: nat, high: nat := low0, high0;
    probes := first;
    ghost var left := k;
    while low + 1 < high
      invariant low0 <= low < high <= MAX_SEQ
      invariant first <= probes && low <= tails(probes - 1) && tails(0) < high
      invariant high - low <= Pow2(left) && probes + left <= first + k
      decreases high - low
    {
      assert left > 0;
      var mid := low + (high - low) / 2;
      probes := probes + 1;
      left := left - 1;
      match probe(probes - 1, mid) {
        case Failed => return ProbeFailed, probes;
        case Found => low := mid;
        case Missing => high := mid;
      }
    }
    r := Tail(low);
  }

  datatype Gallop = Bracketed(low: nat, high: nat) | ReachedMax | GallopFailed

  /** Doubles the stride past lo + 1, which exists, until a probe misses: the tail then lies in [low, high). */
  method GallopPast(lo: nat, probe: Prober, ghost tails: nat -> nat)
    returns (r: Gallop, probes: nat, ghost k: nat)
    requires Answers(probe, tails) && lo < MAX_SEQ && lo + 1 <= tails(0)
    ensures k > 0 && probes == k + 1
    ensures r.Bracketed? ==> && r.low < r.high <= MAX_SEQ && r.low <= tails(probes - 1) && tails(0) < r.high
                             && r.high - r.low <= Pow2(k)
    ensures r.ReachedMax? ==> tails(probes - 1) == MAX_SEQ
    ensures r.Bracketed? ==> lo < r.low
    ensures r.GallopFailed? ==> FailsAt(probe, probes - 1, lo)
    ensures lo + Pow2(k) <= tails(probes - 1) + 1
  {
    var step, low, high := 1, lo + 1, lo + 1;
    probes, k := 1, 0;
    while true
      invariant low == high <= MAX_SEQ && low <= tails(probes - 1)
      invariant probes == k + 1 && step == Pow2(k) && low == lo + 2 * step - 1
      invariant high < MAX_SEQ || k == 0
      decreases MAX_SEQ - high
    {
      k := k + 1;
      var longer := Lengthen(high, step);
      high, step := longer.0, longer.1;
      probes := probes + 1;
      match probe(probes - 1, high) {
        case Failed => return GallopFailed, probes, k;
        case Missing => return Bracketed(low, high), probes, k;
        case Found =>
      }
      low := high;
      if high == MAX_SEQ { return ReachedMax, probes, k; }
    }
  }

  /** The jump from lo, which exists or is 0: the answer lies between the tail at the first probe and the tail at the
      last; nothing exceeds 64 bits; and on a log that stands still, d entries past lo, the answer is exact after at
      most 2 * floor(log2(d + 1)) + 1 probes. It fails only when its last probe did. */
  method Jump(lo: nat, probe: Prober, ghost tails: nat -> nat) returns (r: Outcome, probes: nat)
    requires Answers(probe, tails) && lo <= tails(0)
    ensures r.Tail? && probes > 0 ==> tails(0) <= r.seqNo <= tails(probes - 1)
    ensures probes == 0 ==> lo == MAX_SEQ && r == Tail(lo)
    ensures r.Tail? && Still(tails) ==> r.seqNo == tails(0)
    ensures Still(tails) ==> probes <= 2 * Log2(tails(0) - lo + 1) + 1
    ensures r.ProbeFailed? ==> probes > 0 && FailsAt(probe, probes - 1, lo)
    ensures NeverFails(probe) ==> r.Tail?
  {
    if lo == MAX_SEQ { return Tail(lo), 0; }
    probes := 1;
    match probe(0, lo + 1) {
      case Failed => return ProbeFailed, 1;
      case Missing => return Tail(lo), 1;
      case Found =>
    }
    var g, n, k := GallopPast(lo, probe, tails);
    Log2AtLeast(tails(n - 1) - lo + 1, k);
    match g {
      case GallopFailed => return ProbeFailed, n;
      case ReachedMax => return Tail(MAX_SEQ), n;
      case Bracketed(low, high) => r, probes := Bisect(low, high, probe, n, tails, k);
    }
  }

  // ---- The listing

  /** The keys of the store under the WAL prefix are those of sequence numbers 1 .. t. */
  ghost predicate HoldsLog(keys: set<string>, prefix: string, t: nat) {
    && t <= MAX_SEQ
    && (forall n :: 1 <= n <= t ==> SegmentKey(prefix, n) in keys)
    && (forall k :: k in keys && HasPrefix(k, prefix + "/") ==> exists n :: 1 <= n <= t && k == SegmentKey(prefix, n))
  }

  function StartKey(prefix: string, lo: nat): string {
    if lo > 0 then SegmentKey(prefix, lo) else ""
  }

  /** Some keys of the store that match a listing's prefix and start are those of lo + 1 .. t, and no others match. */
  ghost predicate Numbered(key: nat -> string, keys: set<string>, prefix: string, start: string, lo: nat, t: nat) {
    && lo <= t
    && (forall n :: lo < n <= t ==> key(n) in keys && Listed(key(n), prefix, start))
    && (forall k :: k in keys && Listed(k, prefix, start) ==> exists n :: lo < n <= t && k == key(n))
    && (forall m, n :: lo < m <= t && lo < n <= t ==> (Lexicographic.Less(key(m), key(n)) <==> m < n))
    && (forall m, n :: lo < m <= t && lo < n <= t ==> (key(m) == key(n) <==> m == n))
  }

  /** A listing whose first i keys are those of lo + 1 .. lo + i continues with lo + i + 1: were the next key that of a
      larger n, then lo + i + 1 would be in the store, would not be listed, and would sort before n. */
  lemma NextListed(key: nat -> string, out: seq<string>, keys: set<string>, prefix: string, start: string, lo: nat,
                   t: nat, limit: int, i: nat)
    requires Numbered(key, keys, prefix, start, lo, t)
    requires IsListing(out, keys, prefix, start, limit)
    requires i < |out| && lo + i <= t
    requires forall j :: 0 <= j < i ==> out[j] == key(lo + 1 + j)
    ensures lo + i < t && out[i] == key(lo + 1 + i)
  {
    hide Lexicographic.Less, Listed;
    assert out[i] in out;
    var n :| lo < n <= t && out[i] == key(n);
    if i > 0 { assert Lexicographic.Less(out[i - 1], out[i]); }
    if n > lo + 1 + i {
      var k := key(lo + 1 + i);
      forall j | 0 <= j < |out| ensures out[j] != k {
        if j > i { assert Lexicographic.Less(out[i], out[j]); }
      }
    }
  }

  /** A listing is the sequence numbers after lo, in order and without a gap. */
  lemma {:induction false} ListingIs(key: nat -> string, out: seq<string>, keys: set<string>, prefix: string,
                                     start: string, lo: nat, t: nat, limit: int, i: nat)
    requires Numbered(key, keys, prefix, start, lo, t)
    requires IsListing(out, keys, prefix, start, limit)
    requires i <= |out|
    ensures lo + i <= t
    ensures forall j :: 0 <= j < i ==> out[j] == key(lo + 1 + j)
    decreases i
  {
    if i > 0 {
      ListingIs(key, out, keys, prefix, start, lo, t, limit, i - 1);
      NextListed(key, out, keys, prefix, start, lo, t, limit, i - 1);
    }
  }

  lemma ListingCount(key: nat -> string, out: seq<string>, keys: set<string>, prefix: string, start: string, lo: nat,
                     t: nat, limit: int)
    requires Numbered(key, keys, prefix, start, lo, t) && limit > 0
    requires IsListing(out, keys, prefix, start, limit)
    ensures |out| == if t - lo < limit then t - lo else limit
    ensures forall j :: 0 <= j < |out| ==> out[j] == key(lo + 1 + j)
  {
    ListingIs(key, out, keys, prefix, start, lo, t, limit, |out|);
    if lo + |out| < t {
      assert key(lo + |out| + 1) !in out;
    }
  }

  /** A sequence number is listed after lo exactly when it is larger. */
  lemma ListedAfter(prefix: string, lo: nat, n: nat)
    requires lo <= MAX_SEQ && 1 <= n <= MAX_SEQ
    ensures Listed(SegmentKey(prefix, n), prefix + "/", StartKey(prefix, lo)) <==> lo < n
    ensures HasPrefix(SegmentKey(prefix, n), prefix + "/")
  {
    KeyHasPrefix(prefix, n);
    if lo > 0 { KeyOrder(prefix, lo, n); }
  }

  lemma KeyHasPrefix(prefix: string, n: nat)
    ensures HasPrefix(SegmentKey(prefix, n), prefix + "/")
    ensures SegmentKey(prefix, n) != ""
  {
    assert SegmentKey(prefix, n) == (prefix + "/") + (Decimal(n, WIDTH) + SUFFIX);
  }

  function KeyOf(prefix: string): nat -> string {
    (n: nat) => SegmentKey(prefix, n)
  }

  lemma LogIsNumbered(keys: set<string>, prefix: string, lo: nat, t: nat)
    requires HoldsLog(keys, prefix, t) && lo <= t
    ensures Numbered(KeyOf(prefix), keys, prefix + "/", StartKey(prefix, lo), lo, t) && t <= MAX_SEQ
  {
    var key := KeyOf(prefix);
    forall n: nat | 1 <= n <= t
      ensures HasPrefix(key(n), prefix + "/") && (Listed(key(n), prefix + "/", StartKey(prefix, lo)) <==> lo < n)
    {
      ListedAfter(prefix, lo, n);
    }
    forall m: nat, n: nat | lo < m <= t && lo < n <= t
      ensures (Lexicographic.Less(key(m), key(n)) <==> m < n) && (key(m) == key(n) <==> m == n)
    {
      KeyOrder(prefix, m, n);
    }
    forall k | k in keys && Listed(k, prefix + "/", StartKey(prefix, lo))
      ensures exists n :: lo < n <= t && k == key(n)
    {
      var n :| 1 <= n <= t && k == SegmentKey(prefix, n);
      assert k == key(n);
    }
    assert forall n :: 1 <= n <= t ==> SegmentKey(prefix, n) == key(n);
  }

  /** What one bounded listing shows of the log: the sequence numbers after lo, up to the limit. */
  lemma ListingOfLog(out: seq<string>, keys: set<string>, prefix: string, lo: nat, t: nat)
    requires HoldsLog(keys, prefix, t) && lo <= t
    requires IsListing(out, keys, prefix + "/", StartKey(prefix, lo), HEAD_LIST_LIMIT)
    ensures |out| == if t - lo < HEAD_LIST_LIMIT then t - lo else HEAD_LIST_LIMIT
    ensures out != [] ==> ParseSeq(out[|out| - 1]) == Seq(lo + |out|)
  {
    hide IsListing, HoldsLog, ParseSeq, StartKey, SegmentKey, Numbered;
    var key := KeyOf(prefix);
    LogIsNumbered(keys, prefix, lo, t);
    ListingCount(key, out, keys, prefix + "/", StartKey(prefix, lo), lo, t, HEAD_LIST_LIMIT);
    if out != [] {
      var last := |out| - 1;
      assert out[last] == key(lo + 1 + last);
      ParseInvertsKey(prefix, lo + 1 + last);
    }
  }

  /** head(lo): the listing, made when the log ended at `listed`, then the jump. The answer lies between the tail at the
      listing and the tail at the last probe, and is exact on a log that stands still; only a failed probe fails it. */
  method Head(prefix: string, lo: nat, listing: seq<string>, probe: Prober,
              ghost keys: set<string>, ghost listed: nat, ghost tails: nat -> nat)
    returns (r: Outcome, probes: nat)
    requires IsListing(listing, keys, prefix + "/", StartKey(prefix, lo), HEAD_LIST_LIMIT)
    requires HoldsLog(keys, prefix, listed) && lo <= listed <= tails(0)
    requires Answers(probe, tails)
    ensures r.Tail? ==> listed <= r.seqNo && (if probes == 0 then r.seqNo == listed else r.seqNo <= tails(probes - 1))
    ensures r.Tail? && Still(tails) && listed == tails(0) ==> r.seqNo == listed
    ensures Still(tails) ==> probes <= 2 * Log2(tails(0) - lo + 1) + 1
    ensures r.ProbeFailed? ==> probes > 0 && FailsAt(probe, probes - 1, lo)
    ensures NeverFails(probe) ==> r.Tail?
  {
    hide IsListing, HoldsLog, ParseSeq, StartKey, Log2, Still;
    ListingOfLog(listing, keys, prefix, lo, listed);
    if |listing| == 0 { return Tail(lo), 0; }
    var last := ParseSeq(listing[|listing| - 1]);
    if |listing| < HEAD_LIST_LIMIT { return Tail(last.n), 0; }
    r, probes := Jump(last.n, probe, tails);
    Log2Monotone(tails(0) - last.n + 1, tails(0) - lo + 1);
  }

  lemma {:induction false} Log2Monotone(m: nat, n: nat)
    requires m <= n
    ensures Log2(m) <= Log2(n)
  {
    if m >= 2 { Log2Monotone(m / 2, n / 2); }
  }
}
