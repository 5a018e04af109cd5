/** Byte-wise string order, as Go compares strings and the store sorts its keys. */
module Lexicographic {

  predicate Less(s: string, t: string) {
    t != [] && (s == [] || s[0] < t[0] || (s[0] == t[0] && Less(s[1..], t[1..])))
  }

  /** The strings agree up to position n, and there the first one ends or has the smaller character. */
  ghost predicate DiffersAt(s: string, t: string, n: nat) {
    n <= |s| && n < |t| && s[..n] == t[..n] && (n == |s| || s[n] < t[n])
  }

  lemma {:induction false} LessDiffers(s: string, t: string) returns (n: nat)
    requires Less(s, t)
    ensures DiffersAt(s, t, n)
  {
    if s == [] || s[0] < t[0] {
      n := 0;
    } else {
      var m := LessDiffers(s[1..], t[1..]);
      n := m + 1;
      assert s[..n] == [s[0]] + s[1..][..n - 1] && t[..n] == [t[0]] + t[1..][..n - 1];
    }
  }

  lemma {:induction false} DiffersLess(s: string, t: string, n: nat)
    requires DiffersAt(s, t, n)
    ensures Less(s, t)
    decreases n
  {
    if n > 0 {
      assert s[0] == s[..n][0] == t[..n][0] == t[0];
      assert s[1..][..n - 1] == s[..n][1..] && t[1..][..n - 1] == t[..n][1..];
      DiffersLess(s[1..], t[1..], n - 1);
    }
  }

  /** The order of Go's string comparison: the first difference decides, and a proper prefix comes first. */
  lemma FirstDifferenceDecides(s: string, t: string)
    ensures Less(s, t) <==> exists n :: DiffersAt(s, t, n)
  {
    if Less(s, t) {
      var n := LessDiffers(s, t);
      assert DiffersAt(s, t, n);
    }
    if n :| DiffersAt(s, t, n) { DiffersLess(s, t, n); }
  }

  lemma {:induction false} Irreflexive(s: string)
    ensures !Less(s, s)
  {
    if s != [] { Irreflexive(s[1..]); }
  }

  lemma {:induction false} Transitive(s: string, t: string, u: string)
    requires Less(s, t) && Less(t, u)
    ensures Less(s, u)
  {
    if s != [] && s[0] == t[0] == u[0] { Transitive(s[1..], t[1..], u[1..]); }
  }

  lemma {:induction false} Total(s: string, t: string)
    ensures Less(s, t) || Less(t, s) || s == t
  {
    if s != [] && t != [] && s[0] == t[0] {
      Total(s[1..], t[1..]);
      if s[1..] == t[1..] { assert s == [s[0]] + s[1..] && t == [t[0]] + t[1..]; }
    }
  }

  lemma Asymmetric(s: string, t: string)
    requires Less(s, t)
    ensures !Less(t, s) && s != t
  {
    if Less(t, s) { Transitive(s, t, s); }
    Irreflexive(s);
  }

  /** A shared prefix does not matter. */
  lemma {:induction false} SharedPrefix(p: string, s: string, t: string)
    ensures Less(p + s, p + t) == Less(s, t)
  {
    if p == [] {
      assert p + s == s && p + t == t;
    } else {
      assert (p + s)[1..] == p[1..] + s && (p + t)[1..] == p[1..] + t;
      SharedPrefix(p[1..], s, t);
    }
  }

  /** Between strings of one length the first difference decides, whatever follows. */
  lemma {:induction false} SameLength(s: string, t: string, x: string, y: string)
    requires |s| == |t|
    ensures Less(s + x, t + y) == (Less(s, t) || (s == t && Less(x, y)))
  {
    if s == [] {
      assert s + x == x && t + y == y;
    } else {
      assert (s + x)[1..] == s[1..] + x && (t + y)[1..] == t[1..] + y;
      SameLength(s[1..], t[1..], x, y);
      assert s == [s[0]] + s[1..] && t == [t[0]] + t[1..];
    }
  }
}
