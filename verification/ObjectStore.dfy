/** The in-memory object store: conditional writes stamped with generations, and sorted, bounded listings. */
module ObjectStore {
  import opened Bytes
  import Lexicographic
  import TopK

  datatype StoreError = NotFound | PreconditionFailed | MalformedGeneration

  datatype Result<+T> = Ok(value: T) | Err(error: StoreError)

  /** A stored object. */
  datatype Object = Object(data: seq<byte>, generation: string)

  /** A write condition; an empty generationMatch asks for none. */
  datatype Condition = Condition(absent: bool, generationMatch: string)

  // ---- Generations

  function HexDigit(d: nat): (c: char)
    requires d < 16
    ensures c != '-' && IsHex(c)
  {
    if d < 10 then '0' + d as char else 'a' + (d - 10) as char
  }

  predicate IsHex(c: char) {
    '0' <= c <= '9' || 'a' <= c <= 'f' || 'A' <= c <= 'F'
  }

  function HexValue(c: char): nat
    requires IsHex(c)
  {
    if '0' <= c <= '9' then (c - '0') as nat
    else if 'a' <= c <= 'f' then (c - 'a') as nat + 10
    else (c - 'A') as nat + 10
  }

  /** strconv.FormatInt(n, 16). */
  function Hex(n: nat): (s: string)
    ensures |s| > 0
    ensures forall i :: 0 <= i < |s| ==> s[i] != '-' && IsHex(s[i])
  {
    (if n < 16 then "" else Hex(n / 16)) + [HexDigit(n % 16)]
  }

  function HexNumber(s: string): nat
    requires forall i :: 0 <= i < |s| ==> IsHex(s[i])
  {
    if s == "" then 0 else 16 * HexNumber(s[..|s| - 1]) + HexValue(s[|s| - 1])
  }

  function Generation(stamp: nat, size: nat): string {
    Hex(stamp) + "-" + Hex(size)
  }

  /** strconv.ParseInt(s, 16, 64) succeeds. */
  predicate ParsesAsInt64(s: string) {
    var digits := if s != "" && (s[0] == '-' || s[0] == '+') then s[1..] else s;
    && digits != ""
    && (forall i :: 0 <= i < |digits| ==> IsHex(digits[i]))
    && HexNumber(digits) < 0x8000_0000_0000_0000 + if s[0] == '-' then 1 else 0
  }

  /** Everything before the first '-'. */
  function UpToDash(s: string): string {
    if s == "" || s[0] == '-' then "" else [s[0]] + UpToDash(s[1..])
  }

  predicate WellFormedGeneration(g: string) {
    var stamp := UpToDash(g);
    |stamp| < |g| && ParsesAsInt64(stamp) && ParsesAsInt64(g[|stamp| + 1..])
  }

  lemma {:induction false} HexNumberOfHex(n: nat)
    ensures HexNumber(Hex(n)) == n
  {
    if n >= 16 { HexNumberOfHex(n / 16); }
    HexNumberSnoc(if n < 16 then "" else Hex(n / 16), n % 16);
  }

  lemma HexNumberSnoc(s: string, d: nat)
    requires d < 16 && forall i :: 0 <= i < |s| ==> IsHex(s[i])
    ensures IsHex(HexDigit(d)) && HexNumber(s + [HexDigit(d)]) == 16 * HexNumber(s) + d
  {
    DigitValue(d);
    var t := s + [HexDigit(d)];
    assert t[..|t| - 1] == s;
  }

  lemma DigitValue(d: nat)
    requires d < 16
    ensures IsHex(HexDigit(d)) && HexValue(HexDigit(d)) == d
  {
  }

  lemma {:induction false} UpToDashOf(s: string, t: string)
    requires forall i :: 0 <= i < |s| ==> s[i] != '-'
    ensures UpToDash(s + "-" + t) == s
  {
    if s == "" {
      assert s + "-" + t == "-" + t;
    } else {
      assert (s + "-" + t)[1..] == s[1..] + "-" + t;
      UpToDashOf(s[1..], t);
    }
  }

  lemma SplitAtDash(s: string, t: string, u: string, v: string)
    requires forall i :: 0 <= i < |s| ==> s[i] != '-'
    requires forall i :: 0 <= i < |u| ==> u[i] != '-'
    requires s + "-" + t == u + "-" + v
    ensures s == u && t == v
  {
    UpToDashOf(s, t);
    UpToDashOf(u, v);
    assert (s + "-" + t)[|s| + 1..] == t;
    assert (u + "-" + v)[|u| + 1..] == v;
  }

  /** Writes with different stamps get different generations, whatever they wrote. */
  lemma GenerationInjective(a: nat, x: nat, b: nat, y: nat)
    requires Generation(a, x) == Generation(b, y)
    ensures a == b && x == y
  {
    SplitAtDash(Hex(a), Hex(x), Hex(b), Hex(y));
    HexNumberOfHex(a);
    HexNumberOfHex(b);
    HexNumberOfHex(x);
    HexNumberOfHex(y);
  }

  lemma HexParses(n: nat)
    requires n < 0x8000_0000_0000_0000
    ensures ParsesAsInt64(Hex(n))
  {
    HexNumberOfHex(n);
    assert Hex(n)[0] != '-' && IsHex(Hex(n)[0]);
  }

  lemma DashedIsWellFormed(s: string, t: string)
    requires ParsesAsInt64(s) && ParsesAsInt64(t)
    requires forall i :: 0 <= i < |s| ==> s[i] != '-'
    ensures WellFormedGeneration(s + "-" + t)
  {
    UpToDashOf(s, t);
    assert (s + "-" + t)[|s| + 1..] == t;
  }

  /** A generation the store has issued is never refused as malformed. */
  lemma GenerationWellFormed(stamp: nat, size: nat)
    requires stamp < 0x8000_0000_0000_0000 && size < 0x8000_0000_0000_0000
    ensures WellFormedGeneration(Generation(stamp, size))
  {
    HexParses(stamp);
    HexParses(size);
    DashedIsWellFormed(Hex(stamp), Hex(size));
  }

  // ---- Listings

  predicate HasPrefix(s: string, prefix: string) {
    |prefix| <= |s| && s[..|prefix|] == prefix
  }

  predicate Listed(key: string, prefix: string, startAfter: string) {
    HasPrefix(key, prefix) && Lexicographic.Less(startAfter, key)
  }

  ghost predicate Ascending(keys: seq<string>) {
    forall i, j :: 0 <= i < j < |keys| ==> Lexicographic.Less(keys[i], keys[j])
  }

  /** The first `limit` matching keys in ascending order (all of them if limit is not positive). */
  ghost predicate IsListing(out: seq<string>, keys: set<string>, prefix: string, startAfter: string, limit: int) {
    && Ascending(out)
    && (forall k :: k in out ==> k in keys && Listed(k, prefix, startAfter))
    && (limit > 0 ==> |out| <= limit)
    && (forall k, i :: k in keys && Listed(k, prefix, startAfter) && k !in out && 0 <= i < |out| ==>
          Lexicographic.Less(out[i], k))
    && ((limit <= 0 || |out| < limit) ==> forall k :: k in keys && Listed(k, prefix, startAfter) ==> k in out)
  }

  /** Inserts k into an ascending list. */
  function Insert(keys: seq<string>, k: string): seq<string> {
    TopK.Insert(Lexicographic.Less, keys, k)
  }

  lemma AscendingCons(x: string, keys: seq<string>)
    requires Ascending(keys) && forall k :: k in keys ==> Lexicographic.Less(x, k)
    ensures Ascending([x] + keys)
  {
  }

  lemma {:induction false} InsertSorts(keys: seq<string>, k: string)
    requires Ascending(keys) && k !in keys
    ensures Ascending(Insert(keys, k))
    ensures forall x :: x in Insert(keys, k) <==> x == k || x in keys
    ensures |Insert(keys, k)| == |keys| + 1
  {
    if keys == [] {
    } else if Lexicographic.Less(k, keys[0]) {
      forall j | 0 < j < |keys| ensures Lexicographic.Less(k, keys[j]) {
        Lexicographic.Transitive(k, keys[0], keys[j]);
      }
      AscendingCons(k, keys);
    } else {
      Lexicographic.Total(k, keys[0]);
      InsertSorts(keys[1..], k);
      assert keys == [keys[0]] + keys[1..];
      AscendingCons(keys[0], Insert(keys[1..], k));
    }
  }

  lemma AllListed(keys: set<string>, prefix: string, startAfter: string) returns (out: seq<string>)
    ensures Ascending(out) && forall k :: k in out <==> k in keys && Listed(k, prefix, startAfter)
  {
    var rest := keys;
    out := [];
    while rest != {}
      invariant rest <= keys && Ascending(out)
      invariant forall k :: k in out <==> k in keys && k !in rest && Listed(k, prefix, startAfter)
      decreases rest
    {
      var k :| k in rest;
      rest := rest - {k};
      if Listed(k, prefix, startAfter) {
        InsertSorts(out, k);
        out := Insert(out, k);
      }
    }
  }

  lemma CutListing(all: seq<string>, keys: set<string>, prefix: string, startAfter: string, limit: int)
    requires Ascending(all) && forall k :: k in all <==> k in keys && Listed(k, prefix, startAfter)
    ensures IsListing(if limit > 0 && |all| > limit then all[..limit] else all, keys, prefix, startAfter, limit)
  {
    if limit > 0 && |all| > limit {
      var out := all[..limit];
      forall k, i | k in all && k !in out && 0 <= i < |out| ensures Lexicographic.Less(out[i], k) {
        var j :| 0 <= j < |all| && all[j] == k;
        assert j >= limit;
      }
    }
  }

  /** The store always has an answer to a listing. */
  lemma ListingExists(keys: set<string>, prefix: string, startAfter: string, limit: int) returns (out: seq<string>)
    ensures IsListing(out, keys, prefix, startAfter, limit)
  {
    out := AllListed(keys, prefix, startAfter);
    CutListing(out, keys, prefix, startAfter, limit);
    if limit > 0 && |out| > limit { out := out[..limit]; }
  }

  class MemStore {
    var objects: map<string, Object>
    var genSeq: nat

    /** Every generation in the store was issued by this store. */
    ghost predicate Valid()
      reads this
    {
      forall k :: k in objects ==> Issued(objects[k].generation)
    }

    ghost predicate Issued(generation: string)
      reads this`genSeq
    {
      exists stamp: nat, size: nat :: 1 <= stamp <= genSeq && generation == Generation(stamp, size)
    }

    constructor ()
      ensures Valid() && objects == map[] && genSeq == 0
    {
      objects, genSeq := map[], 0;
    }

    method Get(key: string) returns (r: Result<Object>)
      ensures r == if key in objects then Ok(objects[key]) else Err(NotFound)
    {
      if key !in objects { return Err(NotFound); }
      r := Ok(objects[key]);
    }

    method Exists(key: string) returns (found: bool)
      ensures found <==> key in objects
    {
      found := key in objects;
    }

    method Delete(key: string) returns (r: Result<()>)
      requires Valid()
      modifies `objects
      ensures Valid()
      ensures old(key in objects) ==> r == Ok(()) && objects == old(objects) - {key}
      ensures old(key !in objects) ==> r == Err(NotFound) && objects == old(objects)
    {
      if key !in objects { return Err(NotFound); }
      objects := objects - {key};
      r := Ok(());
    }

    /** Writes if the condition holds, under a generation that this store has never issued before, deletions
        notwithstanding; otherwise reports why not and changes nothing. */
    method Put(key: string, data: seq<byte>, cond: Condition) returns (r: Result<string>)
      requires Valid()
      modifies this
      ensures Valid()
      ensures var malformed := cond.generationMatch != "" && !WellFormedGeneration(cond.generationMatch);
              var holds := if cond.absent then key !in old(objects)
                           else
                             || cond.generationMatch == ""
                             || (key in old(objects) && old(objects)[key].generation == cond.generationMatch);
              if malformed then r == Err(MalformedGeneration) && unchanged(this)
              else if !holds then r == Err(PreconditionFailed) && unchanged(this)
              else r.Ok? && objects == old(objects)[key := Object(data, r.value)]
                   && !old(Issued(r.value)) && Issued(r.value) && genSeq == old(genSeq) + 1
      ensures forall g :: old(Issued(g)) ==> Issued(g)
    {
      if cond.generationMatch != "" && !WellFormedGeneration(cond.generationMatch) { return Err(MalformedGeneration); }
      if cond.absent {
        if key in objects { return Err(PreconditionFailed); }
      } else if cond.generationMatch != "" {
        if key !in objects || objects[key].generation != cond.generationMatch { return Err(PreconditionFailed); }
      }
      genSeq := genSeq + 1;
      var g := Generation(genSeq, |data|);
      forall stamp: nat, size: nat | stamp <= old(genSeq) ensures g != Generation(stamp, size) {
        if g == Generation(stamp, size) { GenerationInjective(genSeq, |data|, stamp, size); }
      }
      assert Issued(g);
      objects := objects[key := Object(data, g)];
      r := Ok(g);
    }

    method List(prefix: string, startAfter: string, limit: int) returns (out: seq<string>)
      ensures IsListing(out, objects.Keys, prefix, startAfter, limit)
    {
      var rest := objects.Keys;
      out := [];
      while rest != {}
        invariant rest <= objects.Keys
        invariant Ascending(out)
        invariant forall k :: k in out <==> k in objects.Keys && k !in rest && Listed(k, prefix, startAfter)
        decreases rest
      {
        var k :| k in rest;
        rest := rest - {k};
        if Listed(k, prefix, startAfter) {
          InsertSorts(out, k);
          out := Insert(out, k);
        }
      }
      CutListing(out, objects.Keys, prefix, startAfter, limit);
      if limit > 0 && |out| > limit { out := out[..limit]; }
    }
  }
}
