/**
 The keys stored in every index of the event store: the 8-byte surrogate
 identifier `SmallerIdentifier` (a `u64` counter value written big-endian) and
 the composite `MappingIdentifier` (timestamp plus surrogate), together with
 the hand-written order on the latter and the in-order sequence of a set of
 them, which is how a `BTreeSet<MappingIdentifier>` iterates.
 */
module Keys {

  /** An unsigned 8-bit value, the element type of `[u8; 8]`. */
  type byte = x: int | 0 <= x < 256

  /** 2^64, the number of values of a `u64`. */
  const U64_MODULUS: nat := 0x1_0000_0000_0000_0000

  /** Seconds since the Unix epoch (`Timestamp`, ordered numerically). */
  type Timestamp = nat

  /** Rust's `std::cmp::Ordering`. */
  datatype Ordering = Less | Equal | Greater

  /** `Ordering::reverse`. */
  function Reverse(o: Ordering): Ordering
  {
    match o
    case Less => Greater
    case Equal => Equal
    case Greater => Less
  }

  /** `Ord::cmp` on unsigned integers (`u64`, `Timestamp`). */
  function CompareNat(x: nat, y: nat): Ordering
  {
    if x < y then Less else if x == y then Equal else Greater
  }

  function Pow256(n: nat): (r: nat)
    ensures r > 0
  {
    if n == 0 then 1 else 256 * Pow256(n - 1)
  }

  lemma Pow256Of8()
    ensures Pow256(8) == U64_MODULUS
  {
    assert Pow256(4) == 0x1_0000_0000;
  }

  lemma MulLe(a: nat, b: nat, c: nat)
    requires a <= b
    ensures a * c <= b * c
  {
  }

  /** If `n < 256 * p`, the leading digit `n / p` fits in a byte. */
  lemma DivBelow(n: nat, p: nat)
    requires p > 0 && n < 256 * p
    ensures n / p < 256
  {
  }

  /** Euclidean division by a positive `p` splits `n` into a quotient and a remainder below `p`. */
  lemma DivMod(n: nat, p: nat)
    requires p > 0
    ensures n == (n / p) * p + n % p && 0 <= n % p < p
  {
  }

  /** Euclidean division of `q * p + r` by `p` gives back `q` and `r`. */
  lemma DivModOfSum(q: nat, r: nat, p: nat)
    requires 0 <= r < p
    ensures (q * p + r) / p == q && (q * p + r) % p == r
  {
    var n := q * p + r;
    DivMod(n, p);
    var q' := n / p;
    if q' < q {
      MulLe(q' + 1, q, p);
    } else if q' > q {
      MulLe(q + 1, q', p);
    }
  }

  /** A leading digit `d` followed by a remainder below `p` stays below `256 * p`. */
  lemma DigitBound(d: nat, r: nat, p: nat)
    requires d < 256 && r < p
    ensures d * p + r < 256 * p
  {
    MulLe(d + 1, 256, p);
  }

  /** A smaller leading digit wins whatever the remainders below `p` are. */
  lemma DigitOrder(a: nat, ra: nat, b: nat, rb: nat, p: nat)
    requires a < b && ra < p
    ensures a * p + ra < b * p + rb
  {
    MulLe(a + 1, b, p);
  }

  /** The number a big-endian byte string denotes. */
  function BeValue(s: seq<byte>): nat
  {
    if |s| == 0 then 0 else s[0] * Pow256(|s| - 1) + BeValue(s[1..])
  }

  lemma {:induction false} BeValueBound(s: seq<byte>)
    ensures BeValue(s) < Pow256(|s|)
  {
    if |s| > 0 {
      BeValueBound(s[1..]);
      DigitBound(s[0], BeValue(s[1..]), Pow256(|s| - 1));
    }
  }

  /**
   The `len`-byte big-endian encoding of `n` (`u64::to_be_bytes` when
   `len == 8`): it has `len` bytes and denotes `n`.
   */
  function BeBytes(n: nat, len: nat): (r: seq<byte>)
    requires n < Pow256(len)
    ensures |r| == len && BeValue(r) == n
  {
    if len == 0 then []
    else
      var p := Pow256(len - 1);
      DivBelow(n, p);
      DivMod(n, p);
      var r := [(n / p) as byte] + BeBytes(n % p, len - 1);
      assert r[1..] == BeBytes(n % p, len - 1);
      r
  }

  /** Decoding then encoding a byte string gives it back. */
  lemma {:induction false} BeBytesOfValue(s: seq<byte>)
    ensures BeValue(s) < Pow256(|s|) && BeBytes(BeValue(s), |s|) == s
  {
    BeValueBound(s);
    if |s| > 0 {
      var p := Pow256(|s| - 1);
      BeValueBound(s[1..]);
      DivModOfSum(s[0], BeValue(s[1..]), p);
      BeBytesOfValue(s[1..]);
    }
  }

  /** Two byte strings of one length denoting the same number are equal. */
  lemma BeValueInjective(a: seq<byte>, b: seq<byte>)
    requires |a| == |b| && BeValue(a) == BeValue(b)
    ensures a == b
  {
    BeBytesOfValue(a);
    BeBytesOfValue(b);
  }

  /** The derived `Ord` of a byte array: lexicographic, first byte most significant. */
  function LexCmp(a: seq<byte>, b: seq<byte>): Ordering
    requires |a| == |b|
  {
    if |a| == 0 then Equal
    else if a[0] < b[0] then Less
    else if a[0] > b[0] then Greater
    else LexCmp(a[1..], b[1..])
  }

  /** Byte-wise comparison of equal-length big-endian strings is numeric comparison. */
  lemma {:induction false} LexCmpIsNumeric(a: seq<byte>, b: seq<byte>)
    requires |a| == |b|
    ensures LexCmp(a, b) == CompareNat(BeValue(a), BeValue(b))
  {
    if |a| > 0 {
      var p := Pow256(|a| - 1);
      BeValueBound(a[1..]);
      BeValueBound(b[1..]);
      if a[0] < b[0] {
        DigitOrder(a[0], BeValue(a[1..]), b[0], BeValue(b[1..]), p);
      } else if a[0] > b[0] {
        DigitOrder(b[0], BeValue(b[1..]), a[0], BeValue(a[1..]), p);
      } else {
        LexCmpIsNumeric(a[1..], b[1..]);
      }
    }
  }

  type Bytes8 = s: seq<byte> | |s| == 8 witness [0, 0, 0, 0, 0, 0, 0, 0]

  /** The compact surrogate key standing in for an event identifier inside the indexes. */
  datatype SmallerIdentifier = SmallerIdentifier(bytes: Bytes8)

  /** The counter value a surrogate key encodes. */
  function SidValue(sid: SmallerIdentifier): nat
  {
    BeValue(sid.bytes)
  }

  /** `SmallerIdentifier::new(next_id.to_be_bytes())`. */
  function SidFromCounter(next: nat): (sid: SmallerIdentifier)
    requires next < U64_MODULUS
    ensures SidValue(sid) == next
  {
    Pow256Of8();
    SmallerIdentifier(BeBytes(next, 8))
  }

  /** The derived `Ord` of `SmallerIdentifier`. */
  function SidCmp(a: SmallerIdentifier, b: SmallerIdentifier): Ordering
  {
    LexCmp(a.bytes, b.bytes)
  }

  /**
   Surrogates compare byte-wise exactly as the counter values they were made
   from compare numerically.
   */
  lemma SidOrderMatchesCounter(x: nat, y: nat)
    requires x < U64_MODULUS && y < U64_MODULUS
    ensures SidCmp(SidFromCounter(x), SidFromCounter(y)) == CompareNat(x, y)
  {
    LexCmpIsNumeric(SidFromCounter(x).bytes, SidFromCounter(y).bytes);
  }

  /** Distinct counter values give distinct surrogates, and back. */
  lemma SidFromCounterInjective(x: nat, y: nat)
    requires x < U64_MODULUS && y < U64_MODULUS
    ensures SidFromCounter(x) == SidFromCounter(y) <==> x == y
  {
  }

  /** The composite key stored in every secondary index. */
  datatype MappingIdentifier = MappingIdentifier(timestamp: Timestamp, sid: SmallerIdentifier)

  /** The hand-written `Ord for MappingIdentifier`: newer timestamp first, then surrogate. */
  function Cmp(a: MappingIdentifier, b: MappingIdentifier): Ordering
  {
    var timestampCmp := CompareNat(b.timestamp, a.timestamp);
    if timestampCmp != Equal then timestampCmp else SidCmp(a.sid, b.sid)
  }

  predicate Le(a: MappingIdentifier, b: MappingIdentifier)
  {
    Cmp(a, b) != Greater
  }

  predicate Lt(a: MappingIdentifier, b: MappingIdentifier)
  {
    Cmp(a, b) == Less
  }

  /**
   The order puts the larger timestamp first and, on equal timestamps, the
   surrogate with the smaller counter value first.
   */
  lemma CmpNewestFirst(a: MappingIdentifier, b: MappingIdentifier)
    ensures a.timestamp > b.timestamp ==> Cmp(a, b) == Less
    ensures a.timestamp < b.timestamp ==> Cmp(a, b) == Greater
    ensures a.timestamp == b.timestamp ==> Cmp(a, b) == CompareNat(SidValue(a.sid), SidValue(b.sid))
  {
    LexCmpIsNumeric(a.sid.bytes, b.sid.bytes);
  }

  /** `cmp` answers `Equal` exactly when the derived `Eq` holds. */
  lemma CmpEqualIff(a: MappingIdentifier, b: MappingIdentifier)
    ensures Cmp(a, b) == Equal <==> a == b
  {
    CmpNewestFirst(a, b);
    if Cmp(a, b) == Equal {
      BeValueInjective(a.sid.bytes, b.sid.bytes);
    }
  }

  /** Swapping the arguments reverses the answer. */
  lemma CmpAntisymmetric(a: MappingIdentifier, b: MappingIdentifier)
    ensures Cmp(b, a) == Reverse(Cmp(a, b))
  {
    CmpNewestFirst(a, b);
    CmpNewestFirst(b, a);
  }

  lemma CmpTransitive(a: MappingIdentifier, b: MappingIdentifier, c: MappingIdentifier)
    ensures Le(a, b) && Le(b, c) ==> Le(a, c)
    ensures Lt(a, b) && Le(b, c) ==> Lt(a, c)
    ensures Le(a, b) && Lt(b, c) ==> Lt(a, c)
  {
    CmpNewestFirst(a, b);
    CmpNewestFirst(b, c);
    CmpNewestFirst(a, c);
  }

  /** `m` is the first element of `s` in `cmp` order. */
  predicate IsLeast(m: MappingIdentifier, s: set<MappingIdentifier>)
  {
    m in s && forall x :: x in s ==> Le(m, x)
  }

  lemma {:induction false} LeastExists(s: set<MappingIdentifier>)
    requires s != {}
    ensures exists m :: IsLeast(m, s)
  {
    var y :| y in s;
    CmpEqualIff(y, y);
    if s == {y} {
      assert IsLeast(y, s);
    } else {
      LeastExists(s - {y});
      var m :| IsLeast(m, s - {y});
      if Le(m, y) {
        assert IsLeast(m, s);
      } else {
        CmpAntisymmetric(m, y);
        forall x | x in s
          ensures Le(y, x)
        {
          if x != y {
            CmpTransitive(y, m, x);
          }
        }
        assert IsLeast(y, s);
      }
    }
  }

  lemma LeastUnique(m: MappingIdentifier, n: MappingIdentifier, s: set<MappingIdentifier>)
    requires IsLeast(m, s) && IsLeast(n, s)
    ensures m == n
  {
    CmpAntisymmetric(m, n);
    CmpEqualIff(m, n);
  }

  /** The elements of `s` in `cmp` order: the iteration order of a `BTreeSet`. */
  ghost function InOrderSeq(s: set<MappingIdentifier>): seq<MappingIdentifier>
    decreases |s|
  {
    if s == {} then []
    else
      LeastExists(s);
      var m :| IsLeast(m, s);
      [m] + InOrderSeq(s - {m})
  }

  /** Removing the least element peels it off the front of the in-order sequence. */
  lemma InOrderSeqUnfold(s: set<MappingIdentifier>, m: MappingIdentifier)
    requires IsLeast(m, s)
    ensures InOrderSeq(s) == [m] + InOrderSeq(s - {m})
  {
    LeastExists(s);
    var n :| IsLeast(n, s) && InOrderSeq(s) == [n] + InOrderSeq(s - {n});
    LeastUnique(m, n, s);
  }

  /** The in-order sequence lists every element of `s` exactly once. */
  lemma {:induction false} InOrderSeqMembers(s: set<MappingIdentifier>)
    ensures |InOrderSeq(s)| == |s|
    ensures forall x :: x in s <==> x in InOrderSeq(s)
  {
    if s != {} {
      LeastExists(s);
      var m :| IsLeast(m, s);
      InOrderSeqUnfold(s, m);
      var q := InOrderSeq(s);
      var rest := InOrderSeq(s - {m});
      assert q == [m] + rest;
      InOrderSeqMembers(s - {m});
      forall x
        ensures x in s <==> x in q
      {
        assert x in q <==> x == m || x in rest;
      }
    }
  }

  /** The least element precedes every element of the in-order sequence of the rest. */
  lemma LeastBeforeRest(s: set<MappingIdentifier>, m: MappingIdentifier)
    requires IsLeast(m, s)
    ensures forall j :: 0 <= j < |InOrderSeq(s - {m})| ==> Lt(m, InOrderSeq(s - {m})[j])
  {
    var rest := InOrderSeq(s - {m});
    InOrderSeqMembers(s - {m});
    forall j | 0 <= j < |rest|
      ensures Lt(m, rest[j])
    {
      assert rest[j] in rest;
      CmpEqualIff(m, rest[j]);
    }
  }

  /** The in-order sequence is strictly increasing in `cmp` order. */
  lemma {:induction false} InOrderSeqSorted(s: set<MappingIdentifier>)
    ensures forall i, j :: 0 <= i < j < |InOrderSeq(s)| ==> Lt(InOrderSeq(s)[i], InOrderSeq(s)[j])
  {
    if s != {} {
      LeastExists(s);
      var m :| IsLeast(m, s);
      InOrderSeqUnfold(s, m);
      var q := InOrderSeq(s);
      var rest := InOrderSeq(s - {m});
      assert q == [m] + rest;
      LeastBeforeRest(s, m);
      InOrderSeqSorted(s - {m});
      forall i, j | 0 <= i < j < |q|
        ensures Lt(q[i], q[j])
      {
        assert q[j] == rest[j - 1];
        if i > 0 {
          assert q[i] == rest[i - 1];
        }
      }
    }
  }
}
