/**
 The Internet checksum of an IPv4 header (net/ip.rs; section 3.1 of RFC 791,
 section 2 of RFC 1071). The sum is a 32-bit unsigned number; an addition that
 overflows is an outcome of its own.
 */
module Checksum {
  import opened Wrappers

  const ONES: nat := 0xFFFF

  function Word(hi: byte, lo: byte): (w: nat)
    ensures w <= ONES
  {
    256 * hi + lo
  }

  /** The header as 16-bit big-endian words; an odd last byte is the high half of its word. */
  function Words(h: seq<byte>): (ws: seq<nat>)
    ensures |ws| == (|h| + 1) / 2
    ensures forall i :: 0 <= i < |ws| ==> ws[i] <= ONES
  {
    if h == [] then []
    else if |h| == 1 then [Word(h[0], 0)]
    else [Word(h[0], h[1])] + Words(h[2..])
  }

  function Sum(ws: seq<nat>): nat {
    if ws == [] then 0 else ws[0] + Sum(ws[1..])
  }

  /** The 16-bit value that ones' complement addition gives a sum: 0 only for 0. */
  function Canon(x: nat): (r: nat)
    ensures r <= ONES
    ensures r == 0 <==> x == 0
    ensures x <= ONES ==> r == x
  {
    if x == 0 then 0 else (x - 1) % ONES + 1
  }

  function ChecksumOf(h: seq<byte>): (c: nat)
    ensures c <= ONES
  {
    ONES - Canon(Sum(Words(h)))
  }

  lemma ModShift(m: nat, a: nat)
    ensures (m + ONES * a) % ONES == m % ONES
    decreases a
  {
    if a > 0 {
      ModShift(m, a - 1);
      assert m + ONES * a == m + ONES * (a - 1) + ONES;
    }
  }

  lemma CanonShift(x: nat, a: nat)
    requires x > 0
    ensures Canon(x + ONES * a) == Canon(x)
  {
    ModShift(x - 1, a);
  }

  /** Adding the carries back in keeps the value and shrinks the sum. */
  lemma FoldKeeps(sum: nat)
    requires sum / 0x1_0000 != 0
    ensures Canon(sum % 0x1_0000 + sum / 0x1_0000) == Canon(sum)
    ensures 0 < sum % 0x1_0000 + sum / 0x1_0000 < sum
  {
    var a, b := sum / 0x1_0000, sum % 0x1_0000;
    assert sum == (a + b) + ONES * a;
    CanonShift(a + b, a);
  }

  /** The kernel's two loops: None when the 32-bit sum overflows. */
  method Compute(header: seq<byte>) returns (r: Option<nat>)
    ensures r.None? <==> Sum(Words(header)) >= U32_LIMIT
    ensures r.Some? ==> r.value == ChecksumOf(header)
  {
    var sum: nat, i: nat := 0, 0;
    assert header[0..] == header;
    while i < |header|
      invariant i <= |header| && sum < U32_LIMIT
      invariant sum + Sum(Words(header[i..])) == Sum(Words(header))
    {
      var n := if |header| - i >= 2 then 2 else 1;
      var word: nat := if n == 2 then Word(header[i], header[i + 1]) else Word(header[i], 0);
      assert header[i..][n..] == header[i + n..];
      assert Words(header[i..]) == [word] + Words(header[i + n..]);
      if sum + word >= U32_LIMIT {
        return None;
      }
      sum := sum + word;
      i := i + n;
    }
    while sum / 0x1_0000 != 0
      invariant Canon(sum) == Canon(Sum(Words(header)))
      decreases sum
    {
      FoldKeeps(sum);
      sum := sum % 0x1_0000 + sum / 0x1_0000;
    }
    r := Some(ONES - sum);
  }

  // ---- the overflow bound ----

  lemma {:induction false} SumBound(ws: seq<nat>)
    requires forall i :: 0 <= i < |ws| ==> ws[i] <= ONES
    ensures Sum(ws) <= ONES * |ws|
  {
    if ws != [] {
      SumBound(ws[1..]);
    }
  }

  function Filled(n: nat): (h: seq<byte>)
    ensures |h| == n
  {
    seq(n, _ => 0xFF)
  }

  lemma {:induction false} FilledSum(n: nat)
    ensures Sum(Words(Filled(n))) == ONES * (n / 2) + (if n % 2 == 1 then 0xFF00 else 0)
    decreases n
  {
    if n >= 2 {
      assert Filled(n)[2..] == Filled(n - 2);
      FilledSum(n - 2);
      assert Words(Filled(n)) == [ONES] + Words(Filled(n - 2));
    }
  }

  predicate Fits(h: seq<byte>) {
    Sum(Words(h)) < U32_LIMIT
  }

  /** The sharp bound: no input of n bytes overflows the 32-bit sum exactly for n up to 131074. */
  lemma OverflowBound(n: nat)
    ensures (forall h: seq<byte> :: |h| == n ==> Fits(h)) <==> n <= 131074
  {
    if n <= 131074 {
      forall h: seq<byte> | |h| == n ensures Fits(h) {
        SumBound(Words(h));
      }
    } else {
      FilledSum(n);
      assert |Filled(n)| == n && !Fits(Filled(n));
    }
  }

  // ---- verification of a stored checksum ----

  lemma MultipleOfOnes(x: nat)
    ensures Canon(x) == ONES <==> x > 0 && x % ONES == 0
  {
    if x > 0 {
      var q, m := (x - 1) / ONES, (x - 1) % ONES;
      assert x == ONES * q + (m + 1);
      ModShift(m + 1, q);
    }
  }

  /** A header checks out exactly when its words add up to a positive multiple of 0xFFFF. */
  lemma ZeroIff(h: seq<byte>)
    ensures ChecksumOf(h) == 0 <==> Sum(Words(h)) > 0 && Sum(Words(h)) % ONES == 0
  {
    MultipleOfOnes(Sum(Words(h)));
  }

  function Store(h: seq<byte>, k: nat, w: nat): (r: seq<byte>)
    requires k + 1 < |h| && w <= ONES
    ensures |r| == |h|
  {
    h[k := w / 256][k + 1 := w % 256]
  }

  /** Replacing one aligned word changes the sum by the difference. */
  lemma {:induction false} StoreSum(h: seq<byte>, k: nat, w: nat)
    requires k % 2 == 0 && k + 1 < |h| && w <= ONES
    ensures Sum(Words(Store(h, k, w))) + Word(h[k], h[k + 1]) == Sum(Words(h)) + w
    decreases k
  {
    if k > 0 {
      assert Store(h, k, w)[2..] == Store(h[2..], k - 2, w);
      StoreSum(h[2..], k - 2, w);
    } else {
      assert Store(h, k, w)[2..] == h[2..];
    }
  }

  lemma FillToOnes(x: nat)
    ensures var c := ONES - Canon(x); x + c > 0 && (x + c) % ONES == 0
  {
    if x > 0 {
      var q, m := (x - 1) / ONES, (x - 1) % ONES;
      assert x + (ONES - Canon(x)) == ONES * q + ONES;
      ModShift(ONES, q);
    }
  }

  /**
   Storing the checksum in its zeroed, aligned field makes the header check out;
   up to 131074 bytes neither computation overflows.
   */
  lemma StoredVerifies(h: seq<byte>, k: nat)
    requires k % 2 == 0 && k + 1 < |h| && h[k] == 0 && h[k + 1] == 0
    ensures ChecksumOf(Store(h, k, ChecksumOf(h))) == 0
    ensures |h| <= 131074 ==> Fits(h) && Fits(Store(h, k, ChecksumOf(h)))
  {
    OverflowBound(|h|);
    StoreSum(h, k, ChecksumOf(h));
    FillToOnes(Sum(Words(h)));
    ZeroIff(Store(h, k, ChecksumOf(h)));
  }

  lemma MultiplesApart(x: nat, y: nat)
    requires x % ONES == 0 && y % ONES == 0 && x < y
    ensures y - x >= ONES
  {}

  /** A multiple of 0xFFFF that loses `v` and gains `w` is one again only if these are 0 and 0xFFFF. */
  lemma WordChange(x: nat, y: nat, v: nat, w: nat)
    requires x % ONES == 0 && y + v == x + w && v <= ONES && w <= ONES && v != w
    ensures y % ONES == 0 <==> (v == 0 && w == ONES) || (v == ONES && w == 0)
  {
    if y % ONES == 0 {
      if x < y {
        MultiplesApart(x, y);
      } else {
        MultiplesApart(y, x);
      }
    }
  }

  /** Any change of one aligned word is detected, except between 0x0000 and 0xFFFF. */
  lemma WordErrorDetected(h: seq<byte>, k: nat, w: nat)
    requires k % 2 == 0 && k + 1 < |h| && w <= ONES && ChecksumOf(h) == 0
    requires w != Word(h[k], h[k + 1])
    ensures var v := Word(h[k], h[k + 1]); var changed := Store(h, k, w);
      ChecksumOf(changed) == 0
      <==> ((v == 0 && w == ONES) || (v == ONES && w == 0)) && Sum(Words(changed)) > 0
  {
    StoreSum(h, k, w);
    ZeroIff(h);
    ZeroIff(Store(h, k, w));
    WordChange(Sum(Words(h)), Sum(Words(Store(h, k, w))), Word(h[k], h[k + 1]), w);
  }

  // ---- order of words and of bytes ----

  function Without(s: seq<nat>, i: nat): seq<nat>
    requires i < |s|
  {
    s[..i] + s[i + 1..]
  }

  lemma {:induction false} SumWithout(ws: seq<nat>, i: nat)
    requires i < |ws|
    ensures Sum(ws) == ws[i] + Sum(Without(ws, i))
    decreases i
  {
    if i == 0 {
      assert Without(ws, 0) == ws[1..];
    } else {
      SumWithout(ws[1..], i - 1);
      assert Without(ws, i)[1..] == Without(ws[1..], i - 1);
    }
  }

  lemma SplitOff(s: seq<nat>, i: nat)
    requires i < |s|
    ensures multiset(Without(s, i)) == multiset(s) - multiset{s[i]}
  {
    assert s == s[..i] + [s[i]] + s[i + 1..];
  }

  lemma {:induction false} SumOfPermutation(a: seq<nat>, b: seq<nat>)
    requires multiset(a) == multiset(b)
    ensures Sum(a) == Sum(b)
    decreases |a|
  {
    if a == [] {
      assert |multiset(b)| == 0;
    } else {
      assert a[0] in multiset(b);
      var i :| 0 <= i < |b| && b[i] == a[0];
      SplitOff(a, 0);
      SplitOff(b, i);
      SumOfPermutation(Without(a, 0), Without(b, i));
      SumWithout(a, 0);
      SumWithout(b, i);
    }
  }

  /** The order of the words does not matter, for the checksum and for overflow. */
  lemma WordOrderIrrelevant(a: seq<byte>, b: seq<byte>)
    requires multiset(Words(a)) == multiset(Words(b))
    ensures ChecksumOf(a) == ChecksumOf(b) && (Fits(a) <==> Fits(b))
  {
    SumOfPermutation(Words(a), Words(b));
  }

  function Swap(w: nat): (r: nat)
    requires w <= ONES
    ensures r <= ONES
  {
    w % 256 * 256 + w / 256
  }

  function SwapBytes(h: seq<byte>): (r: seq<byte>)
    requires |h| % 2 == 0
    ensures |r| == |h|
  {
    if h == [] then [] else [h[1], h[0]] + SwapBytes(h[2..])
  }

  /** Swapping the bytes of a word is multiplication by 256 modulo 0xFFFF. */
  lemma SwapIsTimes256(w: nat)
    requires w <= ONES
    ensures 256 * w == Swap(w) + ONES * (w / 256)
  {}

  /** The amount by which 256 times the sum exceeds the sum of the swapped words, over 0xFFFF. */
  function HighSum(h: seq<byte>): nat
    requires |h| % 2 == 0
  {
    if h == [] then 0 else h[0] + HighSum(h[2..])
  }

  lemma {:induction false} SwappedSum(h: seq<byte>)
    requires |h| % 2 == 0
    ensures 256 * Sum(Words(h)) == Sum(Words(SwapBytes(h))) + ONES * HighSum(h)
    decreases |h|
  {
    if h != [] {
      SwappedSum(h[2..]);
      assert SwapBytes(h)[2..] == SwapBytes(h[2..]);
      assert Words(SwapBytes(h)) == [Word(h[1], h[0])] + Words(SwapBytes(h[2..]));
      assert Words(h) == [Word(h[0], h[1])] + Words(h[2..]);
    }
  }

  lemma {:induction false} SumZero(h: seq<byte>)
    requires |h| % 2 == 0
    ensures Sum(Words(h)) == 0 <==> Sum(Words(SwapBytes(h))) == 0
    decreases |h|
  {
    if h != [] {
      SumZero(h[2..]);
      assert SwapBytes(h)[2..] == SwapBytes(h[2..]);
      assert Words(SwapBytes(h)) == [Word(h[1], h[0])] + Words(SwapBytes(h[2..]));
    }
  }

  lemma CanonOfTimes256(x: nat)
    ensures Canon(256 * x) == Swap(Canon(x))
  {
    if x > 0 {
      var q, c := (x - 1) / ONES, Canon(x);
      assert x == ONES * q + c;
      SwapIsTimes256(c);
      assert 256 * x == Swap(c) + ONES * (256 * q + c / 256);
      CanonShift(Swap(c), 256 * q + c / 256);
    }
  }

  lemma CanonOfSwapped(x: nat, y: nat, a: nat)
    requires 256 * x == y + ONES * a && (x == 0 <==> y == 0)
    ensures Canon(y) == Swap(Canon(x))
  {
    CanonOfTimes256(x);
    if y > 0 {
      CanonShift(y, a);
    }
  }

  lemma SwapComplement(w: nat)
    requires w <= ONES
    ensures Swap(ONES - w) == ONES - Swap(w)
  {}

  /** Byte order independence: swapping the bytes of every word swaps those of the checksum. */
  lemma ByteSwap(h: seq<byte>)
    requires |h| % 2 == 0
    ensures ChecksumOf(SwapBytes(h)) == Swap(ChecksumOf(h))
    ensures |h| <= 131074 ==> Fits(h) && Fits(SwapBytes(h))
  {
    OverflowBound(|h|);
    SumZero(h);
    SwappedSum(h);
    CanonOfSwapped(Sum(Words(h)), Sum(Words(SwapBytes(h))), HighSum(h));
    SwapComplement(Canon(Sum(Words(h))));
  }
}
