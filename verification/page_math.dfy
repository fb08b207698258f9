/** Size arithmetic of work/math.h and work/PageFrameAllocator.h on 32-bit words
    (SYSTEM_BITS is 32). */
module PageMath {
  import opened Powers
  import opened Shared

  const WORD: nat := 32
  const MIN_BUCKET: nat := 12
  const BUCKETS: nat := WORD - MIN_BUCKET

  // ---------- words as bits, least significant first ----------

  type Bits = s: seq<bool> | |s| == WORD witness seq(WORD, i => false)

  function Bit(b: Bits, i: nat): bool { i < WORD && b[i] }

  function Or(a: Bits, b: Bits): (r: Bits)
    ensures forall i :: 0 <= i < WORD ==> r[i] == (a[i] || b[i])
  {
    seq(WORD, i requires 0 <= i < WORD => a[i] || b[i])
  }

  function AndNot(a: Bits, b: Bits): (r: Bits)
    ensures forall i :: 0 <= i < WORD ==> r[i] == (a[i] && !b[i])
  {
    seq(WORD, i requires 0 <= i < WORD => a[i] && !b[i])
  }

  function Shr(a: Bits, n: nat): (r: Bits)
    ensures forall i :: 0 <= i < WORD ==> r[i] == Bit(a, i + n)
  {
    seq(WORD, i requires 0 <= i < WORD => Bit(a, i + n))
  }

  function Value(s: seq<bool>): nat {
    if s == [] then 0 else (if s[0] then 1 else 0) + 2 * Value(s[1..])
  }

  function Digits(v: nat, n: nat): (s: seq<bool>)
    ensures |s| == n
  {
    if n == 0 then [] else [v % 2 == 1] + Digits(v / 2, n - 1)
  }

  lemma {:induction false} ValueOfDigits(v: nat, n: nat)
    requires v < Pow2(n)
    ensures Value(Digits(v, n)) == v
  {
    if n > 0 {
      ValueOfDigits(v / 2, n - 1);
      assert Digits(v, n)[1..] == Digits(v / 2, n - 1);
    }
  }

  /** `h` is the highest set bit. */
  ghost predicate Highest(s: seq<bool>, h: nat) {
    h < |s| && s[h] && forall i :: h < i < |s| ==> !s[i]
  }

  lemma {:induction false} HighestBounds(s: seq<bool>, h: nat)
    requires Highest(s, h)
    ensures Pow2(h) <= Value(s) < Pow2(h + 1)
    ensures (forall i :: 0 <= i < h ==> !s[i]) ==> Value(s) == Pow2(h)
  {
    var t := s[1..];
    if h == 0 {
      Clear(t);
    } else {
      assert Highest(t, h - 1);
      HighestBounds(t, h - 1);
      if forall i :: 0 <= i < h ==> !s[i] {
        assert forall i :: 0 <= i < h - 1 ==> !t[i];
      }
    }
  }

  lemma {:induction false} Clear(s: seq<bool>)
    requires forall i :: 0 <= i < |s| ==> !s[i]
    ensures Value(s) == 0
  {
    if s != [] {
      assert forall i :: 0 <= i < |s[1..]| ==> !s[1..][i];
      Clear(s[1..]);
    }
  }

  lemma {:induction false} HasHighest(s: seq<bool>) returns (h: nat)
    requires Value(s) > 0
    ensures Highest(s, h)
  {
    if s[1..] != [] && Value(s[1..]) > 0 {
      h := HasHighest(s[1..]);
      h := h + 1;
      assert forall i :: h < i < |s| ==> s[i] == s[1..][i - 1];
    } else {
      h := 0;
      forall i | 0 < i < |s| ensures !s[i] {
        if s[i] { ValuePositive(s[1..], i - 1); }
      }
    }
  }

  lemma {:induction false} ValuePositive(s: seq<bool>, i: nat)
    requires i < |s| && s[i]
    ensures Value(s) > 0
  {
    if i > 0 { ValuePositive(s[1..], i - 1); }
  }

  // ---------- math.h ----------

  /** Bit `h` and the `w - 1` bits below it are set, all above are clear. */
  ghost predicate Smeared(v: Bits, h: nat, w: nat) {
    h < WORD && (forall i :: h < i < WORD ==> !v[i]) && (forall i :: 0 <= i <= h < i + w ==> v[i])
  }

  lemma SmearStep(v: Bits, h: nat, w: nat)
    requires Smeared(v, h, w) && w > 0
    ensures Smeared(Or(v, Shr(v, w)), h, 2 * w)
  {
    var u := Or(v, Shr(v, w));
    forall i | h < i < WORD ensures !u[i] { assert !v[i] && !Bit(v, i + w); }
    forall i | 0 <= i <= h < i + 2 * w ensures u[i] {
      if h < i + w { assert v[i]; } else { assert v[i + w]; }
    }
  }

  lemma KeepTop(v: Bits, h: nat)
    requires Smeared(v, h, WORD)
    ensures var b := AndNot(v, Shr(v, 1)); Highest(b, h) && forall i :: 0 <= i < h ==> !b[i]
  {
    var b := AndNot(v, Shr(v, 1));
    assert v[h] && !Bit(v, h + 1);
    forall i | 0 <= i < h ensures !b[i] { assert v[i + 1]; }
  }

  lemma StayClear(v: Bits, w: nat)
    requires forall i :: 0 <= i < WORD ==> !v[i]
    ensures Or(v, Shr(v, w)) == v && AndNot(v, Shr(v, w)) == v
  {
  }

  /** Only the highest bit set is left: the top bit is smeared downwards, then
      everything below it is masked off. */
  method HighBit(a: nat) returns (r: nat)
    requires a < Pow2(WORD)
    ensures a == 0 ==> r == 0
    ensures a > 0 ==> exists h: nat :: h < WORD && r == Pow2(h) && Pow2(h) <= a < Pow2(h + 1)
  {
    hide Value; hide Digits; hide Or; hide Shr; hide AndNot; hide Smeared; hide Highest; hide Pow2;
    ValueOfDigits(a, WORD);
    var v: Bits := Digits(a, WORD);
    ghost var h := TopBit(v);
    ghost var v0 := v;
    v := Or(v, Shr(v, 1));
    ghost var v1 := v;
    v := Or(v, Shr(v, 2));
    ghost var v2 := v;
    v := Or(v, Shr(v, 4));
    ghost var v3 := v;
    v := Or(v, Shr(v, 8));
    ghost var v4 := v;
    v := Or(v, Shr(v, 16));
    ghost var v5 := v;
    var b := AndNot(v, Shr(v, 1));
    r := Value(b);
    if a > 0 {
      SmearStep(v0, h, 1); SmearStep(v1, h, 2); SmearStep(v2, h, 4); SmearStep(v3, h, 8); SmearStep(v4, h, 16);
      KeepTop(v5, h);
      HighestBounds(b, h);
    } else {
      StayClear(v0, 1); StayClear(v0, 2); StayClear(v0, 4); StayClear(v0, 8); StayClear(v0, 16);
    }
  }

  lemma TopBit(v: Bits) returns (h: nat)
    ensures Value(v) > 0 ==> Smeared(v, h, 1) && h < WORD && Pow2(h) <= Value(v) < Pow2(h + 1)
    ensures Value(v) == 0 ==> forall i :: 0 <= i < WORD ==> !v[i]
  {
    if Value(v) > 0 {
      h := HasHighest(v);
      HighestBounds(v, h);
    } else {
      h := 0;
      ClearConverse(v);
    }
  }

  lemma {:induction false} ClearConverse(s: seq<bool>)
    requires Value(s) == 0
    ensures forall i :: 0 <= i < |s| ==> !s[i]
  {
    forall i | 0 <= i < |s| ensures !s[i] {
      if s[i] { ValuePositive(s, i); }
    }
  }

  /** The smallest power of two that is not below `v` is `2^k`. */
  ghost predicate Ceiling(v: nat, k: nat) {
    v <= Pow2(k) && (k > 0 ==> Pow2(k - 1) < v)
  }

  lemma Pow2One()
    ensures Pow2(0) == 1 && Pow2(1) == 2
  {
  }

  /** Rounds up to a power of two, if that is a word; zero and everything above
      the highest power become zero. */
  method ToPow2(v: nat) returns (r: nat)
    requires v < Pow2(WORD)
    ensures r == 0 <==> v == 0 || v > Pow2(WORD - 1)
    ensures r != 0 ==> exists k: nat :: k < WORD && r == Pow2(k) && Ceiling(v, k)
  {
    hide Pow2;
    var hi := HighBit(v);
    if v > 0 {
      ghost var h: nat :| h < WORD && hi == Pow2(h) && Pow2(h) <= v < Pow2(h + 1);
      RoundUp(v, h);
    }
    r := if hi < v then ShiftOne(hi) else hi;
  }

  /** `v << 1` on a word. */
  function ShiftOne(v: nat): nat { 2 * v % Pow2(WORD) }

  lemma ShiftPow2(n: nat)
    requires n < WORD
    ensures ShiftOne(0) == 0 && ShiftOne(Pow2(n)) == if n < WORD - 1 then Pow2(n + 1) else 0
  {
    hide Pow2;
    Pow2Add(1, n);
    Pow2One();
    Pow2Monotone(0, WORD);
    var m, top := 2 * Pow2(n), Pow2(WORD);
    if n < WORD - 1 {
      Pow2Monotone(n + 1, WORD);
      DivIs(m, top, 0, m);
    } else {
      DivIs(m, top, 1, 0);
    }
    DivIs(0, top, 0, 0);
  }

  lemma RoundUp(v: nat, h: nat)
    requires h < WORD && Pow2(h) <= v < Pow2(h + 1)
    ensures Pow2(h) > 0 && (Pow2(h) == v ==> Ceiling(v, h) && v <= Pow2(WORD - 1))
    ensures Pow2(h) < v && h == WORD - 1 ==> ShiftOne(Pow2(h)) == 0
    ensures Pow2(h) < v && h < WORD - 1 ==>
      ShiftOne(Pow2(h)) == Pow2(h + 1) && Ceiling(v, h + 1) && v <= Pow2(WORD - 1)
  {
    hide Pow2;
    hide ShiftOne;
    ShiftPow2(h);
    Pow2One();
    Pow2Monotone(h, WORD - 1);
    Pow2Monotone(0, h);
    if h > 0 { Pow2Monotone(h - 1, h); }
    if h < WORD - 1 { Pow2Monotone(h + 1, WORD - 1); }
  }

  /** The logarithm, rounded up, by doubling `l` until it reaches `v`. */
  function SubLog2(v: nat, l: nat, i: nat): nat
    requires 0 < l && v <= Pow2(WORD - 1)
    decreases v - l
  {
    if l >= v then i else SubLog2(v, 2 * l, i + 1)
  }

  function Log2(v: nat): nat
    requires v <= Pow2(WORD - 1)
  {
    SubLog2(v, 1, 0)
  }

  /** What `l` is after `n` rounds, on a word. */
  function Doubled(n: nat): nat { if n == 0 then 1 else ShiftOne(Doubled(n - 1)) }

  lemma {:induction false} DoubledIs(n: nat)
    ensures Doubled(n) == if n < WORD then Pow2(n) else 0
  {
    hide Pow2;
    hide ShiftOne;
    Pow2One();
    if n > 0 {
      DoubledIs(n - 1);
      ShiftPow2(if n <= WORD then n - 1 else 0);
    }
  }

  /** The doubling comes to an end exactly for arguments up to the highest power
      of two: beyond, `l` shifts out to zero and stays there. */
  lemma Log2Ends(v: nat)
    requires v < Pow2(WORD)
    ensures (exists n: nat :: Doubled(n) >= v) <==> v <= Pow2(WORD - 1)
  {
    hide Pow2;
    DoubledIs(WORD - 1);
    if n: nat :| Doubled(n) >= v {
      DoubledIs(n);
      if n < WORD { Pow2Monotone(n, WORD - 1); }
    }
  }

  lemma {:induction false} Log2From(v: nat, i: nat, k: nat)
    requires i <= k < WORD && Ceiling(v, k) && v <= Pow2(WORD - 1)
    ensures SubLog2(v, Pow2(i), i) == k
    decreases k - i
  {
    if i < k {
      Pow2Monotone(i, k - 1);
      Log2From(v, i + 1, k);
    }
  }

  /** Whatever is rounded up to `2^k` has logarithm `k`. */
  lemma Log2Ceiling(v: nat, k: nat)
    requires Ceiling(v, k) && k < WORD
    ensures v <= Pow2(WORD - 1) && Log2(v) == k
  {
    Pow2Monotone(k, WORD - 1);
    Log2From(v, 0, k);
  }

  lemma Log2Exact(k: nat)
    requires k < WORD
    ensures Pow2(k) <= Pow2(WORD - 1) && Log2(Pow2(k)) == k
  {
    if k > 0 { Pow2Monotone(k - 1, k); }
    Log2Ceiling(Pow2(k), k);
  }

  // ---------- PageFrameAllocator.h ----------

  /** The size of the blocks in bucket `order`. */
  function BlockSize(order: nat): nat { PAGE_SIZE * Pow2(order) }

  lemma BlockSizeIsPow2(order: nat)
    ensures BlockSize(order) == Pow2(MIN_BUCKET + order) > 0 && BlockSize(order + 1) == 2 * BlockSize(order)
  {
    Pow2Add(MIN_BUCKET, order);
    assert Pow2(12) == 4096;
  }

  /** `Log2(pow2) - MinBucket` */
  function GetOrder(pow2: nat): int
    requires pow2 <= Pow2(WORD - 1)
  {
    Log2(pow2) - MIN_BUCKET
  }

  lemma GetOrderOfBlock(order: nat)
    requires order < BUCKETS
    ensures BlockSize(order) <= Pow2(WORD - 1) && GetOrder(BlockSize(order)) == order
  {
    BlockSizeIsPow2(order);
    Log2Exact(MIN_BUCKET + order);
  }

  /** The order that `Allocate` picks is the least whose blocks are big enough. */
  lemma OrderFits(requested: nat, k: nat)
    requires requested >= PAGE_SIZE && k < WORD && Ceiling(requested, k)
    ensures Pow2(k) <= Pow2(WORD - 1) && GetOrder(Pow2(k)) >= 0
    ensures var order := GetOrder(Pow2(k)) as nat;
      order < BUCKETS && requested <= BlockSize(order) && (order > 0 ==> BlockSize(order - 1) < requested)
  {
    assert Pow2(11) == 2048;
    Log2Exact(k);
    if k < MIN_BUCKET { Pow2Monotone(k, 11); }
    BlockSizeIsPow2(k - MIN_BUCKET);
    if k > MIN_BUCKET { BlockSizeIsPow2(k - MIN_BUCKET - 1); }
  }
}
