/** The byte loop of `memchr` (src/sys/libs/libk/string/memchr.c) and the i386 one
    that looks at four bytes at a time
    (src/sys/libs/libk/arch/i386/string/memchr.S). */
module Memchr {

  datatype Found = Null | Offset(i: nat)

  /** The first byte from `i` on that equals `c`. */
  function FirstFrom(b: seq<bv8>, c: bv8, i: nat): (r: Found)
    requires i <= |b|
    ensures r.Null? ==> forall k | i <= k < |b| :: b[k] != c
    ensures r.Offset? ==> i <= r.i < |b| && b[r.i] == c && forall k | i <= k < r.i :: b[k] != c
    decreases |b| - i
  {
    if i == |b| then Null else if b[i] == c then Offset(i) else FirstFrom(b, c, i + 1)
  }

  /** Bytes known to differ may be skipped. */
  lemma {:induction false} Skip(b: seq<bv8>, c: bv8, i: nat, j: nat)
    requires i <= j <= |b| && forall k | i <= k < j :: b[k] != c
    ensures FirstFrom(b, c, i) == FirstFrom(b, c, j)
    decreases j - i
  {
    if i < j { Skip(b, c, i + 1, j); }
  }

  /** The byte loop. */
  method ByteLoop(b: array<bv8>, c: bv8, sz: nat) returns (r: Found)
    requires sz <= b.Length
    ensures r == FirstFrom(b[..sz], c, 0)
  {
    var i := 0;
    while i < sz
      invariant i <= sz && FirstFrom(b[..sz], c, 0) == FirstFrom(b[..sz], c, i)
    {
      if b[i] == c {
        return Offset(i);
      }
      i := i + 1;
    }
    return Null;
  }

  // ---------- words ----------

  const ONES: bv32 := 0x0101_0101
  const HIGHS: bv32 := 0x8080_8080

  /** Four bytes as memory holds a word: the lowest one first. */
  function Word(b0: bv8, b1: bv8, b2: bv8, b3: bv8): bv32 {
    (b0 as bv32) | ((b1 as bv32) << 8) | ((b2 as bv32) << 16) | ((b3 as bv32) << 24)
  }

  /** The wanted byte in all four places. */
  function Spread(c: bv8): bv32 {
    var ecx := (c as bv32) | ((c as bv32) << 8);
    (ecx << 16) | ecx
  }

  /** What the loop tests before it goes on without a closer look. */
  predicate MayMatch(word: bv32, spread: bv32) {
    ((word ^ spread) - ONES) & HIGHS != 0
  }

  // A byte that equals the wanted one leaves zeros in its place.

  lemma SameByte0(b0: bv8, b1: bv8, b2: bv8, b3: bv8)
    ensures (Word(b0, b1, b2, b3) ^ Spread(b0)) & 0xFF == 0
  {
  }

  lemma SameByte1(b0: bv8, b1: bv8, b2: bv8, b3: bv8)
    ensures (Word(b0, b1, b2, b3) ^ Spread(b1)) & 0xFF00 == 0
  {
  }

  lemma SameByte2(b0: bv8, b1: bv8, b2: bv8, b3: bv8)
    ensures (Word(b0, b1, b2, b3) ^ Spread(b2)) & 0xFF_0000 == 0
  {
  }

  lemma SameByte3(b0: bv8, b1: bv8, b2: bv8, b3: bv8)
    ensures (Word(b0, b1, b2, b3) ^ Spread(b3)) & 0xFF00_0000 == 0
  {
  }

  /** The lowest zero byte of a word borrows from nothing below and turns into
      255, whose high bit is set. */
  lemma ZeroByte(x: bv32)
    requires x & 0xFF == 0 || x & 0xFF00 == 0 || x & 0xFF_0000 == 0 || x & 0xFF00_0000 == 0
    ensures (x - ONES) & HIGHS != 0
  {
  }

  /** The test never misses a word that holds the byte. */
  lemma NeverMisses(b0: bv8, b1: bv8, b2: bv8, b3: bv8, c: bv8)
    requires b0 == c || b1 == c || b2 == c || b3 == c
    ensures MayMatch(Word(b0, b1, b2, b3), Spread(c))
  {
    hide Word;
    hide Spread;
    if b0 == c {
      SameByte0(b0, b1, b2, b3);
    } else if b1 == c {
      SameByte1(b0, b1, b2, b3);
    } else if b2 == c {
      SameByte2(b0, b1, b2, b3);
    } else {
      SameByte3(b0, b1, b2, b3);
    }
    ZeroByte(Word(b0, b1, b2, b3) ^ Spread(c));
  }

  /** When the test fires: for the byte itself, and for bytes that differ from it by
      more than the highest bit. */
  lemma WhenItFires(b0: bv8, b1: bv8, b2: bv8, b3: bv8, c: bv8)
    ensures Spread(c) == Word(c, c, c, c)
    ensures MayMatch(Word(b0, b1, b2, b3), Word(c, c, c, c)) <==>
      b0 == c || b1 == c || b2 == c || b3 == c
      || b0 ^ c > 0x80 || b1 ^ c > 0x80 || b2 ^ c > 0x80 || b3 ^ c > 0x80
  {
    hide Word;
    hide Spread;
    hide MayMatch;
    SpreadIs(c);
    XorWords(b0, b1, b2, b3, c, c, c, c);
    Matches(Word(b0, b1, b2, b3), Word(c, c, c, c));
    Fires(b0 ^ c, b1 ^ c, b2 ^ c, b3 ^ c);
    XorZero(b0, c);
    XorZero(b1, c);
    XorZero(b2, c);
    XorZero(b3, c);
  }

  predicate HighAfter(x: bv32) { (x - ONES) & HIGHS != 0 }

  lemma Matches(word: bv32, spread: bv32)
    ensures MayMatch(word, spread) <==> HighAfter(word ^ spread)
  {
  }

  lemma XorWords(b0: bv8, b1: bv8, b2: bv8, b3: bv8, c0: bv8, c1: bv8, c2: bv8, c3: bv8)
    ensures Word(b0, b1, b2, b3) ^ Word(c0, c1, c2, c3) == Word(b0 ^ c0, b1 ^ c1, b2 ^ c2, b3 ^ c3)
  {
  }

  lemma Fires(d0: bv8, d1: bv8, d2: bv8, d3: bv8)
    ensures HighAfter(Word(d0, d1, d2, d3)) <==>
      d0 == 0 || d1 == 0 || d2 == 0 || d3 == 0 || d0 > 0x80 || d1 > 0x80 || d2 > 0x80 || d3 > 0x80
  {
  }

  lemma XorZero(a: bv8, c: bv8)
    ensures a ^ c == 0 <==> a == c
  {
  }

  lemma SpreadIs(c: bv8)
    ensures Spread(c) == Word(c, c, c, c)
  {
  }

  /** It may call for a closer look at a word that does not hold the byte. */
  lemma FalseAlarm()
    ensures MayMatch(Word(0x80, 0x81, 0x82, 0x83), Spread(0))
  {
  }

  lemma NeverMissesHere(s: seq<bv8>, c: bv8, i: nat)
    requires i + 4 <= |s|
    ensures !MayMatch(Word(s[i], s[i + 1], s[i + 2], s[i + 3]), Spread(c)) ==> forall k | i <= k < i + 4 :: s[k] != c
  {
    hide Word;
    hide Spread;
    hide MayMatch;
    forall k | i <= k < i + 4 && s[k] == c ensures MayMatch(Word(s[i], s[i + 1], s[i + 2], s[i + 3]), Spread(c)) {
      NeverMisses(s[i], s[i + 1], s[i + 2], s[i + 3], c);
    }
  }

  /** The closer look at the four bytes before offset `i`. */
  method FourBytes(b: array<bv8>, c: bv8, i: nat) returns (r: Found)
    requires 4 <= i <= b.Length
    ensures r.Null? ==> forall k | i - 4 <= k < i :: b[k] != c
    ensures r.Offset? ==> i - 4 <= r.i < i && b[r.i] == c && forall k | i - 4 <= k < r.i :: b[k] != c
  {
    if b[i - 4] == c {
      return Offset(i - 4);
    }
    if b[i - 3] == c {
      return Offset(i - 3);
    }
    if b[i - 2] == c {
      return Offset(i - 2);
    }
    if b[i - 1] == c {
      return Offset(i - 1);
    }
    return Null;
  }

  // The code between the labels. `eax` has advanced to offset `i`, and `esi`
  // bytes are left; the buffer may start at any address.

  /** Up to a word boundary, byte by byte. */
  method Align(b: array<bv8>, address: nat, c: bv8, sz: nat) returns (done: bool, r: Found, i: nat)
    requires 0 < sz <= b.Length
    ensures done ==> r == FirstFrom(b[..sz], c, 0)
    ensures !done ==> i < sz && (address + i) % 4 == 0 && FirstFrom(b[..sz], c, 0) == FirstFrom(b[..sz], c, i)
  {
    i, done := 0, false;
    var esi := sz;
    while (address + i) % 4 != 0
      invariant i + esi == sz && esi > 0 && FirstFrom(b[..sz], c, 0) == FirstFrom(b[..sz], c, i)
      decreases esi
    {
      if b[i] == c {
        return true, Offset(i), i;
      }
      i, esi := i + 1, esi - 1;
      if esi == 0 {
        return true, Null, i;
      }
    }
    r := Null;
  }

  /** Whole words, as long as more than three bytes are left. */
  method Words(b: array<bv8>, address: nat, c: bv8, sz: nat, start: nat) returns (done: bool, r: Found, i: nat)
    requires start <= sz <= b.Length && (address + start) % 4 == 0
    ensures done ==> r == FirstFrom(b[..sz], c, start)
    ensures !done ==> start <= i <= sz && FirstFrom(b[..sz], c, start) == FirstFrom(b[..sz], c, i)
  {
    hide Word;
    hide Spread;
    hide MayMatch;
    hide FirstFrom;
    ghost var s := b[..sz];
    var ecx := Spread(c);
    var esi := sz - start;
    i, done, r := start, false, Null;
    while 3 < esi
      invariant start <= i <= sz && i + esi == sz && (address + i) % 4 == 0
        && FirstFrom(s, c, start) == FirstFrom(s, c, i)
      decreases esi
    {
      var edx := Word(b[i], b[i + 1], b[i + 2], b[i + 3]);
      NeverMissesHere(s, c, i);
      i, esi := i + 4, esi - 4;
      if MayMatch(edx, ecx) {
        var closer := FourBytes(b, c, i);
        if closer.Offset? {
          Skip(s, c, i - 4, closer.i);
          MatchHere(s, c, closer.i);
          return true, closer, i;
        }
      }
      Skip(s, c, i - 4, i);
    }
  }

  lemma MatchHere(b: seq<bv8>, c: bv8, i: nat)
    requires i < |b| && b[i] == c
    ensures FirstFrom(b, c, i) == Offset(i)
  {
  }

  /** The word loop finds what the byte loop finds, wherever the buffer starts. */
  method WordLoop(b: array<bv8>, address: nat, c: bv8, sz: nat) returns (r: Found)
    requires sz <= b.Length
    ensures r == FirstFrom(b[..sz], c, 0)
  {
    if sz == 0 {
      return Null;
    }
    var done, i;
    done, r, i := Align(b, address, c, sz);
    if done {
      return;
    }
    done, r, i := Words(b, address, c, sz, i);
    if done {
      return;
    }
    var esi := sz - i;
    while esi != 0
      invariant i <= sz && i + esi == sz && FirstFrom(b[..sz], c, 0) == FirstFrom(b[..sz], c, i)
      decreases esi
    {
      if b[i] == c {
        return Offset(i);
      }
      i, esi := i + 1, esi - 1;
    }
    return Null;
  }
}
