/** `Bitmap<256>` on 32-bit cells (src/sys/include/kernel/utils/bitmap.h). */
module BitmapCells {

  import opened PageMath

  const BIT_COUNT: nat := 256
  const CELL_COUNT: nat := BIT_COUNT / WORD
  const NPOS: nat := 0xFFFF_FFFF

  type Bitmap = m: seq<Bits> | |m| == CELL_COUNT witness seq(CELL_COUNT, i => ClearCell())

  function ClearCell(): Bits { seq(WORD, i => false) }

  function Blank(): (m: Bitmap)
    ensures forall i :: 0 <= i < BIT_COUNT ==> !Marked(m, i)
  {
    seq(CELL_COUNT, i => ClearCell())
  }

  /** One set bit: `1 << (index & (CellBits - 1))`. */
  function GetBit(index: nat): Bits {
    seq(WORD, k requires 0 <= k < WORD => k == index % WORD)
  }

  predicate Meet(a: Bits, b: Bits) {
    exists k :: 0 <= k < WORD && a[k] && b[k]
  }

  predicate Marked(m: Bitmap, index: nat) {
    index < BIT_COUNT && Meet(m[index / WORD], GetBit(index))
  }

  function Set(m: Bitmap, index: nat): (r: Bitmap)
    ensures forall i: nat :: Marked(r, i) <==> Marked(m, i) || (i == index && index < BIT_COUNT)
  {
    if index >= BIT_COUNT then m
    else
      var r := m[index / WORD := Or(m[index / WORD], GetBit(index))];
      SetLaw(m, index);
      r
  }

  function Clear(m: Bitmap, index: nat): (r: Bitmap)
    ensures forall i: nat :: Marked(r, i) <==> Marked(m, i) && i != index
  {
    if index >= BIT_COUNT then m
    else
      var r := m[index / WORD := AndNot(m[index / WORD], GetBit(index))];
      ClearLaw(m, index);
      r
  }

  lemma MarkedAt(m: Bitmap, i: nat)
    requires i < BIT_COUNT
    ensures Marked(m, i) <==> m[i / WORD][i % WORD]
  {
    assert GetBit(i)[i % WORD];
  }

  lemma SetLaw(m: Bitmap, index: nat)
    requires index < BIT_COUNT
    ensures var r: Bitmap := m[index / WORD := Or(m[index / WORD], GetBit(index))];
      forall i: nat :: Marked(r, i) <==> Marked(m, i) || i == index
  {
    var r: Bitmap := m[index / WORD := Or(m[index / WORD], GetBit(index))];
    forall i: nat ensures Marked(r, i) <==> Marked(m, i) || i == index {
      if i < BIT_COUNT {
        MarkedAt(m, i);
        MarkedAt(r, i);
        SamePlace(i, index);
      }
    }
  }

  lemma ClearLaw(m: Bitmap, index: nat)
    requires index < BIT_COUNT
    ensures var r: Bitmap := m[index / WORD := AndNot(m[index / WORD], GetBit(index))];
      forall i: nat :: Marked(r, i) <==> Marked(m, i) && i != index
  {
    var r: Bitmap := m[index / WORD := AndNot(m[index / WORD], GetBit(index))];
    forall i: nat ensures Marked(r, i) <==> Marked(m, i) && i != index {
      if i < BIT_COUNT {
        MarkedAt(m, i);
        MarkedAt(r, i);
        SamePlace(i, index);
      }
    }
  }

  lemma SamePlace(i: nat, j: nat)
    ensures i / WORD == j / WORD && i % WORD == j % WORD <==> i == j
  {
  }

  // ---------- the first clear bit ----------

  function Not(a: Bits): Bits {
    seq(WORD, i requires 0 <= i < WORD => !a[i])
  }

  /** The place of the lowest set bit, counted from one; zero if there is none. */
  function LsbIndex(s: seq<bool>): (r: nat)
    ensures r <= |s|
    ensures r == 0 ==> forall i :: 0 <= i < |s| ==> !s[i]
    ensures r > 0 ==> s[r - 1] && forall i :: 0 <= i < r - 1 ==> !s[i]
  {
    if forall i :: 0 <= i < |s| ==> !s[i] then 0
    else if s[0] then 1
    else LsbIndex(s[1..]) + 1
  }

  /** The first clear bit from `i` on. */
  function FirstClearFrom(m: Bitmap, i: nat): (r: nat)
    requires i <= BIT_COUNT
    ensures r == NPOS || i <= r < BIT_COUNT
    ensures forall j :: i <= j < BIT_COUNT && j < r ==> Marked(m, j)
    ensures r != NPOS ==> !Marked(m, r)
    decreases BIT_COUNT - i
  {
    if i == BIT_COUNT then NPOS
    else if !Marked(m, i) then i
    else FirstClearFrom(m, i + 1)
  }

  lemma FirstClearIs(m: Bitmap, r: nat)
    requires (r == NPOS || (r < BIT_COUNT && !Marked(m, r))) && forall j :: 0 <= j < BIT_COUNT && j < r ==> Marked(m, j)
    ensures r == FirstClearFrom(m, 0)
  {
  }

  method FirstClear(m: Bitmap) returns (r: nat)
    ensures r == FirstClearFrom(m, 0)
  {
    var i := 0;
    while i < CELL_COUNT
      invariant i <= CELL_COUNT
      invariant forall j :: 0 <= j < i * WORD ==> Marked(m, j)
    {
      var pos := LsbIndex(Not(m[i]));
      forall j | i * WORD <= j < i * WORD + WORD && (pos == 0 || j < i * WORD + pos - 1) ensures Marked(m, j) {
        assert !Not(m[i])[j % WORD];
        MarkedAt(m, j);
      }
      if pos != 0 {
        MarkedAt(m, i * WORD + (pos - 1));
        FirstClearIs(m, i * WORD + (pos - 1));
        return i * WORD + (pos - 1);
      }
      i := i + 1;
    }
    FirstClearIs(m, NPOS);
    return NPOS;
  }
}
