/** Size classes of small blocks (src/sys/include/kernel/kalloc/hash.h), with
    the structure sizes of the i386 kernel. */
module SmallItemHash {

  import opened Shared

  const SLAB_SIZE: nat := 48
  const MAX_PAGE_SPACE: nat := PAGE_SIZE - SLAB_SIZE
  const MAX_ITEM_SIZE: nat := MAX_PAGE_SPACE / 2
  const MAX_BUCKET_INDEX: nat := IndexFromSize(MAX_ITEM_SIZE)

  function HashSizeSmall(sz: nat): nat
    requires sz > 0
  {
    (sz + 15) / 16 - 1
  }

  function HashSizeMed(sz: nat): nat
    requires sz > 256
  {
    (sz + 127) / 128 - 3
  }

  function IndexSizeSmall(index: nat): nat { (index + 1) * 16 }

  function IndexSizeMed(index: nat): nat { Min(MAX_ITEM_SIZE, (index + 3) * 128) }

  function IndexFromSize(sz: nat): nat
    requires sz > 0
  {
    if sz <= 256 then HashSizeSmall(sz) else HashSizeMed(sz) + 16
  }

  function ItemSizeFromIndex(bucket: nat): (r: nat)
    ensures r > 0
  {
    if bucket < 16 then IndexSizeSmall(bucket) else IndexSizeMed(bucket - 16)
  }

  function ItemCountFromIndex(bucket: nat): nat {
    MAX_PAGE_SPACE / ItemSizeFromIndex(bucket)
  }

  /** The classes: steps of 16 bytes up to 256, steps of 128 up to 1920, and one of
      half the space behind the header, 4048 bytes. */
  lemma ItemSizes(i: nat)
    ensures MAX_BUCKET_INDEX == 29
    ensures i < 16 ==> ItemSizeFromIndex(i) == 16 * (i + 1)
    ensures 16 <= i < 29 ==> ItemSizeFromIndex(i) == 128 * (i - 13)
    ensures i == 29 ==> ItemSizeFromIndex(i) == 2024
    ensures i <= 29 ==>
      ItemCountFromIndex(i) * ItemSizeFromIndex(i) <= 4048 < (ItemCountFromIndex(i) + 1) * ItemSizeFromIndex(i)
  {
    if i <= 29 {
      var size := ItemSizeFromIndex(i);
      Quotient(4048, size, ItemCountFromIndex(i));
      Quotient(4048, size, ItemCountFromIndex(i) + 1);
    }
  }

  /** The class of a size is the first one whose items are large enough. */
  lemma TightFit(sz: nat)
    requires 0 < sz <= MAX_ITEM_SIZE
    ensures IndexFromSize(sz) <= MAX_BUCKET_INDEX
    ensures ItemSizeFromIndex(IndexFromSize(sz)) >= sz
    ensures IndexFromSize(sz) > 0 ==> ItemSizeFromIndex(IndexFromSize(sz) - 1) < sz
  {
  }

  /** The class of an item size is the class it comes from. */
  lemma ClassOfItemSize(bucket: nat)
    requires bucket <= MAX_BUCKET_INDEX
    ensures ItemSizeFromIndex(bucket) <= MAX_ITEM_SIZE && IndexFromSize(ItemSizeFromIndex(bucket)) == bucket
  {
  }

  lemma LargerClass(a: nat, b: nat)
    requires a <= b
    ensures ItemSizeFromIndex(a) <= ItemSizeFromIndex(b)
  {
  }

  /** A slab has room for at least two items, and for no more than the bitmap
      can mark. */
  lemma ItemCounts(bucket: nat)
    requires bucket <= MAX_BUCKET_INDEX
    ensures 2 <= ItemCountFromIndex(bucket) <= 253
    ensures ItemCountFromIndex(bucket) * ItemSizeFromIndex(bucket) <= MAX_PAGE_SPACE
  {
    var size := ItemSizeFromIndex(bucket);
    ClassOfItemSize(bucket);
    LargerClass(0, bucket);
    Quotient(MAX_PAGE_SPACE, size, 2);
    Quotient(MAX_PAGE_SPACE, size, 254);
  }

  lemma Quotient(a: nat, b: nat, q: nat)
    requires b > 0
    ensures a / b * b <= a
    ensures q * b <= a <==> q <= a / b
  {
    var d := a / b;
    assert a == d * b + a % b;
    if q <= d {
      assert q * b <= d * b;
    } else {
      assert q * b >= (d + 1) * b == d * b + b;
    }
  }
}
