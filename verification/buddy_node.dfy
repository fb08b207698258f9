/** The nodes that describe free blocks (work/PageFrameAllocator.h). */
module BuddyNodes {

  class BuddyNode {
    var start: nat
    var size: nat
    var next: BuddyNode?

    constructor ()
      ensures start == 0 && size == 0 && next == this
    {
      start, size, next := 0, 0, this;
    }
  }
}
