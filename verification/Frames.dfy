/** The physical page allocator of src/kalloc.c: a free list threaded through
    the free frames themselves. */
module Frames {
  const PGSIZE := 4096

  /** A frame address as `kfree` insists on it: page-aligned, not null. */
  predicate IsFrame(v: int) {
    v > 0 && v % PGSIZE == 0
  }

  /** From `head`, the `next` words trace exactly `frames` and end in null. */
  ghost predicate Chain(head: int, next: map<int, int>, frames: seq<int>) {
    && head == (frames + [0])[0]
    && (forall i :: 0 <= i < |frames| ==> frames[i] in next && next[frames[i]] == (frames + [0])[i + 1])
  }

  ghost predicate FreeListOk(frames: seq<int>) {
    && (forall i :: 0 <= i < |frames| ==> IsFrame(frames[i]))
    && (forall i, j :: 0 <= i < j < |frames| ==> frames[i] != frames[j])
  }

  lemma PushChain(head: int, next: map<int, int>, frames: seq<int>, v: int)
    requires Chain(head, next, frames) && v !in frames
    ensures Chain(v, next[v := head], [v] + frames)
  {
    assert forall i :: 0 < i < |[v] + frames| ==> ([v] + frames)[i] == frames[i - 1];
  }

  lemma PopChain(head: int, next: map<int, int>, frames: seq<int>)
    requires Chain(head, next, frames) && frames != []
    ensures head == frames[0] && head in next && Chain(next[head], next, frames[1..])
  {
    assert head == frames[0];
  }

  class FrameList {
    /** `kmem.freelist` and the `next` word of each frame on the list. */
    var head: int
    var next: map<int, int>
    ghost var frames: seq<int>

    ghost predicate Valid()
      reads this
    {
      Chain(head, next, frames) && FreeListOk(frames)
    }

    constructor ()
      ensures Valid() && frames == []
    {
      head := 0;
      next := map[];
      frames := [];
    }

    /** kfree, of a frame that is not free already. */
    method Kfree(v: int)
      requires Valid() && IsFrame(v) && v !in frames
      modifies this
      ensures Valid() && frames == [v] + old(frames)
    {
      PushChain(head, next, frames, v);
      next := next[v := head];
      head := v;
      frames := [v] + frames;
    }

    /** kalloc: the first free frame, or null. */
    method Kalloc() returns (r: int)
      requires Valid()
      modifies this
      ensures Valid()
      ensures old(frames) == [] ==> r == 0 && frames == []
      ensures old(frames) != [] ==> IsFrame(r) && old(frames) == [r] + frames && r !in frames
    {
      r := head;
      if r != 0 {
        PopChain(head, next, frames);
        head := next[r];
        frames := frames[1..];
      }
    }
  }
}
