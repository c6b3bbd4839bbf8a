// The scoped pool allocator (src/pool.c).
//
// A process-wide stack of pool ids and a registry of live allocations, each
// tagged with the id that was on top of the stack when it was made.
// `cten_free(id)` releases every allocation tagged `id` and compacts the
// registry through a swap buffer. The vectors of the source become `seq`
// fields; the block that `malloc` returns is a parameter of `Malloc`, and the
// blocks handed back to `free` are recorded in the ghost log `released`.

module Pool {

  /** PoolId (include/cten.h:93). */
  type PoolId = int

  /** An opaque block obtained from malloc. */
  type Block = nat

  /** A registry entry: a block and the pool id stored in its prefix. */
  datatype Entry = Entry(tag: PoolId, block: Block)

  /** The entries that survive `cten_free(id)`, in registry order. */
  function Kept(entries: seq<Entry>, id: PoolId): seq<Entry>
  {
    if entries == [] then []
    else
      var last := entries[|entries| - 1];
      Kept(entries[..|entries| - 1], id) + (if last.tag == id then [] else [last])
  }

  /** The blocks `cten_free(id)` passes to free, in registry order. */
  function Freed(entries: seq<Entry>, id: PoolId): seq<Block>
  {
    if entries == [] then []
    else
      var last := entries[|entries| - 1];
      Freed(entries[..|entries| - 1], id) + (if last.tag == id then [last.block] else [])
  }

  /** The blocks of a run of entries, in order. */
  function Blocks(entries: seq<Entry>): (bs: seq<Block>)
    ensures |bs| == |entries|
    ensures forall i :: 0 <= i < |entries| ==> bs[i] == entries[i].block
  {
    seq(|entries|, i requires 0 <= i < |entries| => entries[i].block)
  }

  /** After `cten_free(id)` no entry carries tag `id`, and an entry is kept
      exactly when it was present with another tag. */
  lemma {:induction false} KeptMembers(entries: seq<Entry>, id: PoolId)
    ensures forall e :: e in Kept(entries, id) <==> e in entries && e.tag != id
  {
    if entries != [] {
      var init := entries[..|entries| - 1];
      KeptMembers(init, id);
      assert entries == init + [entries[|entries| - 1]];
    }
  }

  /** Compaction distributes over concatenation: entries with other tags keep
      their relative order. */
  lemma {:induction false} KeptAppend(xs: seq<Entry>, ys: seq<Entry>, id: PoolId)
    ensures Kept(xs + ys, id) == Kept(xs, id) + Kept(ys, id)
    decreases |ys|
  {
    if ys == [] {
      assert xs + ys == xs;
    } else {
      var init := ys[..|ys| - 1];
      assert (xs + ys)[..|xs + ys| - 1] == xs + init;
      KeptAppend(xs, init, id);
    }
  }

  /** A registry with no entry tagged `id` is left exactly as it is. */
  lemma {:induction false} KeptUntouched(entries: seq<Entry>, id: PoolId)
    requires forall i :: 0 <= i < |entries| ==> entries[i].tag != id
    ensures Kept(entries, id) == entries
  {
    if entries != [] {
      var init := entries[..|entries| - 1];
      KeptUntouched(init, id);
      assert entries == init + [entries[|entries| - 1]];
    }
  }

  /** `cten_free` is idempotent: a second free of the same id keeps the
      registry as it is and releases no block. */
  lemma KeptIdempotent(entries: seq<Entry>, id: PoolId)
    ensures Kept(Kept(entries, id), id) == Kept(entries, id)
    ensures Freed(Kept(entries, id), id) == []
  {
    var k := Kept(entries, id);
    KeptMembers(entries, id);
    assert forall i :: 0 <= i < |k| ==> k[i] in k;
    KeptUntouched(k, id);
    KeptFreedPartition(k, id);
  }

  /** Every entry is either kept or freed: nothing is lost or duplicated. */
  lemma {:induction false} KeptFreedPartition(entries: seq<Entry>, id: PoolId)
    ensures |Kept(entries, id)| + |Freed(entries, id)| == |entries|
    ensures multiset(Blocks(Kept(entries, id))) + multiset(Freed(entries, id)) == multiset(Blocks(entries))
  {
    if entries != [] {
      var init := entries[..|entries| - 1];
      var last := entries[|entries| - 1];
      KeptFreedPartition(init, id);
      assert entries == init + [last];
      assert Blocks(entries) == Blocks(init) + [last.block];
      if last.tag == id {
        assert Kept(entries, id) == Kept(init, id);
      } else {
        assert Blocks(Kept(entries, id)) == Blocks(Kept(init, id)) + [last.block];
      }
    }
  }

  /** The process-wide PoolAllocator `g_allocator`. */
  class PoolAllocator {
    var stack: seq<PoolId>
    var pointers: seq<Entry>
    var pointersSwapBuffer: seq<Entry>
    /** Every block handed to free, in order. */
    ghost var released: seq<Block>

    /** Between calls the swap buffer is empty; `cten_finalize` asserts it. */
    ghost predicate Valid()
      reads this
    {
      pointersSwapBuffer == []
    }

    /** `cten_initilize`: three empty vectors. */
    constructor ()
      ensures Valid()
      ensures stack == [] && pointers == [] && released == []
    {
      stack := [];
      pointers := [];
      pointersSwapBuffer := [];
      released := [];
    }

    /** `cten_finalize`: free every registered block, then destroy the vectors. */
    method Finalize()
      requires Valid()
      modifies this
      ensures released == old(released) + Blocks(old(pointers))
      ensures stack == [] && pointers == [] && pointersSwapBuffer == []
    {
      var i := 0;
      while i < |pointers|
        invariant 0 <= i <= |pointers|
        invariant pointers == old(pointers) && pointersSwapBuffer == []
        invariant released == old(released) + Blocks(pointers[..i])
      {
        assert Blocks(pointers[..i + 1]) == Blocks(pointers[..i]) + [pointers[i].block];
        released := released + [pointers[i].block];
        i := i + 1;
      }
      assert pointers[..i] == pointers;
      stack, pointers, pointersSwapBuffer := [], [], [];
    }

    /** `cten_begin_malloc(id)`: open a scope. */
    method BeginMalloc(id: PoolId)
      requires Valid()
      modifies this
      ensures Valid()
      ensures stack == old(stack) + [id]
      ensures pointers == old(pointers) && released == old(released)
    {
      stack := stack + [id];
    }

    /** `cten_end_malloc`: close the innermost scope; the stack must not be empty. */
    method EndMalloc()
      requires Valid()
      requires |stack| > 0
      modifies this
      ensures Valid()
      ensures stack == old(stack)[..|old(stack)| - 1]
      ensures pointers == old(pointers) && released == old(released)
    {
      stack := stack[..|stack| - 1];
    }

    /** `cten_free(id)`: release every block tagged `id`, keep the rest in order. */
    method Free(id: PoolId)
      requires Valid()
      modifies this
      ensures Valid()
      ensures pointers == Kept(old(pointers), id)
      ensures released == old(released) + Freed(old(pointers), id)
      ensures stack == old(stack)
    {
      var i := 0;
      while i < |pointers|
        invariant 0 <= i <= |pointers|
        invariant pointers == old(pointers) && stack == old(stack)
        invariant pointersSwapBuffer == Kept(pointers[..i], id)
        invariant released == old(released) + Freed(pointers[..i], id)
      {
        var p := pointers[i];
        assert pointers[..i + 1][..i] == pointers[..i];
        if p.tag == id {
          released := released + [p.block];
        } else {
          pointersSwapBuffer := pointersSwapBuffer + [p];
        }
        i := i + 1;
      }
      assert pointers[..i] == pointers;
      pointers, pointersSwapBuffer := pointersSwapBuffer, pointers;
      pointersSwapBuffer := [];
    }

    /** `_cten_malloc`: register `block` (fresh from malloc) under the id on
        top of the stack; the stack must not be empty. */
    method Malloc(block: Block) returns (r: Block)
      requires Valid()
      requires |stack| > 0
      requires forall i :: 0 <= i < |pointers| ==> pointers[i].block != block
      modifies this
      ensures Valid()
      ensures pointers == old(pointers) + [Entry(old(stack)[|old(stack)| - 1], block)]
      ensures stack == old(stack) && released == old(released)
      ensures r == block
    {
      var id := stack[|stack| - 1];
      pointers := pointers + [Entry(id, block)];
      r := block;
    }
  }

  /** `cten_free(p)` on the registry of `NestedScopes`. */
  lemma FreeOfThree(p: PoolId, q: PoolId)
    requires p != q
    ensures Kept([Entry(p, 1), Entry(q, 2), Entry(p, 3)], p) == [Entry(q, 2)]
    ensures Freed([Entry(p, 1), Entry(q, 2), Entry(p, 3)], p) == [1, 3]
  {
    var registry := [Entry(p, 1), Entry(q, 2), Entry(p, 3)];
    assert registry[..2][..1] == [Entry(p, 1)] && registry[..2] == [Entry(p, 1), Entry(q, 2)];
    assert [Entry(p, 1)][..0] == [];
    assert Kept([Entry(p, 1)], p) == [] && Freed([Entry(p, 1)], p) == [1];
    assert Kept(registry[..2], p) == [Entry(q, 2)] && Freed(registry[..2], p) == [1];
  }

  /** Two nested scopes with the same id, and one with another id between
      them: a single `cten_free` releases both levels and keeps the other. */
  method NestedScopes(p: PoolId, q: PoolId) returns (remaining: seq<Entry>, ghost freed: seq<Block>)
    requires p != q
    ensures remaining == [Entry(q, 2)]
    ensures freed == [1, 3]
  {
    var pool := new PoolAllocator();
    pool.BeginMalloc(p);
    var _ := pool.Malloc(1);
    pool.BeginMalloc(q);
    var _ := pool.Malloc(2);
    pool.BeginMalloc(p);
    var _ := pool.Malloc(3);
    pool.EndMalloc();
    pool.EndMalloc();
    pool.EndMalloc();
    assert pool.pointers == [Entry(p, 1), Entry(q, 2), Entry(p, 3)];
    FreeOfThree(p, q);
    pool.Free(p);
    remaining := pool.pointers;
    freed := pool.released;
  }
}
