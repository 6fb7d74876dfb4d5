/** Packet buffers and the intrusive lists that link them through their `ptr` field (src/buffer.c). */
module Buffers {
  import opened Bytes

  /** buffer_t: the link, the number of bytes in use and the storage, whose length is `max_size`. */
  class Buffer {
    var ptr: Buffer?
    var dataSize: uint16
    const data: array<byte>

    constructor (maxSize: uint16)
      ensures ptr == null && dataSize == 0
      ensures fresh(data) && data.Length == maxSize
    {
      ptr, dataSize := null, 0;
      data := new byte[maxSize](_ => 0);
    }

    function MaxSize(): int {
      data.Length
    }

    /** The buffer holds exactly the bytes `f`. */
    ghost predicate Holds(f: seq<byte>)
      reads `dataSize, data
    {
      dataSize == |f| && |f| <= data.Length && data[..|f|] == f
    }
  }

  lemma HoldsSlice(b: Buffer, f: seq<byte>, lo: nat, hi: nat)
    requires b.Holds(f) && lo <= hi <= |f|
    ensures b.data[lo..hi] == f[lo..hi]
  {
    assert forall i :: 0 <= i < |f| ==> b.data[..|f|][i] == b.data[i];
  }

  // ---------- what the list operations mean, on the sequence of linked buffers ----------

  /** Position of the first buffer that has room for `size` bytes. */
  function FirstFit(s: seq<Buffer>, size: int): (k: nat)
    ensures k <= |s|
  {
    if s == [] || s[0].MaxSize() >= size then 0 else 1 + FirstFit(s[1..], size)
  }

  lemma FirstFitIs(s: seq<Buffer>, size: int)
    ensures var k := FirstFit(s, size);
            (forall i :: 0 <= i < k ==> s[i].MaxSize() < size) && (k < |s| ==> s[k].MaxSize() >= size)
  {
  }

  ghost predicate Sorted(s: seq<Buffer>) {
    forall i, j :: 0 <= i < j < |s| ==> s[i].MaxSize() <= s[j].MaxSize()
  }

  function Without(s: seq<Buffer>, k: nat): seq<Buffer>
    requires k < |s|
  {
    s[..k] + s[k + 1..]
  }

  function With(s: seq<Buffer>, k: nat, b: Buffer): seq<Buffer>
    requires k <= |s|
  {
    s[..k] + [b] + s[k..]
  }

  function Inserted(s: seq<Buffer>, b: Buffer): seq<Buffer> {
    With(s, FirstFit(s, b.MaxSize()), b)
  }

  ghost function Elems(s: seq<Buffer>): set<Buffer> {
    set b | b in s
  }

  ghost predicate Distinct(s: seq<Buffer>) {
    forall i, j :: 0 <= i < j < |s| ==> s[i] != s[j]
  }

  lemma {:induction false} DistinctCount(s: seq<Buffer>)
    requires Distinct(s)
    ensures |Elems(s)| == |s|
  {
    if s != [] {
      var t, b := s[..|s| - 1], s[|s| - 1];
      DistinctCount(t);
      assert Elems(s) == Elems(t) + {b};
    }
  }

  lemma WithAt(s: seq<Buffer>, k: nat, b: Buffer)
    requires k <= |s|
    ensures var t := With(s, k, b);
            |t| == |s| + 1 && t[k] == b &&
            (forall i :: 0 <= i < k ==> t[i] == s[i]) &&
            (forall i :: k <= i < |s| ==> t[i + 1] == s[i])
    ensures Elems(With(s, k, b)) == Elems(s) + {b}
  {
    assert s == s[..k] + s[k..];
  }

  lemma WithoutAt(s: seq<Buffer>, k: nat)
    requires k < |s|
    ensures var t := Without(s, k);
            |t| == |s| - 1 &&
            (forall i :: 0 <= i < k ==> t[i] == s[i]) &&
            (forall i :: k < i < |s| ==> t[i - 1] == s[i])
    ensures Elems(Without(s, k)) + {s[k]} == Elems(s)
    ensures Distinct(s) ==> s[k] !in Elems(Without(s, k))
  {
    assert s == s[..k] + [s[k]] + s[k + 1..];
  }

  lemma WithDistinct(s: seq<Buffer>, k: nat, b: Buffer)
    requires k <= |s| && Distinct(s) && b !in s
    ensures Distinct(With(s, k, b))
  {
    var t := With(s, k, b);
    forall i, j | 0 <= i < j < |t| ensures t[i] != t[j] {
      assert t[i] == if i < k then s[i] else if i == k then b else s[i - 1];
      assert t[j] == if j < k then s[j] else if j == k then b else s[j - 1];
    }
  }

  lemma WithoutDistinct(s: seq<Buffer>, k: nat)
    requires k < |s| && Distinct(s)
    ensures Distinct(Without(s, k))
  {
    var t := Without(s, k);
    forall i, j | 0 <= i < j < |t| ensures t[i] != t[j] {
      assert t[i] == if i < k then s[i] else s[i + 1];
      assert t[j] == if j < k then s[j] else s[j + 1];
    }
  }

  lemma FirstFitUnique(s: seq<Buffer>, size: int, k: nat)
    requires k <= |s|
    requires forall i :: 0 <= i < k ==> s[i].MaxSize() < size
    requires k < |s| ==> s[k].MaxSize() >= size
    ensures FirstFit(s, size) == k
  {
    FirstFitIs(s, size);
  }

  /** The buffer that allocation picks is a smallest one that is large enough; it fails only when none is. */
  lemma AllocationIsBestFit(s: seq<Buffer>, size: int)
    requires Sorted(s)
    ensures var k := FirstFit(s, size);
            (k == |s| <==> forall b :: b in s ==> b.MaxSize() < size) &&
            (k < |s| ==> forall b :: b in s && b.MaxSize() >= size ==> s[k].MaxSize() <= b.MaxSize())
  {
    FirstFitIs(s, size);
    var k := FirstFit(s, size);
    if k < |s| {
      assert s[k] in s;
    }
  }

  /** Releasing loses and invents no buffer. */
  lemma InsertedElements(s: seq<Buffer>, b: Buffer)
    ensures multiset(Inserted(s, b)) == multiset(s) + multiset{b}
  {
    FirstFitIs(s, b.MaxSize());
    var k := FirstFit(s, b.MaxSize());
    assert s == s[..k] + s[k..];
    assert Inserted(s, b) == s[..k] + [b] + s[k..];
  }

  lemma SortedInserted(s: seq<Buffer>, b: Buffer)
    requires Sorted(s)
    ensures Sorted(Inserted(s, b))
  {
    FirstFitIs(s, b.MaxSize());
    var k, t := FirstFit(s, b.MaxSize()), Inserted(s, b);
    forall i, j | 0 <= i < j < |t| ensures t[i].MaxSize() <= t[j].MaxSize() {
      assert t[i] == if i < k then s[i] else if i == k then b else s[i - 1];
      assert t[j] == if j < k then s[j] else if j == k then b else s[j - 1];
    }
  }

  lemma SortedWithout(s: seq<Buffer>, k: nat)
    requires Sorted(s) && k < |s|
    ensures Sorted(Without(s, k))
  {
    WithoutAt(s, k);
  }

  /** Taking a buffer and giving it back restores the list, order included. */
  lemma AllocateThenRelease(s: seq<Buffer>, size: int)
    requires Sorted(s) && FirstFit(s, size) < |s|
    ensures var k := FirstFit(s, size); Inserted(Without(s, k), s[k]) == s
  {
    FirstFitIs(s, size);
    var k := FirstFit(s, size);
    var t := Without(s, k);
    WithoutAt(s, k);
    assert k < |t| ==> t[k] == s[k + 1];
    FirstFitUnique(t, s[k].MaxSize(), k);
    WithWithout(s, k);
  }

  lemma WithWithout(s: seq<Buffer>, k: nat)
    requires k < |s|
    ensures With(Without(s, k), k, s[k]) == s
  {
  }

  /** Giving back a buffer and asking for one of its size returns that very buffer and the same list. */
  lemma ReleaseThenAllocate(s: seq<Buffer>, b: Buffer)
    ensures var t := Inserted(s, b);
            var k := FirstFit(t, b.MaxSize());
            k < |t| && t[k] == b && Without(t, k) == s
  {
    FirstFitIs(s, b.MaxSize());
    var t, k := Inserted(s, b), FirstFit(s, b.MaxSize());
    FirstFitUnique(t, b.MaxSize(), k);
  }

  /** A buffer that has just been released can be allocated again. */
  lemma JustReleased(s: seq<Buffer>, b: Buffer, size: int)
    requires b.MaxSize() >= size
    ensures FirstFit(Inserted(s, b), size) < |Inserted(s, b)|
  {
    FirstFitIs(Inserted(s, b), size);
    var k := FirstFit(s, b.MaxSize());
    FirstFitIs(s, b.MaxSize());
    assert Inserted(s, b)[k] == b;
  }

  // ---------- the lists themselves ----------

  /** A list head (`buffer_t *list`) and, as ghost state, the buffers reached from it. */
  class BufferList {
    var head: Buffer?
    ghost var nodes: seq<Buffer>

    ghost predicate Valid()
      reads this, Nodes()`ptr
    {
      && head == At(0)
      && (forall i :: 0 <= i < |nodes| ==> nodes[i].ptr == At(i + 1))
      && Distinct(nodes)
    }

    ghost function Nodes(): set<Buffer>
      reads this
    {
      Elems(nodes)
    }

    ghost function At(i: nat): Buffer?
      reads this
    {
      if i < |nodes| then nodes[i] else null
    }

    /** A list does not notice what happens to buffers that are not on it. */
    twostate lemma Kept()
      requires old(Valid()) && unchanged(this)
      requires forall b :: b in nodes ==> b.ptr == old(b.ptr)
      ensures Valid()
    {
    }

    constructor ()
      ensures Valid() && nodes == [] && head == null
    {
      head, nodes := null, [];
    }

    /** The link that leads to position k is a field of the buffer before it, or the list head. */
    ghost predicate Before(prev: Buffer?, k: nat)
      reads this
    {
      k <= |nodes| && prev == (if k == 0 then null else nodes[k - 1])
    }

    /** `*tailptr = result->ptr; result->ptr = NULL` */
    method Unlink(prev: Buffer?, ghost k: nat)
      requires Valid() && k < |nodes| && Before(prev, k)
      modifies this, Nodes()`ptr
      ensures Valid()
      ensures nodes == Without(old(nodes), k) && old(nodes[k]).ptr == null
    {
      WithoutAt(nodes, k);
      WithoutDistinct(nodes, k);
      var result := if prev == null then head else prev.ptr;
      if prev == null { head := result.ptr; } else { prev.ptr := result.ptr; }
      result.ptr := null;
      nodes := Without(nodes, k);
    }

    /** `buffer->ptr = *tailptr; *tailptr = buffer` */
    method LinkBefore(prev: Buffer?, buffer: Buffer, next: Buffer?, ghost k: nat)
      requires Valid() && buffer !in nodes && Before(prev, k) && next == At(k)
      modifies this, Nodes()`ptr, buffer`ptr
      ensures Valid()
      ensures nodes == With(old(nodes), k, buffer)
    {
      WithAt(nodes, k, buffer);
      WithDistinct(nodes, k, buffer);
      buffer.ptr := next;
      if prev == null { head := buffer; } else { prev.ptr := buffer; }
      nodes := With(nodes, k, buffer);
    }

    /** The search loop of buffer_allocate and buffer_release: stop at the first buffer of at least this size. */
    method SeekSize(size: int) returns (prev: Buffer?, cur: Buffer?, ghost k: nat)
      requires Valid()
      ensures k == FirstFit(nodes, size) && Before(prev, k) && cur == At(k)
    {
      prev, cur, k := null, head, 0;
      while cur != null && cur.MaxSize() < size
        invariant Before(prev, k) && cur == At(k)
        invariant forall i :: 0 <= i < k ==> nodes[i].MaxSize() < size
        decreases |nodes| - k
      {
        prev, cur, k := cur, cur.ptr, k + 1;
      }
      FirstFitUnique(nodes, size, k);
    }

    /** The search loop of bufferlist_append; the element must not be on the list already. */
    method SeekEnd(element: Buffer) returns (prev: Buffer?)
      requires Valid() && element !in nodes
      ensures Before(prev, |nodes|)
    {
      var cur := head;
      ghost var k := 0;
      prev := null;
      while cur != null
        invariant Before(prev, k) && cur == At(k)
        decreases |nodes| - k
      {
        assert cur != element;
        prev, cur, k := cur, cur.ptr, k + 1;
      }
    }

    /** buffer_allocate */
    method Allocate(size: int) returns (result: Buffer?)
      requires Valid()
      modifies this, Nodes()`ptr, Nodes()`dataSize
      ensures Valid()
      ensures var k := FirstFit(old(nodes), size);
              if k == |old(nodes)| then result == null && nodes == old(nodes)
              else result == old(nodes[k]) && result.ptr == null && result.dataSize == 0
                   && nodes == Without(old(nodes), k)
      ensures forall b :: b in old(nodes) && b != result ==> b.dataSize == old(b.dataSize)
    {
      var prev, cur;
      ghost var k;
      prev, cur, k := SeekSize(size);
      result := cur;
      if cur != null {
        Unlink(prev, k);
        result.dataSize := 0;
      }
    }

    /** buffer_release */
    method Release(buffer: Buffer)
      requires Valid() && buffer !in nodes
      modifies this, Nodes()`ptr, buffer`ptr, buffer`dataSize
      ensures Valid()
      ensures nodes == Inserted(old(nodes), buffer) && buffer.dataSize == 0
    {
      buffer.dataSize := 0;
      var prev, cur;
      ghost var k;
      prev, cur, k := SeekSize(buffer.MaxSize());
      LinkBefore(prev, buffer, cur, k);
    }

    /** bufferlist_append */
    method Append(element: Buffer)
      requires Valid() && element !in nodes
      modifies this, Nodes()`ptr, element`ptr
      ensures Valid()
      ensures nodes == old(nodes) + [element]
    {
      var prev := SeekEnd(element);
      LinkBefore(prev, element, null, |nodes|);
    }

    /** bufferlist_popfront */
    method PopFront() returns (result: Buffer?)
      requires Valid()
      modifies this, Nodes()`ptr
      ensures Valid()
      ensures if old(nodes) == [] then result == null && nodes == []
              else result == old(nodes[0]) && nodes == old(nodes[1..]) && result.ptr == null
    {
      if head != null {
        result := head;
        head := result.ptr;
        result.ptr := null;
        nodes := nodes[1..];
      } else {
        result := null;
      }
    }

    /** bufferlist_size */
    method Size() returns (size: nat)
      requires Valid()
      ensures size == |nodes|
    {
      size := 0;
      var list := head;
      while list != null
        invariant size <= |nodes| && list == At(size)
        decreases |nodes| - size
      {
        size := size + 1;
        list := list.ptr;
      }
    }
  }
}
