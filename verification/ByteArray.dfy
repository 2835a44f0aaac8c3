/** The block list under a stream of bytes (Sylar/bytearray.cc). */
module ByteArrays {
  import opened Prelude
  import opened Bits
  import opened Blocks

  /** What an operation came to. `NullBlock` stands for a read through the null current
      block, of which the language says nothing. */
  datatype Status = Done | OutOfRange | NullBlock

  class Node {
    const ptr: array<byte>
    var next: Node?

    constructor (size: nat)
      ensures fresh(ptr) && ptr.Length == size && next == null
    {
      ptr := new byte[size];
      next := null;
    }
  }

  ghost function NodeAt(nodes: seq<Node>, i: nat): Node? {
    if i < |nodes| then nodes[i] else null
  }

  /** The current block is the one that holds the position; at the capacity there is none. */
  ghost predicate CursorAt(nodes: seq<Node>, index: nat, cur: Node?, position: nat, capacity: nat, base: nat) {
    && index <= |nodes| && position <= capacity == Start(|nodes|, base)
    && Start(index, base) <= position && (position < Start(index, base) + base || index == |nodes|)
    && cur == NodeAt(nodes, index)
  }

  lemma CursorAtEnd(nodes: seq<Node>, index: nat, cur: Node?, position: nat, capacity: nat, base: nat)
    requires CursorAt(nodes, index, cur, position, capacity, base)
    ensures position == capacity <==> index == |nodes|
    ensures position == capacity <==> cur == null
  {
    if index < |nodes| {
      StartsApart(index, |nodes|, base);
    }
  }

  /** More blocks give a position at the old capacity a block. */
  lemma {:induction false} CursorAfterGrowth(
      nodes: seq<Node>, more: seq<Node>, index: nat, cur: Node?, position: nat, capacity: nat, base: nat)
    requires CursorAt(nodes, index, cur, position, capacity, base) && nodes <= more && |nodes| < |more| && base > 0
    ensures CursorAt(more, index, if position == capacity then more[|nodes|] else cur,
      position, capacity + Start(|more| - |nodes|, base), base)
  {
    CursorAtEnd(nodes, index, cur, position, capacity, base);
    StartAdds(|nodes|, |more| - |nodes|, base);
  }

  lemma {:induction false} CursorAfterBytes(
      nodes: seq<Node>, index: nat, cur: Node?, position: nat, capacity: nat, base: nat, n: nat)
    requires CursorAt(nodes, index, cur, position, capacity, base) && index < |nodes|
    requires position + n <= Start(index, base) + base
    ensures var i := if position + n == Start(index, base) + base then index + 1 else index;
      CursorAt(nodes, i, NodeAt(nodes, i), position + n, capacity, base)
  {
    StartsApart(index, |nodes|, base);
  }

  lemma {:induction false} BlockBefore(k: nat, n: nat, base: nat, v: nat)
    requires Start(k, base) < v <= Start(n, base)
    ensures k < n
  {
    if n < k {
      StartsApart(n, k, base);
    }
  }

  /** A part of one block, as the kernel is given it. */
  datatype Region = Region(block: array<byte>, offset: nat, length: nat)

  /** The region is in block `i` and starts at `at` of the whole. */
  ghost predicate IsIn(r: Region, nodes: seq<Node>, i: nat, base: nat, at: nat) {
    i < |nodes| && r.block == nodes[i].ptr && at == Start(i, base) + r.offset && r.offset + r.length <= base
  }

  /** The regions lie one after the other, in the blocks from `first` on; `starts` tells
      where each of them starts in the whole, and where the last one ends. */
  ghost predicate Laid(rs: seq<Region>, starts: seq<nat>, nodes: seq<Node>, first: nat, base: nat) {
    && |starts| == |rs| + 1
    && (forall k :: 0 <= k < |rs| ==> IsIn(rs[k], nodes, first + k, base, starts[k]))
    && (forall k :: 0 <= k < |rs| ==> starts[k + 1] == starts[k] + rs[k].length)
  }

  lemma LaidMore(rs: seq<Region>, starts: seq<nat>, r: Region, nodes: seq<Node>, first: nat, base: nat)
    requires Laid(rs, starts, nodes, first, base) && IsIn(r, nodes, first + |rs|, base, starts[|rs|])
    ensures Laid(rs + [r], starts + [starts[|rs|] + r.length], nodes, first, base)
  {
  }

  function Min(a: nat, b: nat): nat {
    if a <= b then a else b
  }

  /** `memcpy` into a block. */
  method Poke(a: array<byte>, off: nat, data: seq<byte>)
    requires off + |data| <= a.Length
    modifies a
    ensures a[..] == Overwrite(old(a[..]), off, data)
  {
    OverwriteAtOnce(a[..], off, data);
    forall k | 0 <= k < |data| {
      a[off + k] := data[k];
    }
  }

  class ByteArray {
    const baseSize: nat
    const root: Node
    var position: nat
    var capacity: nat
    var size: nat
    var cur: Node?

    /** The list of blocks, and which of them is the current one. */
    ghost var nodes: seq<Node>
    ghost var index: nat

    /** What the blocks hold. */
    ghost var blocks: seq<seq<byte>>

    ghost predicate Linked()
      reads this`nodes, nodes
    {
      && nodes != [] && nodes[0] == root
      && (forall i, j :: 0 <= i < j < |nodes| ==> nodes[i].ptr != nodes[j].ptr)
      && (forall i {:trigger nodes[i].next} :: 0 <= i < |nodes| ==> nodes[i].next == NodeAt(nodes, i + 1))
    }

    ghost predicate AtCursor()
      reads this`nodes, this`index, this`cur, this`position, this`capacity
    {
      CursorAt(nodes, index, cur, position, capacity, baseSize)
    }

    ghost predicate Filled()
      reads this`nodes, this`blocks, nodes, Buffers()
    {
      && |blocks| == |nodes|
      && (forall i :: 0 <= i < |nodes| ==> nodes[i].ptr.Length == baseSize && nodes[i].ptr[..] == blocks[i])
    }

    ghost predicate Shape()
      reads this`nodes, this`blocks, nodes, Buffers()
    {
      baseSize > 0 && Linked() && Filled()
    }

    ghost predicate Valid()
      reads this, nodes, Buffers()
    {
      Shape() && AtCursor() && position <= size <= capacity == |Bytes()|
    }

    ghost function Buffers(): set<array<byte>>
      reads this`nodes
    {
      set n | n in nodes :: n.ptr
    }

    /** All the bytes of all the blocks; those from `size` on are not visible. */
    ghost function Bytes(): seq<byte>
      reads this`blocks
    {
      Flat(blocks)
    }

    lemma BytesLength()
      requires Shape()
      ensures |Bytes()| == Start(|nodes|, baseSize)
    {
      FlatLength(blocks, baseSize);
    }

    /** The visible content. */
    ghost function Visible(): (r: seq<byte>)
      requires size <= |Bytes()|
      reads this`blocks, this`size
      ensures |r| == size
    {
      Bytes()[..size]
    }

    constructor (baseSize: nat)
      requires baseSize > 0
      ensures Valid() && this.baseSize == baseSize && capacity == baseSize
      ensures position == size == 0 && Visible() == []
      ensures fresh(Buffers()) && fresh(set n | n in nodes)
    {
      var node := new Node(baseSize);
      this.baseSize := baseSize;
      root := node;
      cur := node;
      position, capacity, size := 0, baseSize, 0;
      nodes, index, blocks := [node], 0, [node.ptr[..]];
      new;
      BytesLength();
    }

    function ReadSize(): int
      reads this
    {
      size - position
    }

    function Free(): int
      reads this
    {
      capacity - position
    }

    // -------------------------------------------------------------- one block

    lemma CursorOffset()
      requires Shape() && AtCursor() && position < capacity
      ensures Within(position % baseSize)
    {
      CursorAtEnd(nodes, index, cur, position, capacity, baseSize);
      StartIsProduct(index, baseSize);
      UniqueRemainder(position, baseSize, index, position - Start(index, baseSize));
    }

    /** Copies bytes into the current block. */
    method CopyIn(off: nat, data: seq<byte>)
      requires Shape() && index < |nodes| && cur == nodes[index] && off + |data| <= baseSize
      modifies this`blocks, nodes[index].ptr
      ensures Shape() && blocks == old(blocks)[index := Overwrite(old(blocks[index]), off, data)]
    {
      Poke(cur.ptr, off, data);
      blocks := blocks[index := Overwrite(blocks[index], off, data)];
    }

    // -------------------------------------------------------------- growing

    /** Links one more block to the last one. */
    method Append(last: Node) returns (node: Node)
      requires Shape() && last == nodes[|nodes| - 1]
      modifies this`nodes, this`blocks, this`capacity, last
      ensures Shape() && fresh(node) && fresh(node.ptr) && nodes == old(nodes) + [node]
      ensures old(blocks) <= blocks && capacity == old(capacity) + baseSize
    {
      node := new Node(baseSize);
      last.next := node;
      nodes, blocks := nodes + [node], blocks + [node.ptr[..]];
      capacity := capacity + baseSize;
    }

    method Last() returns (last: Node)
      requires Linked()
      ensures last == nodes[|nodes| - 1]
    {
      ghost var k := 0;
      last := root;
      while last.next != null
        invariant 0 <= k < |nodes| && last == nodes[k]
        decreases |nodes| - k
      {
        assert nodes[k].next == NodeAt(nodes, k + 1);
        last := last.next;
        k := k + 1;
      }
      assert nodes[k].next == NodeAt(nodes, k + 1);
    }

    method AddCapacity(n: nat)
      requires Valid()
      modifies this`nodes, this`blocks, this`capacity, this`cur, nodes
      ensures Valid() && old(nodes) <= nodes && old(blocks) <= blocks
      ensures forall k :: |old(nodes)| <= k < |nodes| ==> fresh(nodes[k]) && fresh(nodes[k].ptr)
      ensures n <= Free() && (capacity == old(capacity) || capacity < position + n + baseSize)
    {
      var free := Free();
      if n == 0 || free >= n {
        return;
      }
      var count := BlocksFor(n - free, baseSize);
      Enlarge(count);
      BytesLength();
    }

    /** Adds blocks, and makes the first of them current if there was no current one. */
    method Enlarge(count: nat)
      requires Shape() && AtCursor() && count > 0
      modifies this`nodes, this`blocks, this`capacity, this`cur, nodes
      ensures Shape() && AtCursor() && capacity == old(capacity) + Start(count, baseSize)
      ensures old(nodes) <= nodes && old(blocks) <= blocks
      ensures forall k :: |old(nodes)| <= k < |nodes| ==> fresh(nodes[k]) && fresh(nodes[k].ptr)
    {
      var free := Free();
      var first := Grow(count);
      CursorAfterGrowth(old(nodes), nodes, index, cur, position, old(capacity), baseSize);
      SetCurrent(if free == 0 then first else cur);
    }

    method SetCurrent(node: Node?)
      requires Shape()
      modifies this`cur
      ensures Shape() && cur == node
    {
      cur := node;
    }

    /** Links `count` more blocks to the list; the result is the first of them. */
    method Grow(count: nat) returns (first: Node?)
      requires Shape()
      modifies this`nodes, this`blocks, this`capacity, nodes
      ensures Shape() && |nodes| == |old(nodes)| + count && capacity == old(capacity) + Start(count, baseSize)
      ensures old(nodes) <= nodes && old(blocks) <= blocks
      ensures forall k :: |old(nodes)| <= k < |nodes| ==> fresh(nodes[k]) && fresh(nodes[k].ptr)
      ensures first == NodeAt(nodes, |old(nodes)|)
    {
      ghost var was := nodes;
      var tmp := Last();
      first := null;
      var i := 0;
      while i < count
        invariant 0 <= i <= count && Shape() && tmp == nodes[|nodes| - 1]
        invariant was <= nodes && old(blocks) <= blocks && |nodes| == |was| + i
        invariant forall k :: |was| <= k < |nodes| ==> fresh(nodes[k]) && fresh(nodes[k].ptr)
        invariant first == NodeAt(nodes, |was|) && capacity == old(capacity) + Start(i, baseSize)
      {
        tmp := Append(tmp);
        if first == null {
          first := tmp;
        }
        i := i + 1;
      }
    }

    // -------------------------------------------------------------- the position moves

    /** The cursor is `off` bytes into the current block. */
    ghost predicate Within(off: nat)
      reads this
    {
      AtCursor() && index < |nodes| && position == Start(index, baseSize) + off && off < baseSize
    }

    /** Moves on within the current block, or to the start of the next one. */
    method Advance(off: nat, n: nat)
      requires Shape() && Within(off) && off + n <= baseSize
      modifies this`position, this`cur, this`index
      ensures Shape() && AtCursor() && position == old(position) + n
      ensures off + n == baseSize && position < capacity ==> Within(0)
    {
      CursorAfterBytes(nodes, index, cur, position, capacity, baseSize, n);
      var whole := cur.ptr.Length == off + n;
      Move(position + n, if whole then cur.next else cur, if whole then index + 1 else index);
    }

    method Move(position: nat, cur: Node?, ghost index: nat)
      requires Shape()
      modifies this`position, this`cur, this`index
      ensures Shape() && this.position == position && this.cur == cur && this.index == index
    {
      this.position, this.cur, this.index := position, cur, index;
    }

    /** Copies bytes into the current block and moves past them. */
    method Put(off: nat, data: seq<byte>)
      requires Shape() && Within(off) && off + |data| <= baseSize
      modifies this`blocks, this`position, this`cur, this`index, nodes[index].ptr
      ensures Shape() && AtCursor() && position == old(position) + |data|
      ensures off + |data| == baseSize && position < capacity ==> Within(0)
      ensures position <= |old(Bytes())| && Bytes() == Overwrite(old(Bytes()), old(position), data)
    {
      FlatUpdate(blocks, index, off, data, baseSize, position);
      CopyIn(off, data);
      Advance(off, |data|);
    }

    /** Reads bytes from the current block and moves past them. */
    method Take(off: nat, n: nat) returns (data: seq<byte>)
      requires Shape() && Within(off) && off + n <= baseSize
      modifies this`position, this`cur, this`index
      ensures Shape() && AtCursor() && position == old(position) + n
      ensures off + n == baseSize && position < capacity ==> Within(0)
      ensures position <= |Bytes()| && data == Bytes()[old(position)..position]
    {
      FlatSlice(blocks, index, off, n, baseSize, position);
      data := Peek(cur.ptr, off, n, blocks[index]);
      Advance(off, n);
    }

    // -------------------------------------------------------------- write and read

    /** A piece of the data goes to the current block, after what is done. */
    method PutMore(off: nat, piece: seq<byte>, ghost flat: seq<byte>, ghost start: nat, ghost done: seq<byte>)
      requires Shape() && Within(off) && off + |piece| <= baseSize
      requires start + |done| + |piece| <= |flat| && position == start + |done|
      requires Bytes() == Overwrite(flat, start, done)
      modifies this`blocks, this`position, this`cur, this`index, nodes[index].ptr
      ensures Shape() && AtCursor() && position == start + |done + piece|
      ensures off + |piece| == baseSize && position < capacity ==> Within(0)
      ensures Bytes() == Overwrite(flat, start, done + piece)
    {
      OverwriteOn(flat, start, done, piece);
      Put(off, piece);
    }

    /** One turn of the copy loop of `write`: as much as fits the current block. */
    method WriteSome(data: seq<byte>, bpos: nat, npos: nat, ghost flat: seq<byte>, ghost start: nat) returns (next: nat)
      requires Shape() && Within(npos) && bpos < |data| && start + |data| <= capacity == |flat|
      requires position == start + bpos && Bytes() == Overwrite(flat, start, data[..bpos])
      modifies this`blocks, this`position, this`cur, this`index, nodes[index].ptr
      ensures Shape() && AtCursor() && bpos < next <= |data| && position == start + next
      ensures next < |data| ==> Within(0)
      ensures Bytes() == Overwrite(flat, start, data[..next])
    {
      var n := Min(cur.ptr.Length - npos, |data| - bpos);
      PutMore(npos, data[bpos..bpos + n], flat, start, data[..bpos]);
      next := bpos + n;
      assert data[..bpos] + data[bpos..next] == data[..next];
    }

    /** The copy loop of `write`. */
    method WriteAll(data: seq<byte>)
      requires Shape() && AtCursor() && data != [] && position + |data| <= capacity
      modifies this`blocks, this`position, this`cur, this`index, Buffers()
      ensures Shape() && AtCursor() && position == old(position) + |data|
      ensures position <= |old(Bytes())| && Bytes() == Overwrite(old(Bytes()), old(position), data)
    {
      ghost var flat, start := Bytes(), position;
      BytesLength();
      var npos := OffsetInBlock();
      var bpos := 0;
      OverwriteNothing(flat, start);
      assert data[..0] == [] && data[..|data|] == data;
      while bpos < |data|
        invariant 0 <= bpos <= |data| && Shape() && AtCursor() && position == start + bpos
        invariant bpos < |data| ==> Within(npos)
        invariant Bytes() == Overwrite(flat, start, data[..bpos])
      {
        bpos := WriteSome(data, bpos, npos, flat, start);
        npos := 0;
      }
    }

    method OffsetInBlock() returns (off: nat)
      requires Shape() && AtCursor() && position < capacity
      ensures Within(off)
    {
      CursorOffset();
      off := position % baseSize;
    }

    /** The call has written `data` at the position. */
    twostate predicate Wrote(data: seq<byte>)
      requires old(Valid())
      reads this, nodes, Buffers()
    {
      && Valid() && old(nodes) <= nodes
      && (forall k :: |old(nodes)| <= k < |nodes| ==> fresh(nodes[k]) && fresh(nodes[k].ptr))
      && position == old(position) + |data|
      && Visible() == Written(old(Visible()), old(position), data)
      && (capacity == old(capacity) || capacity < position + baseSize)
    }

    method Write(data: seq<byte>)
      requires Valid()
      modifies this, nodes, Buffers()
      ensures Wrote(data)
    {
      if data != [] {
        MakeRoom(|data|);
        WriteHere(data, old(Bytes()));
      }
    }

    /** There is room for `n` bytes, and what was there stays. */
    method MakeRoom(n: nat)
      requires Valid()
      modifies this`nodes, this`blocks, this`capacity, this`cur, nodes
      ensures Valid() && n <= Free() && old(Bytes()) <= Bytes() && old(nodes) <= nodes
      ensures forall k :: |old(nodes)| <= k < |nodes| ==> fresh(nodes[k]) && fresh(nodes[k].ptr)
      ensures capacity == old(capacity) || capacity < position + n + baseSize
    {
      AddCapacity(n);
      FlatPrefix(old(blocks), blocks);
    }

    /** What `write` does when there is room. */
    method WriteHere(data: seq<byte>, ghost was: seq<byte>)
      requires Valid() && data != [] && |data| <= Free() && size <= |was| && was <= Bytes()
      modifies this`blocks, this`position, this`cur, this`index, this`size, Buffers()
      ensures Valid() && position == old(position) + |data|
      ensures Visible() == Written(was[..old(size)], old(position), data)
    {
      BytesLength();
      ghost var end := if position + |data| > size then position + |data| else size;
      WrittenIsOverwrite(was, Bytes(), size, position, data, end);
      WriteAll(data);
      SetSize(if position > size then position else size);
    }

    method SetSize(n: nat)
      requires Shape() && AtCursor() && position <= n <= capacity
      modifies this`size
      ensures Valid() && size == n
    {
      BytesLength();
      size := n;
    }

    /** `read`; on any failure nothing has moved. */
    method Read(n: nat) returns (status: Status, data: seq<byte>)
      requires Valid()
      modifies this`position, this`cur, this`index
      ensures Valid()
      ensures status ==
        if n > old(ReadSize()) then OutOfRange else if old(position) == capacity then NullBlock else Done
      ensures status == Done ==> position == old(position) + n && data == Visible()[old(position)..position]
      ensures status != Done ==> position == old(position) && data == []
    {
      CursorAtEnd(nodes, index, cur, position, capacity, baseSize);
      data := [];
      if n > ReadSize() {
        return OutOfRange, data;
      }
      if cur == null {
        return NullBlock, data;
      }
      BytesLength();
      SliceOfPrefix(Bytes(), size, position, position + n);
      data := ReadAll(n);
      status := Done;
    }

    /** One turn of that loop. */
    method TakeMore(off: nat, n: nat, given: seq<byte>, ghost flat: seq<byte>, ghost start: nat)
      returns (data: seq<byte>)
      requires Shape() && Within(off) && off + n <= baseSize
      requires flat == Bytes() && start <= position <= |flat| && given == flat[start..position]
      modifies this`position, this`cur, this`index
      ensures Shape() && AtCursor() && position == old(position) + n
      ensures off + n == baseSize && position < capacity ==> Within(0)
      ensures position <= |flat| && data == flat[start..position]
    {
      var piece := Take(off, n);
      SliceMore(flat, start, old(position), position);
      data := given + piece;
    }

    /** The copy loop of `read`. */
    method ReadAll(n: nat) returns (data: seq<byte>)
      requires Shape() && AtCursor() && position < capacity && position + n <= capacity
      modifies this`position, this`cur, this`index
      ensures Shape() && AtCursor() && position == old(position) + n
      ensures position <= |Bytes()| && data == Bytes()[old(position)..position]
    {
      ghost var flat, start := Bytes(), position;
      BytesLength();
      var npos := OffsetInBlock();
      var ncap, left := cur.ptr.Length - npos, n;
      data := [];
      assert flat[start..start] == [];
      while left > 0
        invariant 0 <= left <= n && Shape() && AtCursor() && position == start + n - left
        invariant left > 0 ==> Within(npos) && ncap == baseSize - npos
        invariant data == flat[start..position]
      {
        var m := Min(ncap, left);
        data := TakeMore(npos, m, data, flat, start);
        left := left - m;
        npos, ncap := 0, baseSize;
      }
    }

    // -------------------------------------------------------------- position, clear

    /** The walk of `setPosition`: the block that holds position `v`. */
    method Locate(v: nat) returns (node: Node?, ghost k: nat)
      requires Shape() && capacity == Start(|nodes|, baseSize) && v <= capacity
      ensures CursorAt(nodes, k, node, v, capacity, baseSize)
    {
      var left := v;
      k := 0;
      node := root;
      while left > node.ptr.Length
        invariant 0 <= k < |nodes| && node == nodes[k] && left == v - Start(k, baseSize) && left >= 0
        decreases left
      {
        assert nodes[k].next == NodeAt(nodes, k + 1);
        left := left - node.ptr.Length;
        node := node.next;
        k := k + 1;
        BlockBefore(k, |nodes|, baseSize, v);
      }
      StartsApart(k, |nodes|, baseSize);
      if left == node.ptr.Length {
        assert nodes[k].next == NodeAt(nodes, k + 1);
        node := node.next;
        k := k + 1;
      }
    }

    method SetPosition(v: nat) returns (status: Status)
      requires Valid()
      modifies this`position, this`size, this`cur, this`index
      ensures Valid() && Bytes() == old(Bytes())
      ensures status == if v > capacity then OutOfRange else Done
      ensures status == Done ==> position == v && size == if v > old(size) then v else old(size)
      ensures status != Done ==> position == old(position) && size == old(size)
    {
      if v > capacity {
        return OutOfRange;
      }
      var node, k := Locate(v);
      Move(v, node, k);
      SetSize(if v > size then v else size);
      return Done;
    }

    /** `clear` keeps the first block and forgets the others. */
    method Clear()
      requires Valid()
      modifies this, root
      ensures Valid() && nodes == old(nodes[..1]) && blocks == old(blocks[..1])
      ensures position == size == 0 && capacity == baseSize && Visible() == []
    {
      root.next := null;
      position, size, capacity, cur := 0, 0, baseSize, root;
      nodes, blocks, index := nodes[..1], blocks[..1], 0;
      BytesLength();
    }

    // -------------------------------------------------------------- regions for the kernel

    /** The walk of `getReadBuffers` and `getWriteBuffers`. */
    method Regions(len: nat) returns (rs: seq<Region>, ghost starts: seq<nat>)
      requires Shape() && AtCursor() && position < capacity && position + len <= capacity
      ensures Laid(rs, starts, nodes, index, baseSize)
      ensures starts[0] == position && starts[|rs|] == position + len
    {
      var npos := OffsetInBlock();
      var node, ncap, left := cur, cur.ptr.Length - npos, len;
      ghost var k := index;
      rs, starts := [], [position];
      while left > 0
        invariant 0 <= left <= len && Laid(rs, starts, nodes, index, baseSize)
        invariant starts[0] == position && starts[|rs|] == position + len - left
        invariant left > 0 ==>
          k == index + |rs| < |nodes| && node == nodes[k] && 0 <= npos < baseSize && ncap == baseSize - npos
        invariant left > 0 ==> starts[|rs|] == Start(k, baseSize) + npos
      {
        var n := Min(ncap, left);
        LaidMore(rs, starts, Region(node.ptr, npos, n), nodes, index, baseSize);
        starts := starts + [starts[|rs|] + n];
        rs := rs + [Region(node.ptr, npos, n)];
        left := left - n;
        if left > 0 {
          assert nodes[k].next == NodeAt(nodes, k + 1);
          BlockBefore(k + 1, |nodes|, baseSize, position + len);
          node := node.next;
          k := k + 1;
          npos, ncap := 0, node.ptr.Length;
        }
      }
    }

    method GetReadBuffers(len: nat) returns (n: nat, rs: seq<Region>, ghost starts: seq<nat>)
      requires Valid()
      ensures n == Min(len, ReadSize())
      ensures Laid(rs, starts, nodes, index, baseSize)
      ensures starts[0] == position && starts[|rs|] == position + n
    {
      n := Min(len, ReadSize());
      if n == 0 {
        return 0, [], [position];
      }
      rs, starts := Regions(n);
    }

    method GetWriteBuffers(len: nat) returns (n: nat, rs: seq<Region>, ghost starts: seq<nat>)
      requires Valid()
      modifies this`nodes, this`blocks, this`capacity, this`cur, nodes
      ensures Valid() && old(nodes) <= nodes && old(blocks) <= blocks
      ensures forall k :: |old(nodes)| <= k < |nodes| ==> fresh(nodes[k]) && fresh(nodes[k].ptr)
      ensures n == len <= Free() && Laid(rs, starts, nodes, index, baseSize)
      ensures starts[0] == position && starts[|rs|] == position + len
    {
      if len == 0 {
        return 0, [], [position];
      }
      AddCapacity(len);
      n := len;
      rs, starts := Regions(len);
    }

    method ReadRegion(r: Region, ghost i: nat, ghost at: nat) returns (data: seq<byte>)
      requires Shape() && IsIn(r, nodes, i, baseSize, at)
      ensures at + r.length <= |Bytes()| && data == Bytes()[at..at + r.length]
    {
      FlatSlice(blocks, i, r.offset, r.length, baseSize, at);
      data := Peek(r.block, r.offset, r.length, blocks[i]);
    }

    /** What a gathering write to a socket sees in the regions. */
    method Gather(rs: seq<Region>, ghost starts: seq<nat>, ghost first: nat) returns (data: seq<byte>)
      requires Shape() && Laid(rs, starts, nodes, first, baseSize) && starts[0] <= |Bytes()|
      ensures starts[0] <= starts[|rs|] <= |Bytes()| && data == Bytes()[starts[0]..starts[|rs|]]
    {
      ghost var flat := Bytes();
      assert flat[starts[0]..starts[0]] == [];
      data := [];
      var k := 0;
      while k < |rs|
        invariant 0 <= k <= |rs| && starts[0] <= starts[k] <= |flat|
        invariant data == flat[starts[0]..starts[k]]
      {
        var piece := ReadRegion(rs[k], first + k, starts[k]);
        SliceMore(flat, starts[0], starts[k], starts[k + 1]);
        data := data + piece;
        k := k + 1;
      }
    }

    method WriteRegion(r: Region, data: seq<byte>, ghost i: nat, ghost at: nat)
      requires Shape() && IsIn(r, nodes, i, baseSize, at) && |data| <= r.length
      modifies this`blocks, nodes[i].ptr
      ensures Shape() && at + |data| <= |old(Bytes())| && Bytes() == Overwrite(old(Bytes()), at, data)
    {
      FlatUpdate(blocks, i, r.offset, data, baseSize, at);
      Poke(r.block, r.offset, data);
      blocks := blocks[i := Overwrite(blocks[i], r.offset, data)];
    }

    /** Bytes `i` to `j` of the data fill the region at `at`. */
    method FillMore(
        r: Region, data: seq<byte>, i: nat, j: nat, ghost b: nat, ghost start: nat, ghost flat: seq<byte>)
      requires Shape() && IsIn(r, nodes, b, baseSize, start + i) && i <= j <= |data| && j - i <= r.length
      requires start + |data| <= |flat| && Bytes() == Overwrite(flat, start, data[..i])
      modifies this`blocks, nodes[b].ptr
      ensures Shape() && Bytes() == Overwrite(flat, start, data[..j])
    {
      OverwriteMore(flat, start, data, i, j, start + i);
      WriteRegion(r, data[i..j], b, start + i);
    }

    /** What a scattering read from a socket does to the regions: it fills as many bytes as
        it has, from the first region on. */
    method Scatter(rs: seq<Region>, data: seq<byte>, ghost starts: seq<nat>, ghost first: nat)
      requires Shape() && Laid(rs, starts, nodes, first, baseSize)
      requires starts[0] + |data| <= starts[|rs|] && starts[0] + |data| <= |Bytes()|
      modifies this`blocks, Buffers()
      ensures Shape() && |Bytes()| == |old(Bytes())| && Bytes() == Overwrite(old(Bytes()), starts[0], data)
    {
      ghost var flat, start := Bytes(), starts[0];
      OverwriteNothing(flat, start);
      assert data[..0] == [] && data[..|data|] == data;
      var k, done := 0, 0;
      while done < |data|
        invariant 0 <= k <= |rs| && 0 <= done <= |data| && Shape()
        invariant done < |data| ==> k < |rs| && starts[k] == start + done
        invariant Bytes() == Overwrite(flat, start, data[..done])
        decreases |rs| - k
      {
        var n := Min(rs[k].length, |data| - done);
        FillMore(rs[k], data, done, done + n, first + k, start, flat);
        done := done + n;
        k := k + 1;
      }
    }

    /** Filling the first bytes of the regions and moving the position past them is a write. */
    method Receive(len: nat, data: seq<byte>)
      requires Valid() && |data| <= len
      modifies this, nodes, Buffers()
      ensures Valid() && old(nodes) <= nodes
      ensures position == old(position) + |data|
      ensures Visible() == Written(old(Visible()), old(position), data)
    {
      BytesLength();
      var n, rs, starts := GetWriteBuffers(len);
      FlatPrefix(old(blocks), blocks);
      ReceiveHere(rs, data, old(Bytes()), starts);
    }

    method ReceiveHere(rs: seq<Region>, data: seq<byte>, ghost was: seq<byte>, ghost starts: seq<nat>)
      requires Valid() && |data| <= Free() && size <= |was| && was <= Bytes()
      requires Laid(rs, starts, nodes, index, baseSize) && starts[0] == position && position + |data| <= starts[|rs|]
      modifies this`blocks, this`position, this`cur, this`index, this`size, Buffers()
      ensures Valid() && position == old(position) + |data|
      ensures Visible() == Written(was[..old(size)], old(position), data)
    {
      BytesLength();
      ghost var end := if position + |data| > size then position + |data| else size;
      WrittenIsOverwrite(was, Bytes(), size, position, data, end);
      Scatter(rs, data, starts, index);
      var status := SetPosition(position + |data|);
    }

    /** `toString`: a positional read at the position, which moves nothing; it copies from the
        blocks that `getReadBuffers` would name. */
    method ToString() returns (data: seq<byte>)
      requires Valid()
      ensures data == Visible()[position..]
    {
      data := Send(ReadSize());
    }

    /** The regions to read from hold the bytes that would be read next. */
    method Send(len: nat) returns (data: seq<byte>)
      requires Valid()
      ensures data == Visible()[position..position + Min(len, ReadSize())]
    {
      BytesLength();
      var n, rs, starts := GetReadBuffers(len);
      data := Gather(rs, starts, index);
    }
  }

  /** `memcpy` from a block. */
  method Peek(a: array<byte>, off: nat, n: nat, ghost block: seq<byte>) returns (data: seq<byte>)
    requires a[..] == block && off + n <= |block|
    ensures data == block[off..off + n]
  {
    data := a[off..off + n];
  }
}
