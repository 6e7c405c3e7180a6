/**
 * The arena as the linked list the library updates in place: lib/core/list.h carries the chunks,
 * lib/core/arena.h walks it. Each operation does to the list what ArenaModel.dfy does to the
 * sequence of chunks.
 */
module Arenas {
  import opened Alignment
  import ArenaModel

  /** A list node with the chunk it carries. Fresh nodes are zeroed memory. */
  class Node {
    var next: Node?
    var prev: Node?
    const data: nat
    const size: nat
    var cursor: nat

    constructor (data: nat, size: nat)
      ensures this.data == data && this.size == size && cursor == data && next == null && prev == null
    {
      this.data := data;
      this.size := size;
      cursor := data;
      next, prev := null, null;
    }

    function Value(): ArenaModel.Chunk
      reads this
    {
      ArenaModel.Chunk(data, size, cursor)
    }
  }

  /** The node at a position, and null outside the list. */
  function At(nodes: seq<Node>, i: int): Node? {
    if 0 <= i < |nodes| then nodes[i] else null
  }

  class List {
    var head: Node?
    var tail: Node?
    var len: nat
    ghost var nodes: seq<Node>

    /** `nodes` are the nodes in order: distinct, and linked both ways from head to tail. */
    ghost predicate Valid()
      reads this, nodes
    {
      && len == |nodes|
      && (forall i, j :: 0 <= i < j < |nodes| ==> nodes[i] != nodes[j])
      && head == At(nodes, 0) && (nodes != [] ==> tail == At(nodes, len - 1))
      && (forall i {:trigger nodes[i].next} :: 0 <= i < |nodes| ==> nodes[i].next == At(nodes, i + 1))
      && (forall i {:trigger nodes[i].prev} :: 0 <= i < |nodes| ==> nodes[i].prev == At(nodes, i - 1))
    }

    constructor ()
      ensures Valid() && nodes == []
    {
      head, tail, len := null, null, 0;
      nodes := [];
    }

    /** The first node keeps the links it comes with, so they must be null. */
    method PushNode(node: Node)
      requires Valid() && node !in nodes && (nodes == [] ==> node.next == null && node.prev == null)
      modifies this, node, set n | n in nodes && n == tail
      ensures Valid() && nodes == old(nodes) + [node]
      ensures forall n :: n in nodes ==> n.cursor == old(n.cursor)
    {
      if head == null {
        head := node;
        tail := node;
        len := len + 1;
        nodes := nodes + [node];
        return;
      }
      var prev := tail;
      tail := node;
      prev.next := node;
      node.next := null;
      node.prev := prev;
      len := len + 1;
      nodes := nodes + [node];
    }
  }

  class Arena {
    const chunks: List
    const defaultChunkDataSize: nat

    ghost predicate Valid()
      reads chunks, chunks.nodes
    {
      chunks.Valid()
    }

    ghost function Model(): (a: ArenaModel.Arena)
      reads chunks, chunks.nodes
      ensures |a.chunks| == |chunks.nodes|
    {
      var nodes := chunks.nodes;
      ArenaModel.Arena(seq(|nodes|, i requires 0 <= i < |nodes| reads nodes => nodes[i].Value()),
                       defaultChunkDataSize)
    }

    constructor (defaultChunkDataSize: nat)
      ensures Valid() && Model() == ArenaModel.Arena([], defaultChunkDataSize)
    {
      this.defaultChunkDataSize := defaultChunkDataSize;
      chunks := new List();
    }

    method Reset()
      requires Valid()
      modifies chunks.nodes
      ensures Valid() && chunks.nodes == old(chunks.nodes)
      ensures Model() == ArenaModel.Reset(old(Model()))
    {
      var item := chunks.head;
      ghost var i := 0;
      while item != null
        invariant i <= |chunks.nodes| && Valid()
        invariant item == At(chunks.nodes, i)
        invariant forall j :: 0 <= j < |chunks.nodes| ==>
                    chunks.nodes[j].cursor == if j < i then chunks.nodes[j].data else old(chunks.nodes[j].cursor)
        decreases |chunks.nodes| - i
      {
        item.cursor := item.data;
        item := item.next;
        i := i + 1;
      }
    }

    method TotalSize() returns (sum: nat)
      requires Valid()
      ensures sum == ArenaModel.TotalSize(Model().chunks)
    {
      sum := 0;
      var item := chunks.head;
      ghost var i, all := 0, Model().chunks;
      while item != null
        invariant i <= |all| && item == At(chunks.nodes, i)
        invariant sum == ArenaModel.TotalSize(all[..i])
        decreases |all| - i
      {
        assert all[..i + 1][..i] == all[..i];
        sum := sum + item.size;
        item := item.next;
        i := i + 1;
      }
      assert all[..i] == all;
    }

    /** The first node whose chunk passes the fit test; `i` is its position. */
    method FindChunk(size: nat, align: nat) returns (chunk: Node?, ghost i: nat)
      requires Valid() && 0 < align
      ensures i == ArenaModel.Find(Model().chunks, size, align)
      ensures chunk == At(chunks.nodes, i)
    {
      var item := chunks.head;
      ghost var all := Model().chunks;
      i := 0;
      while item != null
        invariant i <= |all| && item == At(chunks.nodes, i)
        invariant forall j :: 0 <= j < i ==> !ArenaModel.Fits(all[j], size, align)
        decreases |all| - i
      {
        var rest := (item.size - (AlignForward(item.cursor, align) - item.data)) % 0x1_0000_0000_0000_0000;
        assert rest == ArenaModel.RestCapAligned(all[i], align);
        if rest >= size {
          return item, i;
        }
        item := item.next;
        i := i + 1;
      }
      return null, i;
    }

    /** The chunk a request goes to, created and pushed on the list when no chunk passes the fit test. */
    method ProvideChunk(blockSize: nat, blockAlign: nat, base: nat) returns (chunk: Node, ghost i: nat)
      requires Valid() && 0 < blockAlign
      modifies chunks, chunks.nodes
      ensures Valid() && old(chunks.nodes) <= chunks.nodes
      ensures fresh(set n | n in chunks.nodes && n !in old(chunks.nodes))
      ensures i == ArenaModel.Find(old(Model()).chunks, blockSize, blockAlign)
      ensures Model().chunks == ArenaModel.Provided(old(Model()), ArenaModel.Request(blockSize, blockAlign, base))
      ensures i < |chunks.nodes| && chunk == chunks.nodes[i]
    {
      ghost var a, q := Model(), ArenaModel.Request(blockSize, blockAlign, base);
      var found: Node?;
      found, i := FindChunk(blockSize, blockAlign);
      if found == null {
        var dataSectionSize :=
          if blockSize + (blockAlign - 1) > defaultChunkDataSize then blockSize + (blockAlign - 1)
          else defaultChunkDataSize;
        chunk := new Node(base, dataSectionSize);
        chunks.PushNode(chunk);
      } else {
        chunk := found;
      }
      assert Model().chunks == ArenaModel.Provided(a, q);
    }

    /** Aligns the cursor of the `i`-th chunk and moves it past the block. */
    method PlaceBlock(chunk: Node, ghost i: nat, blockSize: nat, blockAlign: nat) returns (outPtr: nat)
      requires Valid() && 0 < blockAlign && i < |chunks.nodes| && chunk == chunks.nodes[i]
      modifies chunk
      ensures Valid() && outPtr == AlignForward(old(chunk.cursor), blockAlign)
      ensures Model().chunks == old(Model()).chunks[i := old(chunk.Value()).(cursor := outPtr + blockSize)]
    {
      chunk.cursor := AlignForward(chunk.cursor, blockAlign);
      outPtr := chunk.cursor;
      chunk.cursor := chunk.cursor + blockSize;
    }

    /** `base` is the address the inner allocator would give the data of a new chunk. */
    method Alloc(blockSize: nat, blockAlign: nat, base: nat) returns (outPtr: nat)
      requires Valid() && 0 < blockAlign
      modifies chunks, chunks.nodes
      ensures Valid() && fresh(set n | n in chunks.nodes && n !in old(chunks.nodes))
      ensures var q := ArenaModel.Request(blockSize, blockAlign, base);
              Model() == ArenaModel.Alloc(old(Model()), q) && outPtr == ArenaModel.Place(old(Model()), q).ptr
    {
      ghost var a, q := Model(), ArenaModel.Request(blockSize, blockAlign, base);
      ghost var i: nat;
      var chunk: Node;
      chunk, i := ProvideChunk(blockSize, blockAlign, base);
      ghost var provided := Model().chunks;
      assert provided == ArenaModel.Provided(a, q) && chunk.Value() == provided[i];
      outPtr := PlaceBlock(chunk, i, blockSize, blockAlign);
      assert outPtr == ArenaModel.Place(a, q).ptr;
      assert Model().chunks == provided[i := provided[i].(cursor := outPtr + blockSize)];
    }
  }
}
