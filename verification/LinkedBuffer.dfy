/** The byte FIFO in linked nodes: src/datastuff/linkedbuffer.c.

    A buffer is a list of nodes of 1024 bytes; bytes are appended at the tail and taken from the head.
    `Contents` is the abstract value.  The offset of a fresh empty node, which is not set, is taken as 0. */
module LinkedBuffer {
  import opened Bits

  const NODE_CAPACITY := 1024

  // ----- the abstract FIFO -----

  function Min(a: nat, b: nat): nat {
    if a < b then a else b
  }

  datatype Op = Push(data: seq<byte>) | Pop(size: nat)

  function Pushed(op: Op): seq<byte> {
    if op.Push? then op.data else []
  }

  /** What an operation takes out. */
  function Popped(contents: seq<byte>, op: Op): seq<byte> {
    if op.Push? then [] else contents[..Min(op.size, |contents|)]
  }

  function After(contents: seq<byte>, op: Op): seq<byte> {
    if op.Push? then contents + op.data else contents[Min(op.size, |contents|)..]
  }

  function AllPushed(ops: seq<Op>): seq<byte> {
    if ops == [] then [] else AllPushed(Front(ops)) + Pushed(Last(ops))
  }

  function AllAfter(contents: seq<byte>, ops: seq<Op>): seq<byte> {
    if ops == [] then contents else After(AllAfter(contents, Front(ops)), Last(ops))
  }

  function AllPopped(contents: seq<byte>, ops: seq<Op>): seq<byte> {
    if ops == [] then []
    else AllPopped(contents, Front(ops)) + Popped(AllAfter(contents, Front(ops)), Last(ops))
  }

  lemma Conserved(contents: seq<byte>, op: Op)
    ensures Popped(contents, op) + After(contents, op) == contents + Pushed(op)
  {
  }

  /** Over any run nothing is lost, added or reordered. */
  lemma {:induction false} FirstInFirstOut(contents: seq<byte>, ops: seq<Op>)
    ensures AllPopped(contents, ops) + AllAfter(contents, ops) == contents + AllPushed(ops)
  {
    if ops == [] {
    } else {
      var before, op := AllAfter(contents, Front(ops)), Last(ops);
      FirstInFirstOut(contents, Front(ops));
      Conserved(before, op);
      Assoc(AllPopped(contents, Front(ops)), Popped(before, op), After(before, op));
      Assoc(AllPopped(contents, Front(ops)), before, Pushed(op));
      Assoc(contents, AllPushed(Front(ops)), Pushed(op));
    }
  }

  // ----- the nodes as values -----

  /** What a node holds, and where in its 1024 bytes it begins. */
  datatype Chunk = Chunk(bytes: seq<byte>, offset: nat) {
    predicate Full() {
      offset + |bytes| == NODE_CAPACITY
    }
  }

  /** Nodes before the last are used to their end, nodes after the first from their beginning; only a single
      node may be empty. */
  predicate Packed(chunks: seq<Chunk>) {
    chunks == [] ||
    (var c := Last(chunks);
     && Packed(Front(chunks))
     && c.offset < NODE_CAPACITY && c.offset + |c.bytes| <= NODE_CAPACITY
     && (|chunks| >= 2 ==> c.offset == 0 && c.bytes != [] && Last(Front(chunks)).Full()))
  }

  function Flatten(chunks: seq<Chunk>): seq<byte> {
    if chunks == [] then [] else Flatten(Front(chunks)) + Last(chunks).bytes
  }

  lemma FlattenSnoc(chunks: seq<Chunk>, c: Chunk)
    ensures Flatten(chunks + [c]) == Flatten(chunks) + c.bytes
  {
    assert Front(chunks + [c]) == chunks;
  }

  /** More in the last node. */
  function More(chunks: seq<Chunk>, bytes: seq<byte>): seq<Chunk>
    requires chunks != []
  {
    Front(chunks) + [Chunk(Last(chunks).bytes + bytes, Last(chunks).offset)]
  }

  lemma FlattenMore(chunks: seq<Chunk>, bytes: seq<byte>)
    requires chunks != []
    ensures Flatten(More(chunks, bytes)) == Flatten(chunks) + bytes
  {
    FlattenSnoc(Front(chunks), Last(More(chunks, bytes)));
    Assoc(Flatten(Front(chunks)), Last(chunks).bytes, bytes);
  }

  lemma {:induction false} FlattenFromFront(chunks: seq<Chunk>)
    requires chunks != []
    ensures Flatten(chunks) == chunks[0].bytes + Flatten(chunks[1..])
  {
    if |chunks| == 1 {
      assert Flatten(Front(chunks)) == [] && Flatten(chunks[1..]) == [];
    } else {
      FlattenFromFront(Front(chunks));
      assert Front(chunks)[1..] == Front(chunks[1..]);
      Assoc(chunks[0].bytes, Flatten(Front(chunks[1..])), Last(chunks).bytes);
    }
  }

  /** All nodes but the first and the last hold 1024 bytes, and those two hold some. */
  lemma {:induction false} FlattenLength(chunks: seq<Chunk>)
    requires Packed(chunks)
    ensures |chunks| >= 2 ==> |Flatten(Front(chunks))| >= 1 + NODE_CAPACITY * (|chunks| - 2)
    ensures |chunks| >= 2 ==> |Flatten(chunks)| >= 2 + NODE_CAPACITY * (|chunks| - 2)
  {
    if |chunks| >= 2 {
      var f := Front(chunks);
      assert Last(f).Full();
      FlattenLength(f);
    }
  }

  lemma {:induction false} FlattenAtMost(chunks: seq<Chunk>)
    requires Packed(chunks)
    ensures |Flatten(chunks)| <= NODE_CAPACITY * |chunks|
  {
    if chunks == [] {
    } else {
      FlattenAtMost(Front(chunks));
    }
  }

  lemma LastOfMore(chunks: seq<Chunk>, bytes: seq<byte>)
    requires chunks != []
    ensures Last(More(chunks, bytes)) == Chunk(Last(chunks).bytes + bytes, Last(chunks).offset)
    ensures Front(More(chunks, bytes)) == Front(chunks)
  {
  }

  lemma PackedMore(chunks: seq<Chunk>, bytes: seq<byte>)
    requires chunks != [] && Packed(chunks) && Last(chunks).offset + |Last(chunks).bytes| + |bytes| <= NODE_CAPACITY
    ensures Packed(More(chunks, bytes))
  {
    LastOfMore(chunks, bytes);
  }

  lemma PackedSnoc(chunks: seq<Chunk>, bytes: seq<byte>)
    requires chunks != [] && Packed(chunks) && Last(chunks).Full() && 1 <= |bytes| <= NODE_CAPACITY
    ensures Packed(chunks + [Chunk(bytes, 0)])
  {
    assert Front(chunks + [Chunk(bytes, 0)]) == chunks;
  }

  lemma {:induction false} PackedRest(chunks: seq<Chunk>)
    requires chunks != [] && Packed(chunks)
    ensures Packed(chunks[1..])
    ensures |chunks| >= 2 ==> chunks[0].Full()
  {
    if |chunks| >= 2 {
      PackedRest(Front(chunks));
      assert Front(chunks)[1..] == Front(chunks[1..]);
      assert |chunks| > 2 ==> Last(Front(chunks[1..])) == Last(Front(chunks));
    }
  }

  /** Some, not all, of the first node is taken. */
  function Taken(chunks: seq<Chunk>, n: nat): seq<Chunk>
    requires chunks != [] && n <= |chunks[0].bytes|
  {
    [Chunk(chunks[0].bytes[n..], chunks[0].offset + n)] + chunks[1..]
  }

  lemma TakenParts(chunks: seq<Chunk>, n: nat)
    requires chunks != [] && n <= |chunks[0].bytes|
    ensures Taken(chunks, n)[0] == Chunk(chunks[0].bytes[n..], chunks[0].offset + n)
    ensures Taken(chunks, n)[1..] == chunks[1..]
  {
  }

  lemma {:induction false} PackedAfterTaken(chunks: seq<Chunk>, n: nat)
    requires chunks != [] && Packed(chunks) && n < |chunks[0].bytes|
    ensures Packed(Taken(chunks, n))
  {
    if |chunks| >= 2 {
      PackedAfterTaken(Front(chunks), n);
      assert Front(Taken(chunks, n)) == Taken(Front(chunks), n);
      assert Last(Taken(chunks, n)) == Last(chunks);
      assert Last(Taken(Front(chunks), n)).Full();
    } else {
      assert Front(Taken(chunks, n)) == [];
    }
  }

  lemma PackedTaken(chunks: seq<Chunk>, n: nat)
    requires chunks != [] && Packed(chunks) && n < |chunks[0].bytes|
    ensures Packed(Taken(chunks, n))
    ensures Flatten(chunks) == chunks[0].bytes[..n] + Flatten(Taken(chunks, n))
  {
    PackedAfterTaken(chunks, n);
    FlattenFromFront(chunks);
    FlattenFromFront(Taken(chunks, n));
    TakenParts(chunks, n);
    Assoc(chunks[0].bytes[..n], chunks[0].bytes[n..], Flatten(chunks[1..]));
    assert chunks[0].bytes == chunks[0].bytes[..n] + chunks[0].bytes[n..];
  }

  // ----- the nodes -----

  class Node {
    const data: array<byte>
    var size: nat
    var offset: nat
    var next: Node?

    constructor ()
      ensures fresh(data) && data.Length == NODE_CAPACITY && size == 0 && offset == 0 && next == null
    {
      data := new byte[NODE_CAPACITY];
      size := 0;
      offset := 0;
      next := null;
    }

    ghost predicate Holds(c: Chunk)
      reads this`size, this`offset, data
    {
      && data.Length == NODE_CAPACITY && offset + size <= NODE_CAPACITY
      && c == Chunk(data[offset..offset + size], offset)
    }

    /** The first `n` bytes are not needed any more. */
    method Skip(n: nat, ghost c: Chunk)
      requires Holds(c) && n < size
      modifies this`size, this`offset
      ensures Holds(Chunk(c.bytes[n..], c.offset + n))
    {
      size := size - n;
      offset := offset + n;
    }

    /** memcpy to the end of the node. */
    method Append(bytes: seq<byte>, from: nat, n: nat, ghost c: Chunk)
      requires Holds(c) && offset + size + n <= NODE_CAPACITY && from + n <= |bytes|
      modifies this`size, data
      ensures Holds(c.(bytes := c.bytes + bytes[from..from + n]))
    {
      var at := offset + size;
      for i := 0 to n
        invariant size == old(size) && data[offset..at] == c.bytes
        invariant data[at..at + i] == bytes[from..from + i]
      {
        data[at + i] := bytes[from + i];
      }
      size := size + n;
    }

    /** memcpy from the beginning of the node. */
    method CopyOut(out: array<byte>, at: nat, n: nat, ghost c: Chunk)
      requires Holds(c) && n <= size && at + n <= out.Length && out != data
      modifies out
      ensures out[..at] == old(out[..at]) && out[at..at + n] == c.bytes[..n] && out[at + n..] == old(out[at + n..])
    {
      for i := 0 to n
        invariant out[..at] == old(out[..at]) && out[at + n..] == old(out[at + n..])
        invariant out[at..at + i] == c.bytes[..i]
      {
        out[at + i] := data[offset + i];
      }
    }
  }

  // ----- lists of nodes -----

  ghost function Datas(spine: seq<Node>): set<array<byte>> {
    set node | node in spine :: node.data
  }

  ghost predicate Within(spine: seq<Node>, repr: set<object>) {
    forall node | node in spine :: node in repr && node.data in repr
  }

  /** The nodes hold these chunks and do not share their bytes. */
  ghost predicate Listed(spine: seq<Node>, chunks: seq<Chunk>)
    reads spine`size, spine`offset, Datas(spine)
  {
    && |chunks| == |spine|
    && (spine == [] ||
        (Listed(Front(spine), Front(chunks))
         && Last(spine).data !in Datas(Front(spine)) && Last(spine).Holds(Last(chunks))))
  }

  ghost predicate Linked(spine: seq<Node>)
    reads spine`next
  {
    |spine| <= 1 || (Linked(Front(spine)) && Last(Front(spine)).next == Last(spine))
  }

  lemma {:induction false} LinkedAt(spine: seq<Node>, i: nat)
    requires Linked(spine) && i + 1 < |spine|
    ensures spine[i].next == spine[i + 1]
  {
    if i + 2 < |spine| {
      LinkedAt(Front(spine), i);
    }
  }

  lemma {:induction false} LinkedRest(spine: seq<Node>)
    requires Linked(spine) && spine != []
    ensures Linked(spine[1..])
  {
    if |spine| >= 2 {
      LinkedRest(Front(spine));
      assert Front(spine)[1..] == Front(spine[1..]);
    }
  }

  lemma LinkedSnoc(spine: seq<Node>, node: Node)
    requires Linked(spine) && (spine != [] ==> Last(spine).next == node)
    ensures Linked(spine + [node])
  {
    assert Front(spine + [node]) == spine;
  }

  lemma {:induction false} ListedAt(spine: seq<Node>, chunks: seq<Chunk>, i: nat)
    requires Listed(spine, chunks) && i < |spine|
    ensures spine[i].Holds(chunks[i])
  {
    if i + 1 < |spine| {
      ListedAt(Front(spine), Front(chunks), i);
    }
  }

  lemma ListedSnoc(spine: seq<Node>, chunks: seq<Chunk>, node: Node, c: Chunk)
    requires Listed(spine, chunks) && node.Holds(c) && node.data !in Datas(spine)
    ensures Listed(spine + [node], chunks + [c])
  {
    assert Front(spine + [node]) == spine && Front(chunks + [c]) == chunks;
  }

  lemma ListedWithLast(spine: seq<Node>, chunks: seq<Chunk>)
    requires spine != [] && |chunks| == |spine| && Listed(Front(spine), Front(chunks))
    requires Last(spine).Holds(Last(chunks)) && Last(spine).data !in Datas(Front(spine))
    ensures Listed(spine, chunks)
  {
  }

  lemma ListedWithFirst(spine: seq<Node>, chunks: seq<Chunk>)
    requires spine != [] && |chunks| == |spine| && Listed(spine[1..], chunks[1..])
    requires spine[0].Holds(chunks[0]) && spine[0].data !in Datas(spine[1..])
    ensures Listed(spine, chunks)
  {
    ListedCons(spine[0], chunks[0], spine[1..], chunks[1..]);
    assert [spine[0]] + spine[1..] == spine && [chunks[0]] + chunks[1..] == chunks;
  }

  /** The last node is apart from the others. */
  lemma ListedFront(spine: seq<Node>, chunks: seq<Chunk>)
    requires spine != [] && Listed(spine, chunks)
    ensures Listed(Front(spine), Front(chunks)) && Last(spine).Holds(Last(chunks))
    ensures Last(spine) !in Front(spine) && Last(spine).data !in Datas(Front(spine))
  {
  }

  /** The first node is apart from the others. */
  lemma {:induction false} ListedRest(spine: seq<Node>, chunks: seq<Chunk>)
    requires spine != [] && Listed(spine, chunks)
    ensures Listed(spine[1..], chunks[1..]) && spine[0].Holds(chunks[0])
    ensures spine[0] !in spine[1..] && spine[0].data !in Datas(spine[1..])
  {
    if |spine| >= 2 {
      var f := Front(spine);
      ListedRest(f, Front(chunks));
      assert f[1..] == Front(spine[1..]) && Front(chunks)[1..] == Front(chunks[1..]);
      assert spine[1..] == f[1..] + [Last(spine)];
      assert f[0] in f;
    }
  }

  lemma {:induction false} ListedCons(node: Node, c: Chunk, nodes: seq<Node>, rest: seq<Chunk>)
    requires Listed(nodes, rest) && node.Holds(c) && node.data !in Datas(nodes)
    ensures Listed([node] + nodes, [c] + rest)
  {
    if nodes == [] {
      assert Front([node] + nodes) == [] && Front([c] + rest) == [];
    } else {
      ListedCons(node, c, Front(nodes), Front(rest));
      assert Front([node] + nodes) == [node] + Front(nodes) && Front([c] + rest) == [c] + Front(rest);
      assert Last(nodes) in nodes;
    }
  }

  lemma PoppedIs(was: seq<byte>, taken: seq<byte>, rest: seq<byte>, size: nat)
    requires taken + rest == was && |taken| <= size && (|taken| < size ==> rest == [])
    ensures |taken| == if size <= |was| then size else |was|
    ensures taken == was[..|taken|] && rest == was[|taken|..]
  {
    Cut(taken, rest);
  }

  lemma NextSlice(was: seq<byte>, data: seq<byte>, i: nat, j: nat)
    requires i <= j <= |data|
    ensures was + data[..j] == was + data[..i] + data[i..j]
  {
  }

  class Buffer {
    var nodes: nat
    var head: Node?
    var tail: Node?

    /** The nodes in order, what each holds, and every object that belongs to the buffer. */
    ghost var spine: seq<Node>
    ghost var chunks: seq<Chunk>
    ghost var repr: set<object>

    ghost predicate Ends()
      reads this, repr
    {
      && this in repr && Within(spine, repr)
      && nodes == |spine| && head == (if spine == [] then null else spine[0])
      && (spine != [] ==> tail == Last(spine) && Last(spine).next == null)
    }

    /** The state inside a pop, when there may be no node. */
    ghost predicate Chain()
      reads this, repr
    {
      Ends() && Listed(spine, chunks) && Linked(spine) && Packed(chunks)
    }

    ghost predicate Valid()
      reads this, repr
    {
      Chain() && spine != []
    }

    ghost function Contents(): seq<byte>
      reads this
    {
      Flatten(chunks)
    }

    /** The number of nodes goes with the number of bytes: 1024 to a node, and at most two nodes that are not full. */
    lemma NodesBound()
      requires Valid()
      ensures nodes == |spine| <= 2 + |Contents()| / 1024
      ensures |Contents()| <= 1024 * nodes
    {
      FlattenLength(chunks);
      FlattenAtMost(chunks);
    }

    constructor ()
      ensures Valid() && fresh(repr) && Contents() == []
    {
      new;
      repr := {this};
      Init();
    }

    /** ds_linked_buffer_init. */
    method Init()
      requires this in repr
      modifies this
      ensures Valid() && Contents() == [] && fresh(repr - old(repr))
    {
      var node := new Node();
      head := node;
      tail := node;
      nodes := 1;
      spine := [node];
      chunks := [Chunk([], 0)];
      repr := repr + {node, node.data};
      assert Front(chunks) == [] && Flatten(Front(chunks)) == [];
      assert Front(spine) == [] && Listed(Front(spine), Front(chunks));
      assert node.Holds(Chunk([], 0));
    }

    lemma OneMoreNode(i: nat)
      requires Valid() && i < |spine|
      ensures spine[i].size + |Flatten(chunks[..i])| == |Flatten(chunks[..i + 1])|
      ensures spine[i].next == if i + 1 < |spine| then spine[i + 1] else null
    {
      assert Front(chunks[..i + 1]) == chunks[..i];
      ListedAt(spine, chunks, i);
      if i + 1 < |spine| {
        LinkedAt(spine, i);
      }
    }

    /** ds_linked_buffer_size. */
    method Size() returns (size: nat)
      requires Valid()
      ensures size == |Contents()|
    {
      size := 0;
      var node := head;
      ghost var i := 0;
      while node != null
        invariant 0 <= i <= |spine| && node == if i < |spine| then spine[i] else null
        invariant size == |Flatten(chunks[..i])|
        decreases |spine| - i
      {
        OneMoreNode(i);
        size := size + node.size;
        node := node.next;
        i := i + 1;
      }
      assert chunks[..i] == chunks;
    }

    lemma TailHolds()
      requires Valid()
      ensures tail != null && tail.Holds(Last(chunks))
    {
      ListedFront(spine, chunks);
    }

    lemma HeadHolds()
      requires Valid()
      ensures head != null && head.Holds(chunks[0])
    {
      ListedRest(spine, chunks);
    }

    method AppendInTail(bytes: seq<byte>, from: nat, n: nat, ghost after: seq<Chunk>)
      requires Valid() && tail != null && from + n <= |bytes| && after == More(chunks, bytes[from..from + n])
      requires Last(chunks).offset + |Last(chunks).bytes| + n <= NODE_CAPACITY
      modifies tail`size, tail.data
      ensures Ends() && Linked(spine) && Listed(spine, after)
    {
      ListedFront(spine, chunks);
      LastOfMore(chunks, bytes[from..from + n]);
      tail.Append(bytes, from, n, Last(chunks));
      ListedWithLast(spine, after);
    }

    /** Copying into the last node. */
    method FillTail(bytes: seq<byte>, from: nat, n: nat, ghost after: seq<Chunk>)
      requires Valid() && tail != null && from + n <= |bytes| && after == More(chunks, bytes[from..from + n])
      requires Last(chunks).offset + |Last(chunks).bytes| + n <= NODE_CAPACITY
      modifies this`chunks, tail`size, tail.data
      ensures Valid() && chunks == after
    {
      PackedMore(chunks, bytes[from..from + n]);
      AppendInTail(bytes, from, n, after);
      chunks := after;
    }

    method NewNode(bytes: seq<byte>, from: nat, n: nat) returns (node: Node)
      requires n <= NODE_CAPACITY && from + n <= |bytes|
      ensures fresh(node) && fresh(node.data) && node.next == null
      ensures node.Holds(Chunk(bytes[from..from + n], 0))
    {
      node := new Node();
      node.Append(bytes, from, n, Chunk([], 0));
      assert [] + bytes[from..from + n] == bytes[from..from + n];
    }

    /** A new node behind the last one. */
    method AppendNode(node: Node, ghost c: Chunk)
      requires Valid() && tail != null && node !in repr && node.data !in repr
      requires node.next == null && node.Holds(c) && Packed(chunks + [c])
      modifies this, tail`next
      ensures Valid() && chunks == old(chunks) + [c] && repr == old(repr) + {node, node.data}
    {
      ghost var s := spine;
      assert node.data !in Datas(s);
      tail.next := node;
      LinkedSnoc(s, node);
      ListedSnoc(s, chunks, node, c);
      tail := node;
      nodes := nodes + 1;
      chunks := chunks + [c];
      spine := spine + [node];
      repr := repr + {node, node.data};
    }

    method FillNewNode(bytes: seq<byte>, from: nat, n: nat)
      requires Valid() && Last(chunks).Full()
      requires 1 <= n <= NODE_CAPACITY && from + n <= |bytes|
      modifies this, tail
      ensures Valid() && chunks == old(chunks) + [Chunk(bytes[from..from + n], 0)]
      ensures fresh(repr - old(repr))
    {
      PackedSnoc(chunks, bytes[from..from + n]);
      var node := NewNode(bytes, from, n);
      AppendNode(node, Chunk(bytes[from..from + n], 0));
    }

    method StoreInTail(bytes: seq<byte>, n: nat)
      requires Valid() && tail != null && n <= |bytes|
      requires Last(chunks).offset + |Last(chunks).bytes| + n <= NODE_CAPACITY
      modifies this`chunks, tail`size, tail.data
      ensures Valid() && Contents() == old(Contents()) + bytes[..n]
      ensures Last(chunks).offset + |Last(chunks).bytes| == old(Last(chunks).offset + |Last(chunks).bytes|) + n
    {
      FlattenMore(chunks, bytes[..n]);
      LastOfMore(chunks, bytes[..n]);
      FillTail(bytes, 0, n, More(chunks, bytes[..n]));
    }

    /** What the last node has room for. */
    method PushIntoTail(data: seq<byte>) returns (done: nat)
      requires Valid()
      modifies repr
      ensures Valid() && repr == old(repr) && done <= |data|
      ensures Contents() == old(Contents()) + data[..done]
      ensures done < |data| ==> Last(chunks).Full()
    {
      TailHolds();
      done := 0;
      if tail.offset + tail.size < NODE_CAPACITY {
        done := Min(|data|, NODE_CAPACITY - (tail.offset + tail.size));
        StoreInTail(data, done);
      }
    }

    /** ds_linked_buffer_push. */
    method Push(data: seq<byte>)
      requires Valid()
      modifies repr
      ensures Valid() && fresh(repr - old(repr))
      ensures Contents() == old(Contents()) + data
    {
      if data == [] {
        return;
      }
      var done := PushIntoTail(data);
      PushRest(data, done, old(Contents()));
    }

    /** The loop. */
    method PushRest(data: seq<byte>, from: nat, ghost was: seq<byte>)
      requires Valid() && from <= |data| && Contents() == was + data[..from]
      requires from < |data| ==> Last(chunks).Full()
      modifies repr
      ensures Valid() && fresh(repr - old(repr)) && Contents() == was + data
    {
      var done := from;
      while done < |data|
        invariant Valid() && fresh(repr - old(repr)) && done <= |data|
        invariant Contents() == was + data[..done]
        invariant done < |data| ==> Last(chunks).Full()
      {
        done := PushIntoNewNode(data, done, was);
      }
    }

    /** One pass of the loop. */
    method PushIntoNewNode(data: seq<byte>, done: nat, ghost was: seq<byte>) returns (done': nat)
      requires Valid() && Last(chunks).Full() && done < |data| && Contents() == was + data[..done]
      modifies this, tail
      ensures Valid() && fresh(repr - old(repr)) && done < done' <= |data|
      ensures Contents() == was + data[..done']
      ensures done' < |data| ==> Last(chunks).Full()
    {
      var n := Min(|data| - done, NODE_CAPACITY);
      done' := done + n;
      ghost var c := Chunk(data[done..done'], 0);
      NextSlice(was, data, done, done');
      FlattenSnoc(chunks, c);
      FillNewNode(data, done, n);
      assert Last(chunks) == c;
    }

    method SkipInHead(n: nat, ghost after: seq<Chunk>)
      requires Valid() && head != null && n < |chunks[0].bytes| && after == Taken(chunks, n)
      modifies head`size, head`offset
      ensures Ends() && Linked(spine) && Listed(spine, after)
    {
      ListedRest(spine, chunks);
      TakenParts(chunks, n);
      head.Skip(n, chunks[0]);
      ListedWithFirst(spine, after);
    }

    /** Part of the first node goes. */
    method ShrinkHead(n: nat, ghost after: seq<Chunk>)
      requires Valid() && head != null && n < |chunks[0].bytes| && after == Taken(chunks, n)
      modifies this`chunks, head`size, head`offset
      ensures Valid() && chunks == after
    {
      PackedTaken(chunks, n);
      SkipInHead(n, after);
      chunks := after;
    }

    /** All of the first node goes. */
    method DropHead()
      requires Valid() && head != null
      modifies this
      ensures Chain() && chunks == old(chunks[1..]) && repr == old(repr)
    {
      ListedRest(spine, chunks);
      LinkedRest(spine);
      PackedRest(chunks);
      if |spine| >= 2 {
        LinkedAt(spine, 0);
      }
      head := head.next;
      nodes := nodes - 1;
      spine := spine[1..];
      chunks := chunks[1..];
    }

    /** The first node has given `n` of its bytes. */
    method Advance(n: nat, ghost c: Chunk)
      requires Valid() && head != null && c == chunks[0] && n <= |c.bytes|
      modifies this, head
      ensures Chain() && repr == old(repr)
      ensures c.bytes[..n] + Contents() == old(Contents())
      ensures n == |c.bytes| ==> |chunks| < old(|chunks|)
      ensures n < |c.bytes| ==> |chunks| == old(|chunks|)
    {
      HeadHolds();
      if n < head.size {
        PackedTaken(chunks, n);
        ShrinkHead(n, Taken(chunks, n));
      } else {
        FlattenFromFront(chunks);
        assert c.bytes[..n] == c.bytes;
        DropHead();
      }
    }

    /** So much of `was` is in `out`, and the rest is still in the buffer. */
    ghost predicate Drained(out: array<byte>, n: nat, was: seq<byte>)
      reads this, out
    {
      n <= out.Length && out[..n] + Contents() == was
    }

    /** ds_linked_buffer_pop; what lies behind the popped bytes in `out` stays as it was. */
    method Pop(out: array<byte>, size: nat) returns (n: nat)
      requires Valid() && out !in repr && size <= out.Length
      modifies repr, out
      ensures Valid() && fresh(repr - old(repr))
      ensures n == (if size <= |old(Contents())| then size else |old(Contents())|)
      ensures out[..n] == old(Contents())[..n] && Contents() == old(Contents())[n..]
      ensures forall k | n <= k < out.Length :: out[k] == old(out[k])
    {
      HeadHolds();
      if size == 0 || (nodes == 1 && head.size == 0) {
        FlattenFromFront(chunks);
        PoppedIs(Contents(), [], Contents(), size);
        return 0;
      }
      n := PopNodes(out, size, old(Contents()));
      PoppedIs(old(Contents()), out[..n], Contents(), size);
      Refill();
    }

    /** A buffer without nodes gets an empty one. */
    method Refill()
      requires Chain()
      modifies this
      ensures Valid() && Contents() == old(Contents()) && fresh(repr - old(repr))
    {
      if nodes == 0 {
        Init();
      }
    }

    /** The loop: it stops when enough has come out, or when there is no node left. */
    method PopNodes(out: array<byte>, size: nat, ghost was: seq<byte>) returns (n: nat)
      requires Valid() && out !in repr && size <= out.Length && was == Contents()
      modifies repr, out
      ensures Chain() && repr == old(repr) && Drained(out, n, was)
      ensures n <= size && (n < size ==> spine == [])
      ensures forall k | n <= k < out.Length :: out[k] == old(out[k])
    {
      n := 0;
      assert out[..0] == [];
      while head != null && n < size
        invariant Chain() && repr == old(repr) && Drained(out, n, was) && n <= size
        invariant forall k | n <= k < out.Length :: out[k] == old(out[k])
        decreases |chunks| + size - n
      {
        n := PopFromHead(out, n, size, was);
      }
    }

    /** One pass of the loop of ds_linked_buffer_pop. */
    method PopFromHead(out: array<byte>, at: nat, size: nat, ghost was: seq<byte>) returns (n: nat)
      requires Valid() && out !in repr && Drained(out, at, was) && at < size <= out.Length
      modifies repr, out
      ensures Chain() && repr == old(repr)
      ensures Drained(out, n, was) && at <= n <= size
      ensures |chunks| + size - n < old(|chunks|) + size - at
      ensures forall k | n <= k < out.Length :: out[k] == old(out[k])
    {
      HeadHolds();
      ghost var c, before := chunks[0], out[..at];
      var m := Min(head.size, size - at);
      head.CopyOut(out, at, m, c);
      n := at + m;
      Advance(m, c);
      Assoc(before, c.bytes[..m], Contents());
      assert out[..n] == before + c.bytes[..m];
    }

    /** Any run of pushes and pops on the nodes: what comes out and what is left are what was there and what
        went in. */
    method RunAll(ops: seq<Op>) returns (popped: seq<byte>)
      requires Valid()
      modifies repr
      ensures Valid() && fresh(repr - old(repr))
      ensures popped == AllPopped(old(Contents()), ops) && Contents() == AllAfter(old(Contents()), ops)
      ensures popped + Contents() == old(Contents()) + AllPushed(ops)
      ensures nodes <= 2 + |Contents()| / 1024 && |Contents()| <= 1024 * nodes
    {
      ghost var was := Contents();
      popped := [];
      for i := 0 to |ops|
        invariant Valid() && fresh(repr - old(repr))
        invariant popped == AllPopped(was, ops[..i]) && Contents() == AllAfter(was, ops[..i])
      {
        assert Front(ops[..i + 1]) == ops[..i];
        var more := Apply(ops[i]);
        popped := popped + more;
      }
      assert ops[..|ops|] == ops;
      FirstInFirstOut(was, ops);
      NodesBound();
    }

    method Apply(op: Op) returns (popped: seq<byte>)
      requires Valid()
      modifies repr
      ensures Valid() && fresh(repr - old(repr))
      ensures popped == Popped(old(Contents()), op) && Contents() == After(old(Contents()), op)
    {
      match op {
        case Push(data) =>
          Push(data);
          popped := [];
        case Pop(size) =>
          var out := new byte[size];
          var n := Pop(out, size);
          popped := out[..n];
      }
    }
  }
}
