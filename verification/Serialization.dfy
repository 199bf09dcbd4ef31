/** The serialization: a sequence of nodes stored in a chain of fixed-size chunks with a free list. */
module Serialization {
  import opened Sequences

  const CHUNK_SIZE: nat := 128

  /** The content of a node; an embedded serialization is a value of its own. */
  datatype Content =
    | Void
    | Bool(b: bool)
    | Int(n: int)
    | Str(s: string)
    | Embedded(structid: int, nodes: seq<Node>)

  datatype Node =
    | Open(structid: int)
    | Close
    | Name(name: Content)
    | Value(value: Content)

  /** One chunk; its nodes are embedded in it. */
  class NodeChunk {
    var ar: seq<Node>
    var next: NodeChunk?
    var size: nat

    /** The predecessor in its list, and, for a chunk in use, the nodes stored in the chunks before it. */
    ghost var prev: NodeChunk?
    ghost var before: seq<Node>

    constructor ()
      ensures |ar| == CHUNK_SIZE && next == null && size == 0 && prev == null
    {
      ar := seq(CHUNK_SIZE, _ => Close);
      next, size, prev := null, 0, null;
    }
  }

  /** A position in a serialization. */
  datatype Position = Position(chunk: NodeChunk?, chunkpos: nat)

  class NodeStore {
    var head: NodeChunk
    var current: NodeChunk
    var freelist: NodeChunk?

    /** The nodes stored, every chunk ever allocated, and those of them in use. */
    ghost var Contents: seq<Node>
    ghost var Repr: set<NodeChunk>
    ghost var Used: set<NodeChunk>
    /** The chunks of either list are numbered consecutively. */
    ghost var Num: map<NodeChunk, int>
    /** The contents at every end position handed out since, unless rolled back before it. */
    ghost var Snapshots: map<Position, seq<Node>>

    /** The links of a chunk: both lists are linked forth and back and numbered, so they have no cycles. */
    ghost predicate LinksOk(c: NodeChunk)
      reads this`head, this`current, this`freelist, this`Repr, this`Used, this`Num, Repr, c
    {
      && c in Repr && c in Num
      && (c.next != null ==> c.next in Repr && c.next.prev == c && (c.next in Used <==> c in Used)
                             && c.next in Num && Num[c.next] == Num[c] + 1)
      && (c.prev != null ==> c.prev in Repr && c.prev.next == c)
      && (c.prev == null <==> c == if c in Used then head else freelist)
      && (c in Used ==> (c.next == null <==> c == current) && current in Num && 0 <= Num[c] <= Num[current])
    }

    /** The nodes of a chunk: in use, it is full if another one follows. */
    ghost predicate NodesOk(c: NodeChunk)
      reads this`Used, c, c.next
    {
      && |c.ar| == CHUNK_SIZE && c.size <= CHUNK_SIZE
      && (c in Used && c.next != null ==> c.size == CHUNK_SIZE && c.next.before == c.before + c.ar)
    }

    ghost predicate ChunkOk(c: NodeChunk)
      reads this`head, this`current, this`freelist, this`Repr, this`Used, this`Num, Repr, c, c.next
    {
      LinksOk(c) && NodesOk(c)
    }

    ghost predicate AllOkBut(x: NodeChunk?)
      reads this`head, this`current, this`freelist, this`Repr, this`Used, this`Num, Repr, set c | c in Repr :: c.next
    {
      forall c {:trigger ChunkOk(c)} :: c in Repr && c != x ==> ChunkOk(c)
    }

    ghost predicate Anchored()
      reads this, Repr
    {
      && Used <= Repr && head in Used && head.before == [] && head in Num && Num[head] == 0
      && current in Used && current.size <= |current.ar|
      && (freelist != null ==> freelist in Repr && freelist !in Used)
      && Contents == current.before + current.ar[..current.size]
    }

    /** The position stands for the place after the first n nodes. */
    ghost predicate Denotes(p: Position, n: nat)
      reads this`head, this`Used, Used
    {
      && p.chunk != null && p.chunk in Used
      && p.chunkpos <= p.chunk.size && n == |p.chunk.before| + p.chunkpos
      && (p.chunk != head ==> p.chunkpos > 0)
    }

    ghost predicate SnapshotsOk()
      reads this`Snapshots, this`Contents, this`head, this`Used, Used
    {
      forall p {:trigger Snapshots[p]} :: p in Snapshots ==> Denotes(p, |Snapshots[p]|) && Snapshots[p] <= Contents
    }

    ghost predicate Valid()
      reads this, Repr, set c | c in Repr :: c.next
    {
      && Anchored() && AllOkBut(null) && SnapshotsOk()
      && (current != head ==> current.size > 0)
    }

    constructor ()
      ensures Valid() && fresh(Repr)
      ensures Contents == [] && Repr == {head} && Snapshots == map[]
    {
      var c := new NodeChunk();
      head, current, freelist := c, c, null;
      Contents, Repr, Used, Num, Snapshots := [], {c}, {c}, map[c := 0], map[];
      new;
      c.before := [];
      assert ChunkOk(c);
    }

    /** A chunk outside of both lists. */
    ghost predicate IsLoose(x: NodeChunk)
      reads this, x
    {
      x in Repr && x !in Used && x != freelist && |x.ar| == CHUNK_SIZE && x.next == null && x.prev == null
    }

    /** Takes a chunk from the free list or else a new one. */
    method TakeChunk() returns (next: NodeChunk)
      requires Valid()
      modifies this`freelist, this`Repr, freelist, if freelist != null then {freelist.next} else {}
      ensures Anchored() && AllOkBut(next) && IsLoose(next) && SnapshotsOk()
      ensures if old(freelist) == null then fresh(next) && Repr == old(Repr) + {next} else Repr == old(Repr) && next == old(freelist)
      ensures unchanged(current)
    {
      hide Denotes, SnapshotsOk;
      if freelist != null {
        next := freelist;
        assert ChunkOk(next);
        freelist := freelist.next;
        next.next := null;
        if freelist != null { freelist.prev := null; }
      } else {
        next := new NodeChunk();
        Repr := Repr + {next};
      }
      forall c | c in Repr && c != next ensures ChunkOk(c) {
        var before := old(ChunkOk(c));
      }
    }

    /** Puts a chunk behind the last one in use. */
    method LinkChunk(next: NodeChunk)
      requires Anchored() && AllOkBut(next) && IsLoose(next) && current.size == CHUNK_SIZE
      modifies this`current, this`Used, this`Num, next, current
      ensures Anchored() && AllOkBut(null) && current == next && current.size == 0
      ensures Used == old(Used) + {next} && forall c :: c in old(Used) ==> c.size == old(c.size) && c.before == old(c.before)
    {
      EmptyChunk(next);
      UseChunk(next);
    }

    /** A chunk outside of both lists that is ready to follow the last one in use. */
    ghost predicate IsReady(x: NodeChunk)
      reads this, x, current
    {
      && x in Repr && x !in Used && x != freelist && |x.ar| == CHUNK_SIZE && x.next == null && x.prev == current
      && x.size == 0 && x.before == current.before + current.ar
    }

    method EmptyChunk(next: NodeChunk)
      requires Anchored() && AllOkBut(next) && IsLoose(next)
      modifies next`size, next`before, next`prev
      ensures Anchored() && AllOkBut(next) && IsReady(next)
      ensures forall c :: c in Repr && c != next ==> c.next != next && c.prev != next
    {
      forall c | c in Repr && c != next ensures c.next != next && c.prev != next { assert ChunkOk(c); }
      next.size := 0;
      next.before, next.prev := current.before + current.ar, current;
      forall c | c in Repr && c != next ensures LinksOk(c) && NodesOk(c) {
        var before := old(ChunkOk(c));
      }
    }

    method UseChunk(next: NodeChunk)
      requires Anchored() && AllOkBut(next) && IsReady(next) && current.size == CHUNK_SIZE
      requires forall c :: c in Repr && c != next ==> c.next != next && c.prev != next
      modifies this`current, this`Used, this`Num, current`next
      ensures Anchored() && AllOkBut(null) && current == next && Used == old(Used) + {next}
    {
      assert ChunkOk(current);
      Used, Num := Used + {next}, Num[next := Num[current] + 1];
      current.next := next;
      current := next;
      forall c | c in Repr ensures LinksOk(c) && NodesOk(c) {
        var before := old(c != next ==> ChunkOk(c));
      }
    }

    /** Continues with another chunk. */
    method NextChunk()
      requires Valid() && current.size == CHUNK_SIZE
      modifies this, Repr
      ensures Anchored() && AllOkBut(null) && SnapshotsOk() && Snapshots == old(Snapshots)
      ensures current.size == 0 && Contents == old(Contents)
      ensures old(Repr) <= Repr && fresh(Repr - old(Repr))
      ensures if old(freelist) == null then Repr == old(Repr) + {current} else Repr == old(Repr) && current == old(freelist)
    {
      assert freelist != null ==> ChunkOk(freelist);
      assert ChunkOk(current);
      var next := TakeChunk();
      LinkChunk(next);
    }

    /** Appends a node. */
    method PushNode(nd: Node)
      requires Valid()
      modifies this, Repr
      ensures Valid() && old(Repr) <= Repr && fresh(Repr - old(Repr))
      ensures Contents == old(Contents) + [nd] && Snapshots == old(Snapshots)
      ensures old(freelist) != null ==> Repr == old(Repr)
    {
      assert ChunkOk(current);
      if current.size == CHUNK_SIZE {
        NextChunk();
      }
      StoreNode(nd);
    }

    /** Stores a node in the chunk with room. */
    method StoreNode(nd: Node)
      requires Anchored() && AllOkBut(null) && SnapshotsOk() && current.size < CHUNK_SIZE
      modifies this`Contents, current`ar, current`size
      ensures Valid() && Contents == old(Contents) + [nd]
    {
      assert ChunkOk(current);
      current.ar := current.ar[current.size := nd];
      current.size := current.size + 1;
      Contents := Contents + [nd];
      forall c | c in Repr ensures ChunkOk(c) {
        var before := old(ChunkOk(c));
      }
    }

    // -------------------------------------------------------------- positions

    /** What is stored before a chunk in use and in it is the beginning of the contents. */
    lemma {:induction false} ChunkIsPrefix(c: NodeChunk)
      requires Valid() && c in Used
      ensures |c.ar| >= c.size && c.before + c.ar[..c.size] <= Contents
      decreases if c in Num && current in Num then Num[current] - Num[c] else 0
    {
      assert ChunkOk(c);
      if c != current {
        assert ChunkOk(c.next);
        ChunkIsPrefix(c.next);
      }
    }

    /** Chunks in use are told apart by their numbers. */
    lemma {:induction false} NumbersAreUnique(c: NodeChunk, d: NodeChunk)
      requires Valid() && c in Used && d in Used && c in Num && d in Num && Num[c] == Num[d]
      ensures c == d
      decreases Num[c]
    {
      assert ChunkOk(c) && ChunkOk(d);
      if c.prev != null { assert ChunkOk(c.prev); }
      if d.prev != null { assert ChunkOk(d.prev); }
      if c.prev != null && d.prev != null {
        NumbersAreUnique(c.prev, d.prev);
        assert c.prev.next == c && d.prev.next == d;
      }
    }

    /** Later chunks start at least one full chunk later. */
    lemma {:induction false} StartsGrow(c: NodeChunk, d: NodeChunk)
      requires Valid() && c in Used && d in Used && c in Num && d in Num && Num[c] < Num[d]
      ensures |c.before| + CHUNK_SIZE <= |d.before|
      decreases Num[d] - Num[c]
    {
      assert ChunkOk(c) && ChunkOk(d);
      if c == current { assert false; }
      assert ChunkOk(c.next);
      if Num[c] + 1 == Num[d] {
        NumbersAreUnique(c.next, d);
      } else {
        StartsGrow(c.next, d);
      }
    }

    /** The position behind the last node. */
    method End() returns (p: Position)
      requires Valid()
      modifies this`Snapshots
      ensures Valid() && p == Position(current, current.size)
      ensures Snapshots == old(Snapshots)[p := Contents] && (p in old(Snapshots) ==> old(Snapshots)[p] == Contents)
    {
      p := Position(current, current.size);
      assert p in Snapshots ==> Denotes(p, |Snapshots[p]|);
      Snapshots := Snapshots[p := Contents];
      assert Denotes(p, |Contents|);
    }

    lemma {:induction false} SnapshotsAreShort()
      requires Valid()
      ensures forall p :: p in Snapshots ==> p.chunk != null && |Snapshots[p]| <= |Contents|
    {
    }

    /** The last chunk of the free list. */
    method LastFree() returns (nd: NodeChunk)
      requires Valid() && freelist != null
      ensures nd in Repr && nd !in Used && nd.next == null
    {
      nd := freelist;
      while nd.next != null
        invariant nd in Repr && nd !in Used
        decreases set c | c in Num.Keys && (nd in Num ==> Num[c] > Num[nd])
      {
        assert ChunkOk(nd);
        ghost var rest := set c | c in Num.Keys && (nd in Num ==> Num[c] > Num[nd]);
        assert nd.next in rest;
        nd := nd.next;
        assert nd in Num;
      }
    }

    /** A chunk in use is either before another one, it, or behind it. */
    lemma {:induction false} TailNumbers(chunk: NodeChunk)
      requires Valid() && chunk in Used
      ensures chunk in Num && Used <= Num.Keys && Num[chunk] >= 0
      ensures forall c :: c in Used && Num[c] == Num[chunk] ==> c == chunk
      ensures forall c :: c in Used && Num[c] > Num[chunk] ==> c != head
    {
      assert ChunkOk(chunk);
      forall c | c in Used ensures c in Num && (Num[c] == Num[chunk] ==> c == chunk) {
        assert ChunkOk(c);
        if Num[c] == Num[chunk] { NumbersAreUnique(c, chunk); }
      }
    }

    /** The chunks behind a position start behind it. */
    lemma {:induction false} TailIsBehind(p: Position, n: nat)
      requires Valid() && Denotes(p, n) && n <= |Contents|
      ensures p.chunk in Num && Used <= Num.Keys
      ensures forall c :: c in Used && Num[c] > Num[p.chunk] ==> |c.before| >= n
      ensures p.chunkpos <= |p.chunk.ar| && Contents[..n] == p.chunk.before + p.chunk.ar[..p.chunkpos]
    {
      TailNumbers(p.chunk);
      assert ChunkOk(p.chunk);
      forall c | c in Used && Num[c] > Num[p.chunk] ensures |c.before| >= n {
        StartsGrow(p.chunk, c);
      }
      ChunkIsPrefix(p.chunk);
    }

    /** The chunks in use behind another one. */
    ghost function TailOf(chunk: NodeChunk): set<NodeChunk>
      reads this`Used, this`Num
    {
      set c | c in Used && c in Num && chunk in Num && Num[c] > Num[chunk]
    }

    /** The first of a chain of free chunks that nothing precedes yet. */
    ghost predicate IsCutOff(first: NodeChunk)
      reads this`Repr, this`Used, this`Num, first, first.next
    {
      && first in Repr && first in Num && first !in Used && first.prev == null && NodesOk(first)
      && (first.next != null ==> first.next in Repr && first.next.prev == first && first.next !in Used
                                 && first.next in Num && Num[first.next] == Num[first] + 1)
    }

    /** The chunks behind a chunk in use are cut off. */
    method CutTail(chunk: NodeChunk) returns (first: NodeChunk)
      requires Valid() && chunk in Used && chunk.next != null
      modifies this`current, this`Used, chunk`next, chunk.next`prev
      ensures AllOkBut(first) && IsCutOff(first) && current == chunk && Used == old(Used - TailOf(chunk))
      ensures first == old(chunk.next) && first in old(TailOf(chunk)) && first != freelist && head in Used && head in Num && Num[head] == 0
      ensures chunk in Num && Num[first] == Num[chunk] + 1
      ensures forall c :: c in Repr && c.next != null ==> (c in old(TailOf(chunk)) <==> c.next in old(TailOf(chunk)))
    {
      TailNumbers(chunk);
      assert ChunkOk(chunk) && ChunkOk(chunk.next);
      first := chunk.next;
      ghost var tail := TailOf(chunk);
      Used := Used - tail;
      current := chunk;
      first.prev := null;
      chunk.next := null;
      forall c | c in Repr && c != first
        ensures ChunkOk(c)
        ensures c.next != null ==> (c in tail <==> c.next in tail)
      {
        var before := old(ChunkOk(c));
      }
    }

    /** The chunks cut off become the free list. */
    method FreeTail(chunk: NodeChunk)
      requires Valid() && chunk in Used && chunk.next != null && freelist == null
      modifies this`freelist, this`current, this`Used, chunk`next, chunk.next`prev
      ensures AllOkBut(null) && current == chunk && Used == old(Used - TailOf(chunk))
      ensures freelist != null && freelist in Repr && freelist !in Used && head in Used && head in Num && Num[head] == 0
    {
      var first := CutTail(chunk);
      label Cut:
      freelist := first;
      forall c | c in Repr ensures ChunkOk(c) {
        var before := old@Cut(c != first ==> ChunkOk(c));
      }
    }

    /** The chunks cut off are linked to the end of the free list. */
    method AppendTail(chunk: NodeChunk, nd: NodeChunk)
      requires Valid() && chunk in Used && chunk.next != null && freelist != null
      requires nd in Repr && nd !in Used && nd.next == null
      modifies this`current, this`Used, this`Num, chunk`next, nd`next, chunk.next`prev
      ensures AllOkBut(null) && current == chunk && Used == old(Used - TailOf(chunk))
      ensures freelist !in Used && head in Used && head in Num && Num[head] == 0
    {
      ghost var tail := TailOf(chunk);
      assert ChunkOk(nd);
      var first := CutTail(chunk);
      Join(nd, first, tail);
      Renumber(tail, nd, Num[nd] + 1 - Num[first]);
    }

    /** Links two chains; their numbers do not fit together yet. */
    method Join(nd: NodeChunk, first: NodeChunk, ghost tail: set<NodeChunk>)
      requires AllOkBut(first) && IsCutOff(first) && first != freelist && first in tail
      requires nd in Repr && nd !in Used && nd.next == null && nd !in tail && nd in Num
      requires forall c :: c in Repr && c.next != null ==> (c in tail <==> c.next in tail)
      modifies nd`next, first`prev
      ensures AllOkBut(nd) && NodesOk(nd) && nd.next == first && first.prev == nd
      ensures nd.prev != null ==> nd.prev in Repr && nd.prev.next == nd
      ensures nd.prev == null <==> nd == freelist
      ensures forall c :: c in Repr && c != nd && c.next != null ==> (c in tail <==> c.next in tail)
    {
      assert ChunkOk(nd);
      nd.next := first;
      first.prev := nd;
      forall c | c in Repr && c != nd ensures ChunkOk(c) {
        var before := old(c != first ==> ChunkOk(c));
      }
    }

    /** Numbers the chunks behind a free chunk anew so that they follow it. */
    ghost method Renumber(tail: set<NodeChunk>, nd: NodeChunk, delta: int)
      requires AllOkBut(nd) && nd in Repr && current in Used && nd !in Used && nd !in tail && nd in Num && tail !! Used && NodesOk(nd)
      requires nd.next != null && nd.next in tail && nd.next in Repr && nd.next in Num && nd.next.prev == nd
      requires nd.prev != null ==> nd.prev in Repr && nd.prev.next == nd
      requires nd.prev == null <==> nd == freelist
      requires Num[nd.next] + delta == Num[nd] + 1
      requires forall c :: c in Repr && c != nd && c.next != null ==> (c in tail <==> c.next in tail)
      modifies this`Num
      ensures AllOkBut(null) && Num.Keys == old(Num.Keys) && forall c :: c in Num && c !in tail ==> Num[c] == old(Num[c])
    {
      Num := map c | c in Num :: Num[c] + if c in tail then delta else 0;
      forall c | c in Repr ensures ChunkOk(c) {
        var before := old(ChunkOk(c));
      }
    }

    /** Cuts the last chunk in use and with it the contents. */
    method CutCurrent(pos: nat, ghost n: nat)
      requires AllOkBut(null) && current in Used && Used <= Repr && pos <= current.size && pos <= |current.ar| && n <= |Contents|
      requires Contents[..n] == current.before + current.ar[..pos]
      requires head in Used && head.before == [] && head in Num && Num[head] == 0
      requires freelist != null ==> freelist in Repr && freelist !in Used
      requires current != head ==> pos > 0
      requires forall q :: q in Snapshots && |Snapshots[q]| <= n ==> Denotes(q, |Snapshots[q]|) && Snapshots[q] <= Contents
      modifies current`size, this`Contents, this`Snapshots
      ensures Valid() && Contents == old(Contents)[..n]
      ensures Snapshots == map q | q in old(Snapshots) && |old(Snapshots)[q]| <= n :: old(Snapshots)[q]
    {
      hide Denotes;
      ShortenCurrent(pos, n);
      Contents := Contents[..n];
      Snapshots := map q | q in Snapshots && |Snapshots[q]| <= n :: Snapshots[q];
    }

    /** Drops nodes of the last chunk in use; positions before the cut stay good. */
    method ShortenCurrent(pos: nat, ghost n: nat)
      requires AllOkBut(null) && current in Used && Used <= Repr && pos <= current.size && n == |current.before| + pos
      requires forall q :: q in Snapshots && |Snapshots[q]| <= n ==> Denotes(q, |Snapshots[q]|)
      modifies current`size
      ensures AllOkBut(null) && current.size == pos
      ensures forall q :: q in Snapshots && |Snapshots[q]| <= n ==> Denotes(q, |Snapshots[q]|)
    {
      assert ChunkOk(current);
      current.size := pos;
      forall q | q in Snapshots && |Snapshots[q]| <= n ensures Denotes(q, |Snapshots[q]|) {
        var before := old(Denotes(q, |Snapshots[q]|));
      }
      forall c | c in Repr ensures ChunkOk(c) {
        var before := old(ChunkOk(c));
      }
    }

    /** Rolls back to an end position: afterwards the contents are exactly those at the time of that position,
        and all earlier positions stay good. No chunk gets lost. */
    method ReleaseTail(p: Position)
      requires Valid() && (p.chunk != null ==> p in Snapshots)
      modifies this, Repr
      ensures Valid() && Repr == old(Repr)
      ensures p.chunk == null ==> Contents == old(Contents) && Snapshots == old(Snapshots)
      ensures p.chunk != null ==> Contents == old(Snapshots)[p]
      ensures p.chunk != null ==> Snapshots == map q | q in old(Snapshots) && |old(Snapshots)[q]| <= |Contents| :: old(Snapshots)[q]
    {
      if p.chunk == null { return; }
      ghost var n := |Snapshots[p]|;
      TailIsBehind(p, n);
      SnapshotsBefore(p, n);
      DropTail(p.chunk);
      CutCurrent(p.chunkpos, n);
    }

    /** The chunks behind a chunk in use, if there are any, become free. */
    method DropTail(chunk: NodeChunk)
      requires Valid() && chunk in Used
      modifies this`freelist, this`current, this`Used, this`Num, Repr`next, Repr`prev
      ensures AllOkBut(null) && current == chunk && Used == old(Used - TailOf(chunk))
      ensures freelist != null ==> freelist in Repr && freelist !in Used
      ensures head in Used && head in Num && Num[head] == 0
    {
      TailNumbers(chunk);
      assert ChunkOk(chunk);
      if chunk.next == null {
        assert chunk == current;
        LastHasNoTail(chunk);
      } else if freelist != null {
        var nd := LastFree();
        AppendTail(chunk, nd);
      } else {
        FreeTail(chunk);
      }
    }

    lemma {:induction false} LastHasNoTail(chunk: NodeChunk)
      requires Valid() && chunk == current
      ensures TailOf(chunk) == {}
    {
      forall c | c in Used ensures c !in TailOf(chunk) { assert ChunkOk(c); }
    }

    /** The positions up to another one are not in the chunks behind it. */
    lemma {:induction false} SnapshotsBefore(p: Position, n: nat)
      requires Valid() && Denotes(p, n) && n <= |Contents|
      ensures forall q :: q in Snapshots && |Snapshots[q]| <= n ==> q.chunk in Used - TailOf(p.chunk)
    {
      TailIsBehind(p, n);
      forall q | q in Snapshots && |Snapshots[q]| <= n ensures q.chunk in Used - TailOf(p.chunk) {
        assert Denotes(q, |Snapshots[q]|);
        if q.chunk in TailOf(p.chunk) { TailNumbers(p.chunk); }
      }
    }

    // -------------------------------------------------------------- all chunks are accounted for

    /** The chunk is met after some steps from the start. */
    ghost predicate Reaches(start: NodeChunk?, c: NodeChunk, steps: nat)
      reads this`Repr, Repr
    {
      && start != null && start in Repr
      && if steps == 0 then start == c else Reaches(start.next, c, steps - 1)
    }

    lemma {:induction false} ReachesNext(start: NodeChunk?, c: NodeChunk, d: NodeChunk, steps: nat)
      requires Reaches(start, c, steps) && d in Repr && c.next == d
      ensures Reaches(start, d, steps + 1)
    {
      if steps > 0 { ReachesNext(start.next, c, d, steps - 1); }
    }

    ghost function Below(c: NodeChunk): set<NodeChunk>
      reads this`Num
    {
      set d | d in Num.Keys && c in Num && Num[d] < Num[c]
    }

    /** Every chunk ever allocated is on the list of its kind: in use from the head, or else on the free list. */
    lemma {:induction false} NoChunkIsLost(c: NodeChunk) returns (steps: nat)
      requires Valid() && c in Repr
      ensures Reaches(if c in Used then head else freelist, c, steps)
      decreases Below(c)
    {
      assert ChunkOk(c);
      if c.prev == null {
        steps := 0;
      } else {
        assert ChunkOk(c.prev);
        assert c.prev in Below(c) && c.prev !in Below(c.prev) && Below(c.prev) <= Below(c);
        var s := NoChunkIsLost(c.prev);
        ReachesNext(if c in Used then head else freelist, c.prev, c, s);
        steps := s + 1;
      }
    }
  }

  /** The next place; at the end nothing follows. */
  function Next(nodes: seq<Node>, pos: nat): (r: nat)
    requires pos <= |nodes|
    ensures pos <= r <= |nodes|
  {
    if pos < |nodes| then pos + 1 else pos
  }

  /** A reading position in a serialization that is not written to meanwhile. */
  class SerializationIter {
    var chunk: NodeChunk
    var chunkpos: nat
    /** The current node, nothing at the end. */
    var value: Option<Node>
    ghost const store: NodeStore
    ghost var pos: nat

    ghost predicate Valid()
      reads this, store, store.Repr, set c | c in store.Repr :: c.next
    {
      && store.Valid() && chunk in store.Used && chunkpos <= chunk.size
      && pos == |chunk.before| + chunkpos && pos <= |store.Contents|
      && value == (if pos < |store.Contents| then Some(store.Contents[pos]) else None)
      && (chunkpos == chunk.size ==> chunk == store.current)
    }

    constructor (ser: NodeStore)
      requires ser.Valid()
      ensures store == ser && Valid() && pos == 0
    {
      store := ser;
      chunk, chunkpos, pos := ser.head, 0, 0;
      assert ser.ChunkOk(ser.head);
      ser.ChunkIsPrefix(ser.head);
      if ser.head.size == 0 {
        value := None;
      } else {
        value := Some(ser.head.ar[0]);
      }
    }

    /** Steps to the next node; at the end nothing happens. */
    method Skip()
      requires Valid()
      modifies this
      ensures Valid()
      ensures pos == if old(pos) < |store.Contents| then old(pos) + 1 else old(pos)
    {
      hide NodeStore.Denotes, NodeStore.SnapshotsOk;
      assert store.ChunkOk(chunk);
      store.ChunkIsPrefix(chunk);
      if chunkpos + 1 >= chunk.size {
        if chunk.next != null {
          assert store.ChunkOk(chunk.next);
          store.ChunkIsPrefix(chunk.next);
          chunk, chunkpos, pos := chunk.next, 0, pos + 1;
          value := Some(chunk.ar[0]);
        } else {
          pos := pos + chunk.size - chunkpos;
          chunkpos := chunk.size;
          value := None;
        }
      } else {
        chunkpos, pos := chunkpos + 1, pos + 1;
        value := Some(chunk.ar[chunkpos]);
      }
    }
  }

  /** Reading from the start to the end gives the contents. */
  method ReadAll(ser: NodeStore) returns (nodes: seq<Node>)
    requires ser.Valid()
    ensures nodes == ser.Contents
  {
    var itr := new SerializationIter(ser);
    nodes := [];
    while itr.value.Some?
      invariant itr.store == ser && itr.Valid() && nodes == ser.Contents[..itr.pos]
      decreases |ser.Contents| - itr.pos
    {
      nodes := nodes + [itr.value.value];
      itr.Skip();
    }
  }
}
