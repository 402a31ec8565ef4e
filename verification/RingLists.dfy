/** Circular guest lists, as chains of next-pointers that must come back to a
    head.  No cycle detection here: this is what the traversals are measured by. */
module RingLists {
  import opened Words
  import opened VmiTypes
  import opened Guest

  /** The pointer stored `link` bytes into a node. */
  ghost function Next(g: Space, link: u64, node: u64): Result<u64>
    requires g.Valid()
  {
    match Add(node, link) case Err(e) => Err(e) case Ok(a) => g.U64(a)
  }

  /** From `node`, following next-pointers meets `head` after exactly `n` nodes. */
  ghost predicate Returns(g: Space, link: u64, head: u64, node: u64, n: nat)
    requires g.Valid()
    decreases n
  {
    if node == head then n == 0
    else n > 0 && Next(g, link, node).Ok? && Returns(g, link, head, Next(g, link, node).value, n - 1)
  }

  ghost function Nodes(g: Space, link: u64, head: u64, node: u64, n: nat): (nodes: seq<u64>)
    requires g.Valid() && Returns(g, link, head, node, n)
    ensures |nodes| == n
    decreases n
  {
    if n == 0 then [] else [node] + Nodes(g, link, head, Next(g, link, node).value, n - 1)
  }

  lemma {:induction false} ReturnsOnce(g: Space, link: u64, head: u64, node: u64, n: nat, m: nat)
    requires g.Valid() && Returns(g, link, head, node, n) && Returns(g, link, head, node, m)
    ensures n == m
    decreases n
  {
    hide Next;
    if node != head { ReturnsOnce(g, link, head, Next(g, link, node).value, n - 1, m - 1); }
  }

  /** Whenever `y` returns to the head, so does `x`, `d` nodes later. */
  ghost predicate LeadsTo(g: Space, link: u64, head: u64, x: u64, y: u64, d: nat)
    requires g.Valid()
  {
    forall n: nat | Returns(g, link, head, y, n) :: Returns(g, link, head, x, n + d)
  }

  /** A node met again never returns: detecting it can only replace one error by
      another. */
  lemma LoopNeverReturns(g: Space, link: u64, head: u64, x: u64, d: nat, n: nat)
    requires g.Valid() && d > 0 && LeadsTo(g, link, head, x, x, d)
    ensures !Returns(g, link, head, x, n)
  {
    hide Returns;
    if Returns(g, link, head, x, n) {
      assert Returns(g, link, head, x, n + d);
      ReturnsOnce(g, link, head, x, n, n + d);
    }
  }

  /** The nodes visited so far, oldest first, all lead to the next one. */
  ghost predicate Trail(g: Space, link: u64, head: u64, visited: seq<u64>, node: u64)
    requires g.Valid()
  {
    forall j | 0 <= j < |visited| :: LeadsTo(g, link, head, visited[j], node, |visited| - j)
  }

  lemma ExtendTrail(g: Space, link: u64, head: u64, visited: seq<u64>, node: u64)
    requires g.Valid() && Trail(g, link, head, visited, node) && node != head && Next(g, link, node).Ok?
    ensures Trail(g, link, head, visited + [node], Next(g, link, node).value)
  {
    hide Next;
    var next, all := Next(g, link, node).value, visited + [node];
    assert LeadsTo(g, link, head, node, next, 1);
    forall j | 0 <= j < |all| ensures LeadsTo(g, link, head, all[j], next, |all| - j) {
      if j < |visited| {
        assert LeadsTo(g, link, head, visited[j], node, |visited| - j);
        forall n: nat | Returns(g, link, head, next, n) ensures Returns(g, link, head, visited[j], n + (|all| - j)) {
          assert Returns(g, link, head, node, n + 1);
          assert Returns(g, link, head, visited[j], n + 1 + (|visited| - j));
        }
      }
    }
  }

  lemma RevisitNeverReturns(g: Space, link: u64, head: u64, visited: seq<u64>, node: u64, n: nat)
    requires g.Valid() && Trail(g, link, head, visited, node) && node in visited
    ensures !Returns(g, link, head, node, n)
  {
    hide Returns, LeadsTo;
    var j :| 0 <= j < |visited| && visited[j] == node;
    LoopNeverReturns(g, link, head, node, |visited| - j, n);
  }

  /** A ring lists each of its nodes once. */
  lemma {:induction false} NodesDistinct(g: Space, link: u64, head: u64, node: u64, n: nat, i: nat, j: nat)
    requires g.Valid() && Returns(g, link, head, node, n) && i < j < n
    ensures Nodes(g, link, head, node, n)[i] != Nodes(g, link, head, node, n)[j]
  {
    hide Next;
    NodeReturns(g, link, head, node, n, i);
    NodeReturns(g, link, head, node, n, j);
    var nodes := Nodes(g, link, head, node, n);
    if nodes[i] == nodes[j] { ReturnsOnce(g, link, head, nodes[i], n - i, n - j); }
  }

  lemma {:induction false} NodeReturns(g: Space, link: u64, head: u64, node: u64, n: nat, i: nat)
    requires g.Valid() && Returns(g, link, head, node, n) && i < n
    ensures Returns(g, link, head, Nodes(g, link, head, node, n)[i], n - i)
    decreases n
  {
    hide Next;
    if i > 0 { NodeReturns(g, link, head, Next(g, link, node).value, n - 1, i - 1); }
  }

  lemma NodeIsNotHead(g: Space, link: u64, head: u64, node: u64, n: nat, i: nat)
    requires g.Valid() && Returns(g, link, head, node, n) && i < n
    ensures Nodes(g, link, head, node, n)[i] != head
  {
    hide Next;
    NodeReturns(g, link, head, node, n, i);
  }
}
