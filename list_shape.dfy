/**
 * The doubly linked execution list of src/linkedList.ts.
 *
 * Node objects live in an arena: a handle stands for a node reference and
 * `nodes` maps each allocated handle to the node's `prev`, `next` and `value`
 * fields. The list keeps a blank sentinel `head` and a `tail` pointer.
 * Two ghost fields describe the shape: `reach` lists the handles visited by
 * following `next` from `head` (the sentinel excluded) and `removed` the
 * handles already passed to `RemoveNode`.
 */
module ListShapes {
  import opened Wrappers

  /** A reference to a node of the list. */
  type Handle = nat

  /** A `prev` or `next` field: `undefined` or a node. */
  datatype Link = Nil | To(handle: Handle)

  /** A node: links to its neighbours and the stored value (absent on the sentinel). */
  datatype Node<T> = Node(prev: Link, next: Link, value: Option<T>)

  /** The values stored at the given handles, in order. */
  function ValuesOf<T>(nodes: map<Handle, Node<T>>, hs: seq<Handle>): seq<T>
    requires forall i :: 0 <= i < |hs| ==> hs[i] in nodes && nodes[hs[i]].value.Some?
  {
    seq(|hs|, i requires 0 <= i < |hs| => nodes[hs[i]].value.value)
  }

  /** The part of a log line contributed by the values `vs`: `"<v> -> "` for each. */
  function Render<T>(show: T -> string, vs: seq<T>): string
  {
    if vs == [] then "" else show(vs[0]) + " -> " + Render(show, vs[1..])
  }

  lemma {:induction false} RenderAppend<T>(show: T -> string, vs: seq<T>, v: T)
    ensures Render(show, vs + [v]) == Render(show, vs) + show(v) + " -> "
  {
    if vs == [] {
      assert vs + [v] == [v];
    } else {
      var first, rest, last := show(vs[0]) + " -> ", Render(show, vs[1..]), show(v) + " -> ";
      calc {
        Render(show, vs + [v]);
        { assert (vs + [v])[0] == vs[0] && (vs + [v])[1..] == vs[1..] + [v]; }
        first + Render(show, vs[1..] + [v]);
        { RenderAppend(show, vs[1..], v); }
        first + (rest + show(v) + " -> ");
        { assert rest + show(v) + " -> " == rest + last; }
        first + (rest + last);
        (first + rest) + last;
      }
    }
  }

  /** A log line before its closing `"NULL"`: `"HEAD -> "` and the part of each value. */
  function Opening<T>(show: T -> string, vs: seq<T>): string
  {
    "HEAD -> " + Render(show, vs)
  }

  /** Rendering one more value of `vs` appends that value's part. */
  lemma OpeningPrefix<T>(show: T -> string, vs: seq<T>, i: nat)
    requires i < |vs|
    ensures Opening(show, vs[..i + 1]) == Opening(show, vs[..i]) + show(vs[i]) + " -> "
  {
    assert vs[..i + 1] == vs[..i] + [vs[i]];
    RenderAppend(show, vs[..i], vs[i]);
  }

  /** A node handed out by `Add` and not yet passed to `RemoveNode`. */
  ghost predicate LiveIn<T>(nodes: map<Handle, Node<T>>, head: Handle, removed: set<Handle>, h: Handle)
  {
    h in nodes && h != head && h !in removed
  }

  /** The last node on the chain from `head`: where a correctly kept `tail` points. */
  function LastOf(head: Handle, reach: seq<Handle>): Handle
  {
    if |reach| == 0 then head else reach[|reach| - 1]
  }

  /**
   * Every allocated handle is below the allocator, `prev` links point at an
   * older node and `next` links at a newer one; the sentinel is the oldest
   * node, has no `prev` and holds no value.
   */
  ghost predicate ArenaOk<T>(nodes: map<Handle, Node<T>>, head: Handle, nextHandle: Handle)
  {
    head in nodes && nodes[head].prev == Nil && nodes[head].value == None &&
    (forall h :: h in nodes ==> h < nextHandle) &&
    forall h {:trigger nodes[h]} :: h in nodes ==>
      (nodes[h].prev.To? ==> nodes[h].prev.handle in nodes && nodes[h].prev.handle < h) &&
      (nodes[h].next.To? ==> nodes[h].next.handle in nodes && h < nodes[h].next.handle) &&
      (h != head ==> head < h && nodes[h].prev.To? && nodes[h].value.Some?)
  }

  /**
   * Positions `i` and `i + 1` of the chain link to each other. Adjacency on a
   * chain is stated with it, so that it is used only where a proof asks for it.
   */
  ghost predicate Linked<T>(nodes: map<Handle, Node<T>>, reach: seq<Handle>, i: int)
  {
    0 <= i && i + 1 < |reach| && reach[i] in nodes && reach[i + 1] in nodes &&
    nodes[reach[i]].next == To(reach[i + 1]) && nodes[reach[i + 1]].prev == To(reach[i])
  }

  /** `reach` is exactly what following `next` from `head` visits, and `prev` walks it back. */
  ghost predicate ChainOk<T>(nodes: map<Handle, Node<T>>, head: Handle, reach: seq<Handle>, removed: set<Handle>)
  {
    (forall i :: 0 <= i < |reach| ==> reach[i] in nodes && reach[i] != head && reach[i] !in removed) &&
    head in nodes &&
    nodes[head].next == (if |reach| == 0 then Nil else To(reach[0])) &&
    (|reach| > 0 ==> nodes[reach[0]].prev == To(head) && nodes[reach[|reach| - 1]].next == Nil) &&
    (forall i :: 0 <= i < |reach| - 1 ==> Linked(nodes, reach, i))
  }

  /** A live node off the chain never links back into it. */
  ghost predicate OffChainOk<T>(nodes: map<Handle, Node<T>>, head: Handle, reach: seq<Handle>, removed: set<Handle>)
  {
    forall h {:trigger nodes[h]} :: h in nodes && h != head && h !in removed && h !in reach ==>
      nodes[h].prev.To? && nodes[h].prev.handle != head && nodes[h].prev.handle !in reach &&
      (nodes[h].next.To? ==> nodes[h].next.handle !in reach)
  }

  /**
   * `tail` is the last node of the chain, or a node off it. While it is the
   * last node, every live node is on the chain.
   */
  ghost predicate TailOk<T>(nodes: map<Handle, Node<T>>, head: Handle, tail: Handle, reach: seq<Handle>, removed: set<Handle>)
  {
    tail in nodes &&
    (tail == LastOf(head, reach) || (tail != head && tail !in reach)) &&
    (tail == LastOf(head, reach) ==>
      forall h {:trigger nodes[h]} :: h in nodes && h != head && h !in removed ==> h in reach)
  }

  ghost predicate Shape<T>(nodes: map<Handle, Node<T>>, head: Handle, tail: Handle, nextHandle: Handle,
                           reach: seq<Handle>, removed: set<Handle>)
  {
    ArenaOk(nodes, head, nextHandle) && removed <= nodes.Keys && ChainOk(nodes, head, reach, removed) &&
    OffChainOk(nodes, head, reach, removed) && TailOk(nodes, head, tail, reach, removed)
  }

  /** The arena after `Add(v)` links handle `h` after `tail`. */
  function Appended<T>(nodes: map<Handle, Node<T>>, tail: Handle, h: Handle, v: T): map<Handle, Node<T>>
    requires tail in nodes
  {
    nodes[tail := nodes[tail].(next := To(h))][h := Node(To(tail), Nil, Some(v))]
  }

  /**
   * The arena after `RemoveNode(n)`: the node before `n` now leads to the node
   * after it and that one leads back; every other node, `n` included, is as it was.
   */
  function Unlinked<T>(nodes: map<Handle, Node<T>>, n: Handle): (m: map<Handle, Node<T>>)
    requires n in nodes
    ensures m.Keys == nodes.Keys
  {
    map x | x in nodes ::
      if To(x) == nodes[n].prev then nodes[x].(next := nodes[n].next)
      else if To(x) == nodes[n].next then nodes[x].(prev := nodes[n].prev)
      else nodes[x]
  }

  /** Along the chain, handles increase: each `next` link leads to a newer node. */
  lemma ChainIncreases<T>(nodes: map<Handle, Node<T>>, head: Handle, reach: seq<Handle>,
                          removed: set<Handle>, nextHandle: Handle, i: nat, j: nat)
    requires ArenaOk(nodes, head, nextHandle) && ChainOk(nodes, head, reach, removed)
    requires i < j < |reach|
    ensures reach[i] < reach[j]
  {
    forall a, b | 0 <= a < b < |reach| && b == a + 1
      ensures Before(reach, a, b)
    {
      assert Linked(nodes, reach, a);
    }
    StepsIncrease(reach, i, j);
  }

  /** A sequence that rises at every step rises between any two positions. */
  lemma {:induction false} StepsIncrease(s: seq<Handle>, i: nat, j: nat)
    requires forall a, b :: 0 <= a < b < |s| && b == a + 1 ==> Before(s, a, b)
    requires i < j < |s|
    ensures s[i] < s[j]
    decreases j - i
  {
    assert Before(s, j - 1, j);
    if i < j - 1 {
      StepsIncrease(s, i, j - 1);
    }
  }

  // Add: the arena, then each part of the shape, in the case where the tail
  // is the last node on the chain and in the case where it is off the chain.

  lemma AppendKeepsArena<T>(nodes: map<Handle, Node<T>>, head: Handle, tail: Handle, nextHandle: Handle, v: T)
    requires ArenaOk(nodes, head, nextHandle) && tail in nodes
    ensures ArenaOk(Appended(nodes, tail, nextHandle, v), head, nextHandle + 1)
  {
    var m := Appended(nodes, tail, nextHandle, v);
    assert m.Keys == nodes.Keys + {nextHandle};
    forall h | h in m
      ensures m[h].prev.To? ==> m[h].prev.handle in m && m[h].prev.handle < h
      ensures m[h].next.To? ==> m[h].next.handle in m && h < m[h].next.handle
      ensures h != head ==> head < h && m[h].prev.To? && m[h].value.Some?
    {
      if h == nextHandle {
        assert tail < nextHandle;
      } else if h == tail {
        assert m[h] == nodes[h].(next := To(nextHandle));
      } else {
        assert m[h] == nodes[h];
      }
    }
  }

  lemma AppendAtLastKeepsChain<T>(nodes: map<Handle, Node<T>>, head: Handle, tail: Handle, nextHandle: Handle,
                                  reach: seq<Handle>, removed: set<Handle>, v: T)
    requires ArenaOk(nodes, head, nextHandle) && ChainOk(nodes, head, reach, removed)
    requires tail == LastOf(head, reach) && nextHandle !in removed
    ensures ChainOk(Appended(nodes, tail, nextHandle, v), head, reach + [nextHandle], removed)
  {
    var nodes', reach' := Appended(nodes, tail, nextHandle, v), reach + [nextHandle];
    forall j | 0 <= j < |reach'| - 1 ensures Linked(nodes', reach', j) {
      if j + 1 < |reach| {
        assert Linked(nodes, reach, j);
        assert reach[j] != tail by {
          assert nodes[reach[|reach| - 1]].next == Nil;
        }
        AppendKeepsLink(nodes, reach, tail, nextHandle, v, j);
      } else {
        AppendLinksLast(nodes, reach, tail, nextHandle, v);
      }
    }
  }

  /** A link between two old nodes, neither of them the tail's `next` side, survives `add`. */
  lemma AppendKeepsLink<T>(nodes: map<Handle, Node<T>>, reach: seq<Handle>, tail: Handle, h: Handle, v: T, j: nat)
    requires tail in nodes && h !in nodes
    requires Linked(nodes, reach, j) && reach[j] != tail
    ensures Linked(Appended(nodes, tail, h, v), reach + [h], j)
  {
  }

  /** `add` after the last node of the chain links that node and the new one. */
  lemma AppendLinksLast<T>(nodes: map<Handle, Node<T>>, reach: seq<Handle>, tail: Handle, h: Handle, v: T)
    requires tail in nodes && h !in nodes && reach != [] && reach[|reach| - 1] == tail
    ensures Linked(Appended(nodes, tail, h, v), reach + [h], |reach| - 1)
  {
  }

  lemma AppendOffChainKeepsChain<T>(nodes: map<Handle, Node<T>>, head: Handle, tail: Handle, nextHandle: Handle,
                                    reach: seq<Handle>, removed: set<Handle>, v: T)
    requires ArenaOk(nodes, head, nextHandle) && ChainOk(nodes, head, reach, removed)
    requires tail in nodes && tail != head && tail !in reach
    ensures ChainOk(Appended(nodes, tail, nextHandle, v), head, reach, removed)
  {
    var nodes' := Appended(nodes, tail, nextHandle, v);
    forall j | 0 <= j < |reach| - 1 ensures Linked(nodes', reach, j) {
      assert Linked(nodes, reach, j);
    }
  }

  lemma AppendAtLastKeepsOffChain<T>(nodes: map<Handle, Node<T>>, head: Handle, tail: Handle, nextHandle: Handle,
                                     reach: seq<Handle>, removed: set<Handle>, v: T)
    requires ArenaOk(nodes, head, nextHandle) && TailOk(nodes, head, tail, reach, removed)
    requires tail == LastOf(head, reach)
    ensures OffChainOk(Appended(nodes, tail, nextHandle, v), head, reach + [nextHandle], removed)
  {
  }

  lemma AppendOffChainKeepsOffChain<T>(nodes: map<Handle, Node<T>>, head: Handle, tail: Handle, nextHandle: Handle,
                                       reach: seq<Handle>, removed: set<Handle>, v: T)
    requires ArenaOk(nodes, head, nextHandle) && ChainOk(nodes, head, reach, removed)
    requires OffChainOk(nodes, head, reach, removed)
    requires tail in nodes && tail != head && tail !in reach
    ensures OffChainOk(Appended(nodes, tail, nextHandle, v), head, reach, removed)
  {
  }

  lemma AppendAtLastKeepsTail<T>(nodes: map<Handle, Node<T>>, head: Handle, tail: Handle, nextHandle: Handle,
                                 reach: seq<Handle>, removed: set<Handle>, v: T)
    requires ArenaOk(nodes, head, nextHandle) && TailOk(nodes, head, tail, reach, removed)
    requires tail == LastOf(head, reach)
    ensures TailOk(Appended(nodes, tail, nextHandle, v), head, nextHandle, reach + [nextHandle], removed)
  {
  }

  lemma AppendOffChainKeepsTail<T>(nodes: map<Handle, Node<T>>, head: Handle, tail: Handle, nextHandle: Handle,
                                   reach: seq<Handle>, removed: set<Handle>, v: T)
    requires ArenaOk(nodes, head, nextHandle) && ChainOk(nodes, head, reach, removed)
    requires tail in nodes && tail != head && tail !in reach
    ensures TailOk(Appended(nodes, tail, nextHandle, v), head, nextHandle, reach, removed)
  {
  }

  lemma AppendValues<T>(nodes: map<Handle, Node<T>>, head: Handle, tail: Handle, nextHandle: Handle,
                        reach: seq<Handle>, removed: set<Handle>, v: T)
    requires ArenaOk(nodes, head, nextHandle) && ChainOk(nodes, head, reach, removed) && tail in nodes
    ensures var nodes' := Appended(nodes, tail, nextHandle, v);
            ValuesOf(nodes', reach) == ValuesOf(nodes, reach) &&
            ValuesOf(nodes', reach + [nextHandle]) == ValuesOf(nodes, reach) + [v]
  {
  }

  /** Following `next` from position `i` of the chain (the sentinel being position 0) leads to position `i + 1`, or nowhere at the end. */
  lemma ChainStep<T>(nodes: map<Handle, Node<T>>, head: Handle, reach: seq<Handle>, removed: set<Handle>, i: nat)
    requires ChainOk(nodes, head, reach, removed)
    requires i <= |reach|
    ensures (if i == 0 then head else reach[i - 1]) in nodes
    ensures nodes[if i == 0 then head else reach[i - 1]].next == if i == |reach| then Nil else To(reach[i])
  {
    if 0 < i < |reach| {
      assert Linked(nodes, reach, i - 1);
    }
  }

  /**
   * Appending keeps the shape. The new node joins the chain exactly when the
   * tail was its last node; returns the new chain.
   */
  lemma AppendKeepsShape<T>(nodes: map<Handle, Node<T>>, head: Handle, tail: Handle, nextHandle: Handle,
                            reach: seq<Handle>, removed: set<Handle>, v: T) returns (reach': seq<Handle>)
    requires Shape(nodes, head, tail, nextHandle, reach, removed)
    ensures Shape(Appended(nodes, tail, nextHandle, v), head, nextHandle, nextHandle + 1, reach', removed)
    ensures nextHandle !in nodes
    ensures tail == LastOf(head, reach) ==>
      reach' == reach + [nextHandle] && nextHandle == LastOf(head, reach') &&
      ValuesOf(Appended(nodes, tail, nextHandle, v), reach') == ValuesOf(nodes, reach) + [v]
    ensures tail != LastOf(head, reach) ==>
      reach' == reach && nextHandle != LastOf(head, reach') &&
      ValuesOf(Appended(nodes, tail, nextHandle, v), reach') == ValuesOf(nodes, reach)
  {
    AppendKeepsArena(nodes, head, tail, nextHandle, v);
    AppendValues(nodes, head, tail, nextHandle, reach, removed, v);
    if tail == LastOf(head, reach) {
      AppendAtLastKeepsChain(nodes, head, tail, nextHandle, reach, removed, v);
      AppendAtLastKeepsOffChain(nodes, head, tail, nextHandle, reach, removed, v);
      AppendAtLastKeepsTail(nodes, head, tail, nextHandle, reach, removed, v);
      reach' := reach + [nextHandle];
    } else {
      AppendOffChainKeepsChain(nodes, head, tail, nextHandle, reach, removed, v);
      AppendOffChainKeepsOffChain(nodes, head, tail, nextHandle, reach, removed, v);
      AppendOffChainKeepsTail(nodes, head, tail, nextHandle, reach, removed, v);
      reach' := reach;
    }
  }

  // RemoveNode on a node off the chain: the chain is untouched.

  lemma UnlinkKeepsArena<T>(nodes: map<Handle, Node<T>>, head: Handle, nextHandle: Handle, n: Handle)
    requires ArenaOk(nodes, head, nextHandle) && n in nodes && n != head
    ensures ArenaOk(Unlinked(nodes, n), head, nextHandle)
  {
    var m := Unlinked(nodes, n);
    var node := nodes[n];
    assert m.Keys == nodes.Keys;
    forall h | h in m
      ensures m[h].prev.To? ==> m[h].prev.handle in m && m[h].prev.handle < h
      ensures m[h].next.To? ==> m[h].next.handle in m && h < m[h].next.handle
      ensures h != head ==> head < h && m[h].prev.To? && m[h].value.Some?
    {
      var before := nodes[h];
      if To(h) == node.prev {
        assert m[h] == before.(next := node.next);
      } else if To(h) == node.next {
        assert m[h] == before.(prev := node.prev);
      } else {
        assert m[h] == before;
      }
    }
  }

  lemma UnlinkOffChainKeepsChain<T>(nodes: map<Handle, Node<T>>, head: Handle,
                                    reach: seq<Handle>, removed: set<Handle>, n: Handle)
    requires ChainOk(nodes, head, reach, removed) && OffChainOk(nodes, head, reach, removed)
    requires LiveIn(nodes, head, removed, n) && n !in reach && nodes[n].next != To(head)
    ensures ChainOk(Unlinked(nodes, n), head, reach, removed + {n})
  {
    var nodes' := Unlinked(nodes, n);
    forall j | 0 <= j < |reach| - 1 ensures Linked(nodes', reach, j) {
      assert Linked(nodes, reach, j);
    }
  }

  lemma UnlinkOffChainKeepsOffChain<T>(nodes: map<Handle, Node<T>>, head: Handle,
                                       reach: seq<Handle>, removed: set<Handle>, n: Handle)
    requires OffChainOk(nodes, head, reach, removed)
    requires LiveIn(nodes, head, removed, n) && n !in reach
    ensures OffChainOk(Unlinked(nodes, n), head, reach, removed + {n})
  {
    var nodes' := Unlinked(nodes, n);
    var node := nodes[n];
    assert node.prev.To? && node.prev.handle != head && node.prev.handle !in reach;
    assert node.next.To? ==> node.next.handle !in reach;
    forall h | h in nodes' && h != head && h !in removed + {n} && h !in reach
      ensures nodes'[h].prev.To? && nodes'[h].prev.handle != head && nodes'[h].prev.handle !in reach
      ensures nodes'[h].next.To? ==> nodes'[h].next.handle !in reach
    {
      assert nodes[h].prev.To?;
    }
  }

  lemma UnlinkOffChainKeepsTail<T>(nodes: map<Handle, Node<T>>, head: Handle, tail: Handle,
                                   reach: seq<Handle>, removed: set<Handle>, n: Handle)
    requires TailOk(nodes, head, tail, reach, removed)
    requires LiveIn(nodes, head, removed, n) && n !in reach
    ensures TailOk(Unlinked(nodes, n), head, tail, reach, removed + {n})
  {
  }

  lemma UnlinkOffChainKeepsValues<T>(nodes: map<Handle, Node<T>>, head: Handle, nextHandle: Handle,
                                     reach: seq<Handle>, removed: set<Handle>, n: Handle)
    requires ArenaOk(nodes, head, nextHandle) && ChainOk(nodes, head, reach, removed)
    requires n in nodes && n != head
    ensures ValuesOf(Unlinked(nodes, n), reach) == ValuesOf(nodes, reach)
  {
  }

  lemma UnlinkOffChainKeepsShape<T>(nodes: map<Handle, Node<T>>, head: Handle, tail: Handle, nextHandle: Handle,
                                    reach: seq<Handle>, removed: set<Handle>, n: Handle)
    requires Shape(nodes, head, tail, nextHandle, reach, removed)
    requires LiveIn(nodes, head, removed, n) && n !in reach
    ensures Shape(Unlinked(nodes, n), head, tail, nextHandle, reach, removed + {n})
    ensures ValuesOf(Unlinked(nodes, n), reach) == ValuesOf(nodes, reach)
  {
    UnlinkKeepsArena(nodes, head, nextHandle, n);
    assert nodes[n].next != To(head);
    UnlinkOffChainKeepsChain(nodes, head, reach, removed, n);
    UnlinkOffChainKeepsOffChain(nodes, head, reach, removed, n);
    UnlinkOffChainKeepsTail(nodes, head, tail, reach, removed, n);
    UnlinkOffChainKeepsValues(nodes, head, nextHandle, reach, removed, n);
  }

  // RemoveNode on the node at position i of the chain.

  /** Dropping position `i` shifts every later position down by one. */
  lemma DropAt(reach: seq<Handle>, i: nat)
    requires i < |reach|
    ensures |Drop(reach, i)| == |reach| - 1
    ensures forall j :: 0 <= j < |reach| - 1 ==> Drop(reach, i)[j] == if j < i then reach[j] else reach[j + 1]
  {
  }

  /** What unlinking the node at position `i` does to the node at another position `a`. */
  lemma UnlinkedOnChainAt<T>(nodes: map<Handle, Node<T>>, head: Handle, reach: seq<Handle>,
                             removed: set<Handle>, i: nat, a: nat)
    requires ChainOk(nodes, head, reach, removed) && Distinct(reach)
    requires i < |reach| && a < |reach| && a != i
    ensures Unlinked(nodes, reach[i])[reach[a]] ==
      if a + 1 == i then nodes[reach[a]].(next := nodes[reach[i]].next)
      else if a == i + 1 then nodes[reach[a]].(prev := nodes[reach[i]].prev)
      else nodes[reach[a]]
  {
    ChainNeighbours(nodes, head, reach, removed, i, a);
  }

  /** The only chain nodes the node at position `i` points at are its neighbours in the chain. */
  lemma ChainNeighbours<T>(nodes: map<Handle, Node<T>>, head: Handle, reach: seq<Handle>,
                           removed: set<Handle>, i: nat, a: nat)
    requires ChainOk(nodes, head, reach, removed) && Distinct(reach)
    requires i < |reach| && a < |reach| && a != i
    ensures To(reach[a]) == nodes[reach[i]].prev <==> a + 1 == i
    ensures To(reach[a]) == nodes[reach[i]].next <==> a == i + 1
  {
    assert reach[a] != head;
    if i > 0 {
      assert Linked(nodes, reach, i - 1);
    }
    if i + 1 < |reach| {
      assert Linked(nodes, reach, i);
    }
  }

  /** No handle occurs twice in `s`. */
  ghost predicate Distinct(s: seq<Handle>)
  {
    forall a, b :: 0 <= a < b < |s| ==> s[a] != s[b]
  }

  /** No handle occurs twice on the chain. */
  lemma ChainDistinct<T>(nodes: map<Handle, Node<T>>, head: Handle, reach: seq<Handle>,
                         removed: set<Handle>, nextHandle: Handle)
    requires ArenaOk(nodes, head, nextHandle) && ChainOk(nodes, head, reach, removed)
    ensures Distinct(reach)
  {
    forall a, b | 0 <= a < b < |reach|
      ensures reach[a] != reach[b]
    {
      ChainIncreases(nodes, head, reach, removed, nextHandle, a, b);
    }
  }

  /** Unlinking the node at position `i` rewrites the sentinel only when `i` is the first position. */
  lemma UnlinkedOnChainHead<T>(nodes: map<Handle, Node<T>>, head: Handle, reach: seq<Handle>,
                               removed: set<Handle>, i: nat)
    requires ChainOk(nodes, head, reach, removed) && Distinct(reach)
    requires i < |reach|
    ensures Unlinked(nodes, reach[i])[head] ==
      if i == 0 then nodes[head].(next := nodes[reach[i]].next) else nodes[head]
  {
    var n := reach[i];
    if i > 0 {
      assert Linked(nodes, reach, i - 1);
    }
    if i + 1 < |reach| {
      assert Linked(nodes, reach, i);
    }
  }

  lemma UnlinkOnChainKeepsLinks<T>(nodes: map<Handle, Node<T>>, head: Handle, reach: seq<Handle>,
                                   removed: set<Handle>, i: nat)
    requires ChainOk(nodes, head, reach, removed) && Distinct(reach)
    requires i < |reach|
    ensures var nodes' := Unlinked(nodes, reach[i]);
            var reach' := Drop(reach, i);
            forall j :: 0 <= j < |reach'| - 1 ==> Linked(nodes', reach', j)
  {
    var n := reach[i];
    var nodes' := Unlinked(nodes, n);
    var reach' := Drop(reach, i);
    DropAt(reach, i);
    forall j | 0 <= j < |reach'| - 1 ensures Linked(nodes', reach', j) {
      var k := j + 1;
      if k < i {
        assert Linked(nodes, reach, j);
        UnlinkedOnChainAt(nodes, head, reach, removed, i, j);
        UnlinkedOnChainAt(nodes, head, reach, removed, i, k);
      } else if k == i {
        assert Linked(nodes, reach, j) && Linked(nodes, reach, i);
        UnlinkedOnChainAt(nodes, head, reach, removed, i, j);
        UnlinkedOnChainAt(nodes, head, reach, removed, i, i + 1);
      } else {
        assert Linked(nodes, reach, j + 1);
        UnlinkedOnChainAt(nodes, head, reach, removed, i, j + 1);
        UnlinkedOnChainAt(nodes, head, reach, removed, i, k + 1);
      }
    }
  }

  /** Dropping a position keeps only handles that were there. */
  lemma DropSubset(reach: seq<Handle>, i: nat)
    requires i < |reach|
    ensures forall x :: x in Drop(reach, i) ==> x in reach
  {
    assert forall x :: x in reach[..i] ==> x in reach;
    assert forall x :: x in reach[i + 1..] ==> x in reach;
  }

  /** Dropping position `i` keeps every other handle of the chain. */
  lemma DropKeepsMember(reach: seq<Handle>, i: nat, x: Handle)
    requires i < |reach| && x in reach && x != reach[i]
    ensures x in Drop(reach, i)
  {
    var j :| 0 <= j < |reach| && reach[j] == x;
    if j < i {
      assert x in reach[..i];
    } else {
      assert reach[i + 1..][j - i - 1] == x;
    }
  }

  /** The handle at position `i` occurs nowhere else on the chain. */
  lemma ChainPositionUnique<T>(nodes: map<Handle, Node<T>>, head: Handle, reach: seq<Handle>,
                               removed: set<Handle>, nextHandle: Handle, i: nat)
    requires ArenaOk(nodes, head, nextHandle) && ChainOk(nodes, head, reach, removed)
    requires i < |reach|
    ensures reach[i] !in Drop(reach, i)
  {
    forall j | 0 <= j < |reach| && j != i ensures reach[j] != reach[i] {
      if j < i { ChainIncreases(nodes, head, reach, removed, nextHandle, j, i); }
      else { ChainIncreases(nodes, head, reach, removed, nextHandle, i, j); }
    }
    assert reach[i] !in reach[..i];
    assert reach[i] !in reach[i + 1..];
  }

  lemma UnlinkOnChainKeepsMembers<T>(nodes: map<Handle, Node<T>>, head: Handle, reach: seq<Handle>,
                                     removed: set<Handle>, nextHandle: Handle, i: nat)
    requires ArenaOk(nodes, head, nextHandle) && ChainOk(nodes, head, reach, removed)
    requires i < |reach|
    ensures var reach' := Drop(reach, i);
            forall k :: 0 <= k < |reach'| ==> reach'[k] in nodes && reach'[k] != head && reach'[k] !in removed + {reach[i]}
  {
    var reach' := Drop(reach, i);
    DropAt(reach, i);
    forall k | 0 <= k < |reach'| ensures reach'[k] in nodes && reach'[k] != head && reach'[k] !in removed + {reach[i]} {
      if k < i {
        ChainIncreases(nodes, head, reach, removed, nextHandle, k, i);
      } else {
        ChainIncreases(nodes, head, reach, removed, nextHandle, i, k + 1);
      }
    }
  }

  lemma UnlinkOnChainKeepsFirst<T>(nodes: map<Handle, Node<T>>, head: Handle, reach: seq<Handle>,
                                   removed: set<Handle>, i: nat)
    requires ChainOk(nodes, head, reach, removed) && Distinct(reach)
    requires i < |reach|
    ensures var nodes' := Unlinked(nodes, reach[i]);
            var reach' := Drop(reach, i);
            nodes'[head].next == (if |reach'| == 0 then Nil else To(reach'[0])) &&
            (|reach'| > 0 ==> nodes'[reach'[0]].prev == To(head))
  {
    var n := reach[i];
    var reach' := Drop(reach, i);
    DropAt(reach, i);
    UnlinkedOnChainHead(nodes, head, reach, removed, i);
    if i + 1 < |reach| {
      assert Linked(nodes, reach, i);
    }
    if |reach'| > 0 {
      if i == 0 {
        UnlinkedOnChainAt(nodes, head, reach, removed, i, 1);
      } else {
        assert Linked(nodes, reach, i - 1);
        UnlinkedOnChainAt(nodes, head, reach, removed, i, 0);
      }
    }
  }

  lemma UnlinkOnChainKeepsLast<T>(nodes: map<Handle, Node<T>>, head: Handle, reach: seq<Handle>,
                                  removed: set<Handle>, i: nat)
    requires ChainOk(nodes, head, reach, removed) && Distinct(reach)
    requires i < |reach|
    ensures var reach' := Drop(reach, i);
            |reach'| > 0 ==> Unlinked(nodes, reach[i])[reach'[|reach'| - 1]].next == Nil
  {
    var reach' := Drop(reach, i);
    var last := |reach| - 1;
    if last > 0 {
      assert nodes[reach[last]].next == Nil;
      if i == last {
        assert reach'[|reach'| - 1] == reach[..i][i - 1] == reach[i - 1];
        UnlinkedOnChainAt(nodes, head, reach, removed, i, i - 1);
      } else {
        assert reach'[|reach'| - 1] == reach[i + 1..][last - i - 1] == reach[last];
        UnlinkedOnChainAt(nodes, head, reach, removed, i, last);
      }
    }
  }

  lemma UnlinkOnChainKeepsChain<T>(nodes: map<Handle, Node<T>>, head: Handle, reach: seq<Handle>,
                                   removed: set<Handle>, nextHandle: Handle, i: nat)
    requires ArenaOk(nodes, head, nextHandle) && ChainOk(nodes, head, reach, removed)
    requires i < |reach|
    ensures ChainOk(Unlinked(nodes, reach[i]), head, Drop(reach, i), removed + {reach[i]})
  {
    UnlinkOnChainKeepsMembers(nodes, head, reach, removed, nextHandle, i);
    ChainDistinct(nodes, head, reach, removed, nextHandle);
    UnlinkOnChainKeepsFirst(nodes, head, reach, removed, i);
    UnlinkOnChainKeepsLast(nodes, head, reach, removed, i);
    UnlinkOnChainKeepsLinks(nodes, head, reach, removed, i);
  }

  lemma UnlinkOnChainKeepsOffChain<T>(nodes: map<Handle, Node<T>>, head: Handle, reach: seq<Handle>,
                                      removed: set<Handle>, nextHandle: Handle, i: nat)
    requires ArenaOk(nodes, head, nextHandle) && ChainOk(nodes, head, reach, removed)
    requires OffChainOk(nodes, head, reach, removed)
    requires i < |reach|
    ensures OffChainOk(Unlinked(nodes, reach[i]), head, Drop(reach, i), removed + {reach[i]})
  {
    var n := reach[i];
    var nodes' := Unlinked(nodes, n);
    var reach' := Drop(reach, i);
    DropSubset(reach, i);
    assert nodes[n].prev == To(if i == 0 then head else reach[i - 1]) by {
      if i > 0 { assert Linked(nodes, reach, i - 1); }
    }
    assert nodes[n].next.To? ==> nodes[n].next.handle in reach by {
      if i + 1 < |reach| { assert Linked(nodes, reach, i); }
    }
    forall h | h in nodes' && h != head && h !in removed + {n} && h !in reach'
      ensures nodes'[h].prev.To? && nodes'[h].prev.handle != head && nodes'[h].prev.handle !in reach' &&
              (nodes'[h].next.To? ==> nodes'[h].next.handle !in reach')
    {
      if h in reach {
        DropKeepsMember(reach, i, h);
      }
      assert nodes'[h] == nodes[h];
    }
  }

  lemma UnlinkOnChainKeepsTail<T>(nodes: map<Handle, Node<T>>, head: Handle, tail: Handle, reach: seq<Handle>,
                                  removed: set<Handle>, nextHandle: Handle, i: nat)
    requires ArenaOk(nodes, head, nextHandle) && ChainOk(nodes, head, reach, removed)
    requires TailOk(nodes, head, tail, reach, removed)
    requires i < |reach|
    ensures TailOk(Unlinked(nodes, reach[i]), head, tail, Drop(reach, i), removed + {reach[i]})
    ensures tail != reach[i] ==> (tail == LastOf(head, Drop(reach, i)) <==> tail == LastOf(head, reach))
  {
    var n := reach[i];
    var reach' := Drop(reach, i);
    var last' := LastOf(head, reach');
    assert last' == head || last' in reach';
    if tail == LastOf(head, reach) && tail != n {
      assert i < |reach| - 1;
      assert last' == reach'[|reach'| - 1] == reach[|reach| - 1];
      forall h | h in nodes && h != head && h !in removed + {n} ensures h in reach' {
        DropKeepsMember(reach, i, h);
      }
    } else {
      if tail == n {
        ChainPositionUnique(nodes, head, reach, removed, nextHandle, i);
      }
      DropSubset(reach, i);
      assert tail != head && tail !in reach';
    }
  }

  lemma UnlinkOnChainKeepsValues<T>(nodes: map<Handle, Node<T>>, head: Handle, reach: seq<Handle>,
                                    removed: set<Handle>, nextHandle: Handle, i: nat)
    requires ArenaOk(nodes, head, nextHandle) && ChainOk(nodes, head, reach, removed)
    requires i < |reach|
    ensures forall k :: 0 <= k < |Drop(reach, i)| ==>
      Drop(reach, i)[k] in Unlinked(nodes, reach[i]) && Unlinked(nodes, reach[i])[Drop(reach, i)[k]].value.Some?
    ensures ValuesOf(Unlinked(nodes, reach[i]), Drop(reach, i)) == Drop(ValuesOf(nodes, reach), i)
  {
    var nodes', reach' := Unlinked(nodes, reach[i]), Drop(reach, i);
    DropAt(reach, i);
    forall k | 0 <= k < |reach'|
      ensures reach'[k] in nodes' && nodes'[reach'[k]].value == nodes[reach'[k]].value && nodes'[reach'[k]].value.Some?
    {
      assert reach'[k] in nodes && reach'[k] != head;
    }
    var vs, vs' := ValuesOf(nodes, reach), ValuesOf(nodes', reach');
    assert |vs'| == |Drop(vs, i)|;
    forall k | 0 <= k < |vs'| ensures vs'[k] == Drop(vs, i)[k] {
      assert vs'[k] == nodes[reach'[k]].value.value;
    }
  }

  lemma UnlinkOnChainKeepsShape<T>(nodes: map<Handle, Node<T>>, head: Handle, tail: Handle, nextHandle: Handle,
                                   reach: seq<Handle>, removed: set<Handle>, i: nat)
    requires Shape(nodes, head, tail, nextHandle, reach, removed)
    requires i < |reach|
    ensures Shape(Unlinked(nodes, reach[i]), head, tail, nextHandle, Drop(reach, i), removed + {reach[i]})
    ensures tail != reach[i] ==> (tail == LastOf(head, Drop(reach, i)) <==> tail == LastOf(head, reach))
    ensures ValuesOf(Unlinked(nodes, reach[i]), Drop(reach, i)) == Drop(ValuesOf(nodes, reach), i)
  {
    UnlinkKeepsArena(nodes, head, nextHandle, reach[i]);
    UnlinkOnChainKeepsChain(nodes, head, reach, removed, nextHandle, i);
    UnlinkOnChainKeepsOffChain(nodes, head, reach, removed, nextHandle, i);
    UnlinkOnChainKeepsTail(nodes, head, tail, reach, removed, nextHandle, i);
    UnlinkOnChainKeepsValues(nodes, head, reach, removed, nextHandle, i);
  }

  /**
   * Unlinking a live node keeps the shape. The chain loses the node's position
   * when it was on it and is unchanged otherwise; returns the new chain.
   */
  lemma UnlinkKeepsShape<T>(nodes: map<Handle, Node<T>>, head: Handle, tail: Handle, nextHandle: Handle,
                            reach: seq<Handle>, removed: set<Handle>, n: Handle) returns (reach': seq<Handle>, i: nat)
    requires Shape(nodes, head, tail, nextHandle, reach, removed)
    requires LiveIn(nodes, head, removed, n)
    ensures Shape(Unlinked(nodes, n), head, tail, nextHandle, reach', removed + {n})
    ensures Unlinked(nodes, n)[n] == nodes[n]
    ensures n in reach ==>
      i < |reach| && reach[i] == n && reach' == Drop(reach, i) &&
      ValuesOf(Unlinked(nodes, n), reach') == Drop(ValuesOf(nodes, reach), i)
    ensures n !in reach ==> reach' == reach && ValuesOf(Unlinked(nodes, n), reach') == ValuesOf(nodes, reach)
    ensures n == tail ==> tail != LastOf(head, reach')
    ensures n != tail ==> (tail == LastOf(head, reach') <==> tail == LastOf(head, reach))
  {
    reach', i := reach, 0;
    if n in reach {
      i :| 0 <= i < |reach| && reach[i] == n;
      UnlinkOnChainKeepsShape(nodes, head, tail, nextHandle, reach, removed, i);
      reach' := Drop(reach, i);
    } else {
      UnlinkOffChainKeepsShape(nodes, head, tail, nextHandle, reach, removed, n);
    }
  }

  // The abstract view: the live nodes as a map from handle to value.

  /** `cells` holds exactly the live nodes (handed out and not yet unlinked) with their values. */
  ghost predicate CellsOk<T>(nodes: map<Handle, Node<T>>, head: Handle, removed: set<Handle>, cells: map<Handle, T>)
  {
    (forall h :: h in cells <==> LiveIn(nodes, head, removed, h)) &&
    (forall h :: h in cells ==> nodes[h].value == Some(cells[h]))
  }

  /** The values of the cells at the given handles, in order. */
  function CellValues<T>(cells: map<Handle, T>, hs: seq<Handle>): (vs: seq<T>)
    requires forall i :: 0 <= i < |hs| ==> hs[i] in cells
    ensures |vs| == |hs|
    ensures forall i :: 0 <= i < |hs| ==> vs[i] == cells[hs[i]]
  {
    seq(|hs|, i requires 0 <= i < |hs| => cells[hs[i]])
  }

  /**
   * Position `i` of `hs` comes before position `j` and holds a smaller
   * handle. Facts about the order of a chain are stated with it, so that
   * they are used only where a proof asks for them.
   */
  ghost predicate Before(hs: seq<Handle>, i: int, j: int)
  {
    0 <= i < j < |hs| && hs[i] < hs[j]
  }

  /**
   * What the list offers its users, in terms of the cells: the chain is made
   * of cells with increasing handles, every cell handle is below the
   * allocator, and while `tail` is the last node of the chain every cell is on it.
   */
  ghost predicate ViewOk<T>(head: Handle, tail: Handle, nextHandle: Handle, reach: seq<Handle>, cells: map<Handle, T>)
  {
    (forall i :: 0 <= i < |reach| ==> reach[i] in cells) &&
    (forall i, j :: 0 <= i < j < |reach| ==> Before(reach, i, j)) &&
    (forall h :: h in cells ==> h < nextHandle) &&
    (tail == LastOf(head, reach) ==> forall h :: h in cells ==> h in reach)
  }

  lemma ShapeGivesView<T>(nodes: map<Handle, Node<T>>, head: Handle, tail: Handle, nextHandle: Handle,
                          reach: seq<Handle>, removed: set<Handle>, cells: map<Handle, T>)
    requires Shape(nodes, head, tail, nextHandle, reach, removed) && CellsOk(nodes, head, removed, cells)
    ensures ViewOk(head, tail, nextHandle, reach, cells)
    ensures ValuesOf(nodes, reach) == CellValues(cells, reach)
  {
    forall i, j | 0 <= i < j < |reach| ensures Before(reach, i, j) {
      ChainIncreases(nodes, head, reach, removed, nextHandle, i, j);
    }
    assert forall i :: 0 <= i < |reach| ==> LiveIn(nodes, head, removed, reach[i]);
    if tail == LastOf(head, reach) {
      assert forall h :: h in cells ==> LiveIn(nodes, head, removed, h);
    }
  }

  /** The chain is made of cells, and reading values through the nodes or through the cells agrees. */
  lemma ValuesAgree<T>(nodes: map<Handle, Node<T>>, head: Handle, reach: seq<Handle>, removed: set<Handle>,
                       cells: map<Handle, T>)
    requires ChainOk(nodes, head, reach, removed) && CellsOk(nodes, head, removed, cells)
    ensures forall i :: 0 <= i < |reach| ==> reach[i] in cells
    ensures ValuesOf(nodes, reach) == CellValues(cells, reach)
  {
    assert forall i :: 0 <= i < |reach| ==> LiveIn(nodes, head, removed, reach[i]);
  }

  /** `s` without its element at position `i`. */
  function Drop<X>(s: seq<X>, i: nat): (r: seq<X>)
    requires i < |s|
    ensures |r| == |s| - 1
  {
    s[..i] + s[i + 1..]
  }

  /** Unlinking the node at chain position `i` drops position `i` from the values read through the cells. */
  lemma CellValuesDrop<T>(head: Handle, tail: Handle, nextHandle: Handle, reach: seq<Handle>, cells: map<Handle, T>, i: nat)
    requires ViewOk(head, tail, nextHandle, reach, cells) && i < |reach|
    ensures forall j :: 0 <= j < |Drop(reach, i)| ==> Drop(reach, i)[j] in cells - {reach[i]}
    ensures CellValues(cells - {reach[i]}, Drop(reach, i)) == Drop(CellValues(cells, reach), i)
  {
    DropAt(reach, i);
    forall j | 0 <= j < |reach| && j != i ensures reach[j] != reach[i] {
      if j < i { assert Before(reach, j, i); } else { assert Before(reach, i, j); }
    }
  }

  lemma AppendKeepsCells<T>(nodes: map<Handle, Node<T>>, head: Handle, tail: Handle, nextHandle: Handle,
                            removed: set<Handle>, cells: map<Handle, T>, v: T)
    requires ArenaOk(nodes, head, nextHandle) && removed <= nodes.Keys && tail in nodes
    requires CellsOk(nodes, head, removed, cells)
    ensures CellsOk(Appended(nodes, tail, nextHandle, v), head, removed, cells[nextHandle := v])
  {
    assert nextHandle !in nodes;
  }

  /**
   * `Add(v)` on the list, seen through its cells: the shape and the cells are
   * kept, the new node joins the chain exactly when the tail was its last
   * node, and the values read through the cells gain `v` exactly then.
   */
  lemma AppendKeepsList<T>(nodes: map<Handle, Node<T>>, head: Handle, tail: Handle, nextHandle: Handle,
                           reach: seq<Handle>, removed: set<Handle>, cells: map<Handle, T>, v: T) returns (reach': seq<Handle>)
    requires Shape(nodes, head, tail, nextHandle, reach, removed) && CellsOk(nodes, head, removed, cells)
    ensures Shape(Appended(nodes, tail, nextHandle, v), head, nextHandle, nextHandle + 1, reach', removed)
    ensures CellsOk(Appended(nodes, tail, nextHandle, v), head, removed, cells[nextHandle := v])
    ensures nextHandle !in nodes
    ensures (forall j :: 0 <= j < |reach| ==> reach[j] in cells) && (forall j :: 0 <= j < |reach'| ==> reach'[j] in cells[nextHandle := v])
    ensures tail == LastOf(head, reach) ==>
      reach' == reach + [nextHandle] && nextHandle == LastOf(head, reach') &&
      CellValues(cells[nextHandle := v], reach') == CellValues(cells, reach) + [v]
    ensures tail != LastOf(head, reach) ==>
      reach' == reach && nextHandle != LastOf(head, reach') &&
      CellValues(cells[nextHandle := v], reach') == CellValues(cells, reach)
  {
    reach' := AppendKeepsShape(nodes, head, tail, nextHandle, reach, removed, v);
    AppendKeepsCells(nodes, head, tail, nextHandle, removed, cells, v);
    ValuesAgree(nodes, head, reach, removed, cells);
    ValuesAgree(Appended(nodes, tail, nextHandle, v), head, reach', removed, cells[nextHandle := v]);
  }

  lemma UnlinkKeepsCells<T>(nodes: map<Handle, Node<T>>, head: Handle, removed: set<Handle>, cells: map<Handle, T>, n: Handle)
    requires n in nodes
    requires nodes[n].prev.To? ==> nodes[n].prev.handle in nodes
    requires nodes[n].next.To? ==> nodes[n].next.handle in nodes && nodes[n].next != nodes[n].prev
    requires CellsOk(nodes, head, removed, cells)
    ensures CellsOk(Unlinked(nodes, n), head, removed + {n}, cells - {n})
  {
  }
}
