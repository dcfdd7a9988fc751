/**
 * The doubly linked execution list of src/linkedList.ts as a class over the
 * arena of `ListShapes`.
 */
module LinkedLists {
  import opened Wrappers
  import opened ListShapes

  class LinkedList<T> {
    var nodes: map<Handle, Node<T>>
    const head: Handle
    var tail: Handle
    /** The arena's allocator: the handle the next new node receives. */
    var nextHandle: Handle
    ghost var reach: seq<Handle>
    ghost var removed: set<Handle>
    /** The nodes handed out by `Add` and not yet passed to `RemoveNode`, with their values. */
    ghost var cells: map<Handle, T>

    ghost predicate TailIsLast()
      reads this
    {
      tail == LastOf(head, reach)
    }

    ghost predicate Valid()
      reads this
    {
      Shape(nodes, head, tail, nextHandle, reach, removed) && CellsOk(nodes, head, removed, cells)
    }

    /** The list seen through its cells: what its users reason with. */
    lemma View()
      requires Valid()
      ensures ViewOk(head, tail, nextHandle, reach, cells)
      ensures ValuesOf(nodes, reach) == CellValues(cells, reach)
    {
      ShapeGivesView(nodes, head, tail, nextHandle, reach, removed, cells);
    }

    /** Every live node was handed out before the allocator's next handle. */
    lemma Fresh()
      requires Valid()
      ensures forall h :: h in cells ==> h < nextHandle
    {
    }

    /** The values met by walking `next` from `head`, sentinel excluded. */
    ghost function Values(): seq<T>
      reads this
      requires Valid()
    {
      ValuesAgree(nodes, head, reach, removed, cells);
      CellValues(cells, reach)
    }

    /** A fresh list: a valueless sentinel that is also the tail. */
    constructor ()
      ensures Valid()
      ensures nodes == map[head := Node(Nil, Nil, None)] && tail == head
      ensures reach == [] && removed == {} && cells == map[] && Values() == [] && TailIsLast()
    {
      head := 0;
      tail := 0;
      nextHandle := 1;
      nodes := map[0 := Node(Nil, Nil, None)];
      reach := [];
      removed := {};
      cells := map[];
    }

    /**
     * Links a new node holding `v` after the current tail and makes it the tail.
     * The new node is reachable from `head` exactly when the old tail was the
     * last node on the chain.
     */
    method Add(v: T) returns (h: Handle)
      requires Valid()
      modifies this
      ensures Valid()
      ensures h == old(nextHandle) && h !in old(nodes) && tail == h
      ensures removed == old(removed) && cells == old(cells)[h := v]
      ensures nodes == Appended(old(nodes), old(tail), h, v)
      ensures old(TailIsLast()) ==> reach == old(reach) + [h] && Values() == old(Values()) + [v] && TailIsLast()
      ensures !old(TailIsLast()) ==> reach == old(reach) && Values() == old(Values()) && !TailIsLast()
    {
      ghost var reach' := AppendKeepsList(nodes, head, tail, nextHandle, reach, removed, cells, v);
      h := Link(v, reach');
    }

    /** The writes of `Add`: a new node after `tail`, which then points at it. */
    method Link(v: T, ghost reach': seq<Handle>) returns (h: Handle)
      requires tail in nodes
      modifies this
      ensures h == old(nextHandle) && nextHandle == h + 1 && tail == h
      ensures nodes == Appended(old(nodes), old(tail), h, v)
      ensures reach == reach' && removed == old(removed) && cells == old(cells)[h := v]
    {
      var oldTail := tail;
      h := nextHandle;
      nodes, nextHandle, tail, reach, cells := Appended(nodes, oldTail, h, v), h + 1, h, reach', cells[h := v];
    }

    /**
     * The writes of `RemoveNode`: the neighbours of `n` are pointed at each
     * other. The ghost fields take the values the shape proof computed.
     */
    method Bypass(n: Handle, ghost reach': seq<Handle>)
      requires n in nodes
      requires nodes[n].prev.To? ==> nodes[n].prev.handle in nodes
      requires nodes[n].next.To? ==> nodes[n].next.handle in nodes && nodes[n].next != nodes[n].prev
      modifies this
      ensures nodes == Unlinked(old(nodes), n)
      ensures tail == old(tail) && nextHandle == old(nextHandle)
      ensures reach == reach' && removed == old(removed) + {n} && cells == old(cells) - {n}
    {
      var node := nodes[n];
      if node.prev.To? {
        var p := node.prev.handle;
        nodes := nodes[p := nodes[p].(next := node.next)];
      }
      if node.next.To? {
        var q := node.next.handle;
        nodes := nodes[q := nodes[q].(prev := node.prev)];
      }
      reach, removed, cells := reach', removed + {n}, cells - {n};
    }

    /**
     * Unlinks `n` by pointing its neighbours at each other. Nothing else is
     * written: `n` keeps its own links and `tail` is left as it was, even when
     * `n` is the tail.
     */
    method RemoveNode(n: Handle) returns (ghost i: nat)
      requires Valid() && n in cells
      modifies this
      ensures Valid()
      ensures tail == old(tail) && nextHandle == old(nextHandle)
      ensures removed == old(removed) + {n} && cells == old(cells) - {n}
      ensures nodes == Unlinked(old(nodes), n)
      ensures n in old(reach) ==>
        i < |old(reach)| && old(reach)[i] == n &&
        reach == Drop(old(reach), i) && Values() == Drop(old(Values()), i)
      ensures n !in old(reach) ==> reach == old(reach) && Values() == old(Values())
      ensures n == old(tail) ==> !TailIsLast()
      ensures n != old(tail) ==> (TailIsLast() <==> old(TailIsLast()))
    {
      ghost var reach';
      reach', i := UnlinkKeepsShape(nodes, head, tail, nextHandle, reach, removed, n);
      UnlinkKeepsCells(nodes, head, removed, cells, n);
      ValuesAgree(nodes, head, reach, removed, cells);
      ValuesAgree(Unlinked(nodes, n), head, reach', removed + {n}, cells - {n});
      Bypass(n, reach');
    }

    /** `"HEAD -> "`, then `"<v> -> "` for each value on the chain, then `"NULL"`. */
    method Log(show: T -> string) returns (s: string)
      requires Valid()
      ensures s == "HEAD -> " + Render(show, Values()) + "NULL"
    {
      ValuesAgree(nodes, head, reach, removed, cells);
      ghost var vs := Values();
      var current := head;
      s := "HEAD -> ";
      ghost var i := 0;
      ChainStep(nodes, head, reach, removed, i);
      while nodes[current].next.To?
        invariant 0 <= i <= |reach| && current in nodes
        invariant current == (if i == 0 then head else reach[i - 1])
        invariant nodes[current].next == (if i == |reach| then Nil else To(reach[i]))
        invariant s == Opening(show, vs[..i])
        decreases |reach| - i
      {
        current := nodes[current].next.handle;
        OpeningPrefix(show, vs, i);
        assert vs[i] == nodes[current].value.value;
        s := s + show(nodes[current].value.value) + " -> ";
        i := i + 1;
        ChainStep(nodes, head, reach, removed, i);
      }
      assert vs[..i] == vs;
      s := s + "NULL";
    }
  }
}
