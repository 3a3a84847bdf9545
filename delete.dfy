/** The delete route: `deleteNode`, which removes a record with its whole
    subtree. */
module OrgDelete {
  import opened OrgTree
  import opened OrgSearch

  /** `Array.prototype.findIndex` on the siblings: the first position whose
      node carries `id`, or -1. */
  function IndexOf(nodes: seq<Node>, id: int): (k: int)
    ensures -1 <= k < |nodes|
    ensures k >= 0 ==> nodes[k].id == id
    ensures forall j :: 0 <= j < |nodes| && (k < 0 || j < k) ==> nodes[j].id != id
  {
    if nodes == [] then -1
    else if nodes[0].id == id then 0
    else
      var k := IndexOf(nodes[1..], id);
      if k < 0 then -1 else k + 1
  }

  /** No sibling of the forest carries `id` (deeper nodes may). */
  predicate NotAmongSiblings(nodes: seq<Node>, id: int)
  {
    forall j :: 0 <= j < |nodes| ==> nodes[j].id != id
  }

  /** `deleteNode`: when a sibling carries `id`, the first such sibling is
      cut out with its subtree; otherwise the siblings' children are searched
      in order. Reports whether a record was removed; when none was, the
      forest comes back unchanged. */
  function Remove(nodes: seq<Node>, id: int): (r: (seq<Node>, bool))
    ensures r.1 <==> id in Ids(nodes)
    ensures !r.1 ==> r.0 == nodes
    decreases nodes, 1
  {
    var k := IndexOf(nodes, id);
    if k >= 0 then
      SplitAt(nodes, k);
      (nodes[..k] + nodes[k + 1..], true)
    else RemoveBelow(nodes, id)
  }

  /** The second phase of `deleteNode`: try each sibling's children in turn
      and stop at the first that yields a removal. */
  function RemoveBelow(nodes: seq<Node>, id: int): (r: (seq<Node>, bool))
    ensures r.1 ==> id in Ids(nodes)
    ensures !r.1 ==> r.0 == nodes
    ensures NotAmongSiblings(nodes, id) ==> (r.1 <==> id in Ids(nodes))
    decreases nodes, 0
  {
    if nodes == [] then (nodes, false)
    else
      var n := nodes[0];
      var below := Remove(n.children, id);
      if below.1 then ([n.(children := below.0)] + nodes[1..], true)
      else
        var after := RemoveBelow(nodes[1..], id);
        assert [n] + nodes[1..] == nodes;
        assert NotAmongSiblings(nodes, id) ==> NotAmongSiblings(nodes[1..], id);
        ([n] + after.0, after.1)
  }

  /** Reference definition: remove the first node, in pre-order, that
      carries `id` (the node the detail route would return), with its
      subtree. */
  function RemoveFirst(nodes: seq<Node>, id: int): (r: (seq<Node>, bool))
    ensures !r.1 ==> r.0 == nodes
  {
    if nodes == [] then (nodes, false)
    else
      var n := nodes[0];
      if n.id == id then (nodes[1..], true)
      else
        var below := RemoveFirst(n.children, id);
        if below.1 then ([n.(children := below.0)] + nodes[1..], true)
        else
          var after := RemoveFirst(nodes[1..], id);
          assert [n] + nodes[1..] == nodes;
          ([n] + after.0, after.1)
  }

  /** The pre-order removal removes something exactly when some node
      carries `id`. */
  lemma {:induction false} RemoveFirstFound(nodes: seq<Node>, id: int)
    ensures RemoveFirst(nodes, id).1 <==> id in Ids(nodes)
    decreases nodes
  {
    if nodes != [] {
      RemoveFirstFound(nodes[0].children, id);
      RemoveFirstFound(nodes[1..], id);
    }
  }

  /** A prefix without the record leaves the pre-order search to the suffix. */
  lemma {:induction false} RemoveFirstAfter(a: seq<Node>, b: seq<Node>, id: int)
    requires !RemoveFirst(a, id).1
    ensures RemoveFirst(a + b, id) == (a + RemoveFirst(b, id).0, RemoveFirst(b, id).1)
    decreases |a|
  {
    if a == [] {
      assert a + b == b;
      assert a + RemoveFirst(b, id).0 == RemoveFirst(b, id).0;
    } else {
      var n, tail := a[0], RemoveFirst(b, id);
      assert !RemoveFirst(a[1..], id).1 by {
        assert n.id != id && !RemoveFirst(n.children, id).1;
      }
      RemoveFirstAfter(a[1..], b, id);
      assert RemoveFirst(a + b, id) == ([n] + (a[1..] + tail.0), tail.1) by {
        assert (a + b)[0] == n && (a + b)[1..] == a[1..] + b;
        assert n.id != id && !RemoveFirst(n.children, id).1;
      }
      assert [n] + (a[1..] + tail.0) == a + tail.0;
    }
  }

  /** With unique ids, `deleteNode`'s level-by-level search removes the same
      node as the pre-order search. */
  lemma {:induction false} RemoveAgrees(nodes: seq<Node>, id: int)
    requires UniqueIds(nodes)
    ensures Remove(nodes, id) == RemoveFirst(nodes, id)
    decreases nodes, 1
  {
    var k := IndexOf(nodes, id);
    if k >= 0 {
      var pre, n, post := nodes[..k], nodes[k], nodes[k + 1..];
      SplitAt(nodes, k);
      UniqueAppend(pre, [n] + post);
      assert id in Ids([n] + post) by {
        HeadTail(n, post);
      }
      RemoveFirstFound(pre, id);
      RemoveFirstAfter(pre, [n] + post, id);
      HeadTail(n, post);
    } else {
      RemoveBelowAgrees(nodes, id);
    }
  }

  lemma {:induction false} RemoveBelowAgrees(nodes: seq<Node>, id: int)
    requires UniqueIds(nodes) && NotAmongSiblings(nodes, id)
    ensures RemoveBelow(nodes, id) == RemoveFirst(nodes, id)
    decreases nodes, 0
  {
    if nodes != [] {
      var n := nodes[0];
      assert n.id != id;
      RemoveAgrees(n.children, id);
      if !Remove(n.children, id).1 {
        assert NotAmongSiblings(nodes[1..], id);
        RemoveBelowAgrees(nodes[1..], id);
      }
    }
  }

  /** The removal takes away exactly the nodes of the subtree the detail
      route finds. */
  lemma {:induction false} RemoveFirstIds(nodes: seq<Node>, id: int)
    requires id in Ids(nodes)
    ensures var r, n := RemoveFirst(nodes, id).0, FindNode(nodes, id).value;
            Ids(nodes) == Ids(r) + Ids([n]) && Size(nodes) == Size(r) + Size([n])
    decreases nodes
  {
    var n, rest := nodes[0], nodes[1..];
    RemoveFirstFound(n.children, id);
    HeadTail(n, []);
    if n.id == id {
    } else if RemoveFirst(n.children, id).1 {
      RemoveFirstIds(n.children, id);
      HeadTail(n.(children := RemoveFirst(n.children, id).0), rest);
    } else {
      RemoveFirstIds(rest, id);
      HeadTail(n, RemoveFirst(rest, id).0);
    }
  }

  /** With unique ids, the removal keeps them unique and leaves no node of
      the removed subtree behind. */
  lemma {:induction false} RemoveFirstKeepsUnique(nodes: seq<Node>, id: int)
    requires UniqueIds(nodes) && id in Ids(nodes)
    ensures var r, n := RemoveFirst(nodes, id).0, FindNode(nodes, id).value;
            UniqueIds(r) && Ids(r) !! Ids([n])
    decreases nodes
  {
    var n, rest := nodes[0], nodes[1..];
    RemoveFirstFound(n.children, id);
    HeadTail(n, []);
    if n.id == id {
    } else if RemoveFirst(n.children, id).1 {
      var kids := RemoveFirst(n.children, id).0;
      RemoveFirstKeepsUnique(n.children, id);
      RemoveFirstIds(n.children, id);
      HeadTail(n.(children := kids), rest);
    } else {
      RemoveFirstKeepsUnique(rest, id);
      RemoveFirstIds(rest, id);
      HeadTail(n, RemoveFirst(rest, id).0);
    }
  }

  /** `after` is the listing `o` without the `len` entries from position `k`. */
  predicate CutAt(o: seq<Entry>, k: nat, len: nat, after: seq<Entry>)
  {
    k + len <= |o| && after == o[..k] + o[k + len..]
  }

  /** A cut inside the middle part of a listing is a cut of the whole. */
  lemma {:induction false} CutThrough(pre: seq<Entry>, mid: seq<Entry>, post: seq<Entry>, k: nat, len: nat,
                                      midAfter: seq<Entry>)
    requires CutAt(mid, k, len, midAfter)
    ensures CutAt(pre + mid + post, |pre| + k, len, pre + midAfter + post)
  {
    var o := pre + mid + post;
    assert o[..|pre| + k] == pre + mid[..k];
    assert o[|pre| + k + len..] == mid[k + len..] + post;
  }

  /** The entries of the removed subtree, which start at the first entry
      carrying `id`, leave the pre-order listing; every other entry keeps its
      depth and its order. */
  lemma {:induction false} RemoveFirstOutline(nodes: seq<Node>, id: int, depth: nat)
    requires id in Ids(nodes)
    ensures var o := Outline(nodes, depth);
            CutAt(o, FirstIndex(o, id), Size([FindNode(nodes, id).value]), Outline(RemoveFirst(nodes, id).0, depth))
    decreases nodes
  {
    var n := nodes[0];
    if n.id == id {
      RemoveFirstOutlineHere(nodes, id, depth);
    } else if id in Ids(n.children) {
      RemoveFirstOutline(n.children, id, depth + 1);
      RemoveFirstOutlineInChildren(nodes, id, depth);
    } else {
      RemoveFirstOutline(nodes[1..], id, depth);
      RemoveFirstOutlineInRest(nodes, id, depth);
    }
  }

  lemma {:induction false} RemoveFirstOutlineHere(nodes: seq<Node>, id: int, depth: nat)
    requires nodes != [] && nodes[0].id == id
    ensures var o := Outline(nodes, depth);
            CutAt(o, FirstIndex(o, id), Size([nodes[0]]), Outline(RemoveFirst(nodes, id).0, depth))
  {
    var n, rest := nodes[0], nodes[1..];
    var head, c, r := [Entry(depth, Strip(n))], Outline(n.children, depth + 1), Outline(rest, depth);
    var o := Outline(nodes, depth);
    assert o == head + c + r;
    assert Size([n]) == |head| + |c| by {
      HeadTail(n, []);
    }
    assert FirstIndex(o, id) == 0;
    assert o[Size([n])..] == r;
  }

  lemma {:induction false} RemoveFirstOutlineInChildren(nodes: seq<Node>, id: int, depth: nat)
    requires nodes != [] && nodes[0].id != id && id in Ids(nodes[0].children)
    requires var c := Outline(nodes[0].children, depth + 1);
             CutAt(c, FirstIndex(c, id), Size([FindNode(nodes[0].children, id).value]),
                   Outline(RemoveFirst(nodes[0].children, id).0, depth + 1))
    ensures var o := Outline(nodes, depth);
            CutAt(o, FirstIndex(o, id), Size([FindNode(nodes, id).value]), Outline(RemoveFirst(nodes, id).0, depth))
  {
    var n, rest := nodes[0], nodes[1..];
    RemoveFirstFound(n.children, id);
    var head, c, r := [Entry(depth, Strip(n))], Outline(n.children, depth + 1), Outline(rest, depth);
    var kids := RemoveFirst(n.children, id).0;
    var p := FindNode(n.children, id).value;
    var kc := FirstIndex(c, id);
    var o := Outline(nodes, depth);
    var after := Outline(RemoveFirst(nodes, id).0, depth);
    assert FindNode(nodes, id) == Some(p);
    assert o == head + c + r;
    assert after == head + Outline(kids, depth + 1) + r by {
      var m := n.(children := kids);
      assert RemoveFirst(nodes, id).0 == [m] + rest;
      OutlineCons(m, rest, depth);
      assert Strip(m) == Strip(n);
    }
    assert FirstIndex(o, id) == |head| + kc by {
      FirstInMiddle(head, c, r, id, 1);
    }
    CutThrough(head, c, r, kc, Size([p]), Outline(kids, depth + 1));
  }

  lemma {:induction false} RemoveFirstOutlineInRest(nodes: seq<Node>, id: int, depth: nat)
    requires nodes != [] && nodes[0].id != id && id !in Ids(nodes[0].children)
    requires id in Ids(nodes[1..])
    requires var r := Outline(nodes[1..], depth);
             CutAt(r, FirstIndex(r, id), Size([FindNode(nodes[1..], id).value]),
                   Outline(RemoveFirst(nodes[1..], id).0, depth))
    ensures var o := Outline(nodes, depth);
            CutAt(o, FirstIndex(o, id), Size([FindNode(nodes, id).value]), Outline(RemoveFirst(nodes, id).0, depth))
  {
    var n, rest := nodes[0], nodes[1..];
    RemoveFirstFound(n.children, id);
    var hc := [Entry(depth, Strip(n))] + Outline(n.children, depth + 1);
    var rest' := RemoveFirst(rest, id).0;
    assert FindNode(nodes, id) == FindNode(rest, id);
    assert Outline(nodes, depth) == hc + Outline(rest, depth);
    assert Outline(RemoveFirst(nodes, id).0, depth) == hc + Outline(rest', depth) by {
      assert RemoveFirst(nodes, id).0 == [n] + rest' by {
        assert RemoveFirst(nodes, id) == ([n] + RemoveFirst(rest, id).0, true);
      }
      OutlineCons(n, rest', depth);
    }
    HeadLacks(n, id, depth);
    CutPast(hc, Outline(rest, depth), id, Size([FindNode(rest, id).value]), Outline(rest', depth));
  }

  /** A cut after a prefix that does not carry the id is a cut of the whole
      listing. */
  lemma {:induction false} CutPast(pre: seq<Entry>, o: seq<Entry>, id: int, len: nat, after: seq<Entry>)
    requires FirstIndex(pre, id) == |pre|
    requires CutAt(o, FirstIndex(o, id), len, after)
    ensures CutAt(pre + o, FirstIndex(pre + o, id), len, pre + after)
  {
    FirstIndexAppend(pre, o, id);
    CutThrough(pre, o, [], FirstIndex(o, id), len, after);
    assert pre + o + [] == pre + o && pre + after + [] == pre + after;
  }

  /** With unique ids, deleting a record removes it and its descendants and
      nothing else: the listing loses exactly the subtree's entries, the ids
      lose exactly the subtree's ids, and the ids stay unique. */
  lemma {:induction false} RemoveSubtree(nodes: seq<Node>, id: int, depth: nat)
    requires UniqueIds(nodes) && id in Ids(nodes)
    ensures var o, r, n := Outline(nodes, depth), Remove(nodes, id).0, FindNode(nodes, id).value;
            && CutAt(o, FirstIndex(o, id), Size([n]), Outline(r, depth))
            && Ids(r) == Ids(nodes) - Ids([n])
            && UniqueIds(r)
  {
    RemoveAgrees(nodes, id);
    RemoveFirstOutline(nodes, id, depth);
    RemoveFirstIds(nodes, id);
    RemoveFirstKeepsUnique(nodes, id);
  }

  /** With unique ids, once a record is deleted the detail route no longer
      finds it and deleting it again reports that it does not exist. */
  lemma {:induction false} RemoveIsFinal(nodes: seq<Node>, id: int)
    requires UniqueIds(nodes) && id in Ids(nodes)
    ensures var r := Remove(nodes, id).0;
            FindNode(r, id).None? && !Remove(r, id).1
  {
    RemoveAgrees(nodes, id);
    RemoveFirstKeepsUnique(nodes, id);
    HeadTail(FindNode(nodes, id).value, []);
    RemoveFirstFound(nodes, id);
  }

  /** Without unique ids the two searches part ways: here `deleteNode`
      removes the root carrying id 2 while the detail route finds the child
      carrying id 2. */
  lemma {:induction false} DuplicateIdsDiverge(a: Node, b: Node, c: Node)
    requires a.id == 1 && b.id == 2 && c.id == 2 && b.children == [] && c.children == []
    requires a.children == [b]
    ensures FindNode([a, c], 2) == Some(b)
    ensures Remove([a, c], 2) == ([a], true)
    ensures RemoveFirst([a, c], 2) == ([a.(children := []), c], true)
  {
    assert [a, c][1..] == [c];
    assert IndexOf([a, c], 2) == 1 by {
      assert [a, c][1..][0] == c;
    }
    assert [a, c][..1] + [a, c][2..] == [a];
    assert [b][1..] == [];
    assert [a.(children := [])] + [a, c][1..] == [a.(children := []), c];
  }

  /** The scan of `deleteNode`'s second phase at position `i`. */
  lemma {:induction false} RemoveBelowAt(nodes: seq<Node>, i: nat, id: int)
    requires i < |nodes|
    ensures var n, rest := nodes[i], nodes[i + 1..];
            var below, after := Remove(n.children, id), RemoveBelow(rest, id);
            RemoveBelow(nodes[i..], id) ==
              if below.1 then ([n.(children := below.0)] + rest, true) else ([n] + after.0, after.1)
  {
    assert nodes[i..][0] == nodes[i] && nodes[i..][1..] == nodes[i + 1..];
  }

  /** One step of the children loop of `deleteNode`, when the search below
      sibling `i` fails: with the siblings before `i` searched in vain, the
      search moves on to sibling `i + 1`. */
  lemma {:induction false} RemoveBelowNext(nodes: seq<Node>, i: nat, id: int)
    requires i < |nodes| && !Remove(nodes[i].children, id).1
    requires RemoveBelow(nodes, id) == (nodes[..i] + RemoveBelow(nodes[i..], id).0, RemoveBelow(nodes[i..], id).1)
    ensures var after := RemoveBelow(nodes[i + 1..], id);
            RemoveBelow(nodes, id) == (nodes[..i + 1] + after.0, after.1)
  {
    var n, after := nodes[i], RemoveBelow(nodes[i + 1..], id);
    assert RemoveBelow(nodes[i..], id) == ([n] + after.0, after.1) by {
      RemoveBelowAt(nodes, i, id);
    }
    assert nodes[..i] + ([n] + after.0) == nodes[..i + 1] + after.0 by {
      assert nodes[..i + 1] == nodes[..i] + [n];
    }
  }

  /** The recursive `deleteNode` helper: look for the record among the
      siblings and cut it out; otherwise recurse into each sibling's children
      in order and stop at the first removal. */
  method DeleteNode(nodes: seq<Node>, id: int) returns (r: seq<Node>, found: bool)
    ensures (r, found) == Remove(nodes, id)
    decreases nodes, 1
  {
    var index := IndexOf(nodes, id);
    if index > -1 {
      r, found := nodes[..index] + nodes[index + 1..], true;
      return;
    }
    assert nodes[0..] == nodes && nodes[..0] + RemoveBelow(nodes, id).0 == RemoveBelow(nodes, id).0;
    var i := 0;
    while i < |nodes|
      invariant 0 <= i <= |nodes|
      invariant RemoveBelow(nodes, id) == (nodes[..i] + RemoveBelow(nodes[i..], id).0, RemoveBelow(nodes[i..], id).1)
    {
      var node, rest := nodes[i], nodes[i + 1..];
      var kids, ok := DeleteNode(node.children, id);
      if ok {
        RemoveBelowAt(nodes, i, id);
        r, found := nodes[..i] + ([node.(children := kids)] + rest), true;
        return;
      }
      RemoveBelowNext(nodes, i, id);
      i := i + 1;
    }
    assert nodes[..i] == nodes;
    r, found := nodes, false;
  }
}
