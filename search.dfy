/** Lookup of a node by id: the `findNode` helper of the detail route. */
module OrgSearch {
  import opened OrgTree

  /** Depth-first, pre-order search: each node is checked before its
      subtree, and a subtree is searched before the node's later siblings.
      The first node carrying `id` is returned with its whole subtree. */
  function FindNode(nodes: seq<Node>, id: int): (r: Option<Node>)
    ensures r.Some? ==> r.value.id == id
    ensures r.None? <==> id !in Ids(nodes)
  {
    if nodes == [] then None
    else if nodes[0].id == id then Some(nodes[0])
    else match FindNode(nodes[0].children, id)
      case Some(n) => Some(n)
      case None => FindNode(nodes[1..], id)
  }

  /** Position of the first entry of a listing that carries `id`, or the
      listing's length when there is none. */
  function FirstIndex(o: seq<Entry>, id: int): (k: nat)
    ensures k <= |o|
    ensures k < |o| ==> o[k].node.id == id
    ensures forall j :: 0 <= j < k ==> o[j].node.id != id
  {
    if o == [] then 0
    else if o[0].node.id == id then 0
    else 1 + FirstIndex(o[1..], id)
  }

  lemma {:induction false} FirstIndexAppend(a: seq<Entry>, b: seq<Entry>, id: int)
    ensures FirstIndex(a + b, id) ==
            if FirstIndex(a, id) < |a| then FirstIndex(a, id) else |a| + FirstIndex(b, id)
  {
    var k, ka, kb := FirstIndex(a + b, id), FirstIndex(a, id), FirstIndex(b, id);
    if ka < |a| {
      assert (a + b)[ka] == a[ka];
    } else {
      assert forall j :: 0 <= j < |a| ==> (a + b)[j] == a[j];
      if kb < |b| {
        assert (a + b)[|a| + kb] == b[kb];
      }
      assert forall j :: 0 <= j < kb ==> (a + b)[|a| + j] == b[j];
    }
  }

  /** A listing none of whose entries carries `id`. */
  lemma {:induction false} AbsentFirstIndex(nodes: seq<Node>, id: int, depth: nat)
    requires id !in Ids(nodes)
    ensures FirstIndex(Outline(nodes, depth), id) == Size(nodes)
  {
    OutlineEntries(nodes, depth);
  }

  /** The first entry carrying `id` lies in the middle part of a listing
      when the part before it has none and the middle part has one; what
      the middle part holds from there on is seen unchanged through the
      concatenation. */
  lemma {:induction false} FirstInMiddle(pre: seq<Entry>, mid: seq<Entry>, post: seq<Entry>, id: int, len: nat)
    requires FirstIndex(pre, id) == |pre| && FirstIndex(mid, id) < |mid|
    requires FirstIndex(mid, id) + len <= |mid|
    ensures var k := FirstIndex(mid, id);
            && FirstIndex(pre + mid + post, id) == |pre| + k
            && (pre + mid + post)[|pre| + k] == mid[k]
            && (pre + mid + post)[|pre| + k..|pre| + k + len] == mid[k..k + len]
  {
    var k, mp := FirstIndex(mid, id), mid + post;
    FirstBefore(mid, post, id, len);
    FirstAfter(pre, mp, id, len);
    assert pre + mid + post == pre + mp;
  }

  /** Appending entries keeps a first occurrence and what follows it. */
  lemma {:induction false} FirstBefore(mid: seq<Entry>, post: seq<Entry>, id: int, len: nat)
    requires FirstIndex(mid, id) < |mid| && FirstIndex(mid, id) + len <= |mid|
    ensures var k := FirstIndex(mid, id);
            && FirstIndex(mid + post, id) == k
            && (mid + post)[k] == mid[k]
            && (mid + post)[k..k + len] == mid[k..k + len]
  {
    FirstIndexAppend(mid, post, id);
  }

  /** Prefixing entries that do not carry `id` shifts the first occurrence
      and what follows it. */
  lemma {:induction false} FirstAfter(pre: seq<Entry>, o: seq<Entry>, id: int, len: nat)
    requires FirstIndex(pre, id) == |pre| && FirstIndex(o, id) + len <= |o|
    ensures var k := FirstIndex(o, id);
            && FirstIndex(pre + o, id) == |pre| + k
            && (pre + o)[|pre| + k..|pre| + k + len] == o[k..k + len]
  {
    FirstIndexAppend(pre, o, id);
    var k := FirstIndex(o, id);
    assert (pre + o)[|pre| + k..|pre| + k + len] == o[k..k + len];
  }

  /** Searching a concatenation searches the first part, then the second. */
  lemma {:induction false} FindNodeAppend(a: seq<Node>, b: seq<Node>, id: int)
    ensures FindNode(a + b, id) == if FindNode(a, id).Some? then FindNode(a, id) else FindNode(b, id)
    decreases |a|
  {
    if a == [] {
      assert a + b == b;
    } else {
      assert (a + b)[0] == a[0] && (a + b)[1..] == a[1..] + b;
      FindNodeAppend(a[1..], b, id);
    }
  }

  /** Entries `k` onwards of the listing `o` list exactly the subtree `n`:
      they are its listing, and the entry after them, if any, is no deeper
      than `n`, so it is not a further descendant of `n`. */
  predicate ListsSubtreeAt(o: seq<Entry>, k: nat, n: Node)
  {
    && k < |o| && k + Size([n]) <= |o|
    && o[k..k + Size([n])] == Outline([n], o[k].depth)
    && (k + Size([n]) < |o| ==> o[k + Size([n])].depth <= o[k].depth)
  }

  /** The node `FindNode` returns is the first entry of the pre-order
      listing that carries `id`, and the entries from there on list exactly
      its subtree. */
  lemma {:induction false} FindNodeIsFirstInPreorder(nodes: seq<Node>, id: int, depth: nat)
    requires FindNode(nodes, id).Some?
    ensures ListsSubtreeAt(Outline(nodes, depth), FirstIndex(Outline(nodes, depth), id), FindNode(nodes, id).value)
    decreases nodes, 1
  {
    var n0 := nodes[0];
    if n0.id == id {
      FoundAtHead(nodes, id, depth);
    } else if FindNode(n0.children, id).Some? {
      FindNodeIsFirstInPreorder(n0.children, id, depth + 1);
      FoundInChildren(nodes, id, depth);
    } else {
      FindNodeIsFirstInPreorder(nodes[1..], id, depth);
      FoundInRest(nodes, id, depth);
    }
  }

  lemma {:induction false} FoundAtHead(nodes: seq<Node>, id: int, depth: nat)
    requires nodes != [] && nodes[0].id == id
    ensures ListsSubtreeAt(Outline(nodes, depth), FirstIndex(Outline(nodes, depth), id), nodes[0])
  {
    var n := nodes[0];
    var head, c, r := [Entry(depth, Strip(n))], Outline(n.children, depth + 1), Outline(nodes[1..], depth);
    assert Outline([n], depth) == head + c + Outline([], depth) by {
      HeadTail(n, []);
    }
    FirstInMiddle([], head + c, r, id, Size([n]));
    assert [] + (head + c) + r == Outline(nodes, depth);
    if r != [] {
      OutlineHeadDepth(nodes[1..], depth);
      assert Outline(nodes, depth)[Size([n])] == r[0];
    }
  }

  lemma {:induction false} FoundInChildren(nodes: seq<Node>, id: int, depth: nat)
    requires nodes != [] && nodes[0].id != id
    requires FindNode(nodes[0].children, id).Some?
    requires ListsSubtreeAt(Outline(nodes[0].children, depth + 1),
                            FirstIndex(Outline(nodes[0].children, depth + 1), id),
                            FindNode(nodes[0].children, id).value)
    ensures ListsSubtreeAt(Outline(nodes, depth), FirstIndex(Outline(nodes, depth), id), FindNode(nodes, id).value)
  {
    var n0 := nodes[0];
    var head, c, r := [Entry(depth, Strip(n0))], Outline(n0.children, depth + 1), Outline(nodes[1..], depth);
    var v := FindNode(n0.children, id).value;
    assert FindNode(nodes, id) == Some(v);
    assert Outline(nodes, depth) == head + (c + r);
    OutlineEntries(n0.children, depth + 1);
    assert forall i :: 0 <= i < |c| ==> c[i] in c;
    if r != [] {
      OutlineHeadDepth(nodes[1..], depth);
    }
    ListedBefore(c, r, id, v);
    ListedAfter(head, c + r, id, v);
  }

  lemma {:induction false} FoundInRest(nodes: seq<Node>, id: int, depth: nat)
    requires nodes != [] && nodes[0].id != id
    requires FindNode(nodes[0].children, id).None? && FindNode(nodes[1..], id).Some?
    requires ListsSubtreeAt(Outline(nodes[1..], depth),
                            FirstIndex(Outline(nodes[1..], depth), id),
                            FindNode(nodes[1..], id).value)
    ensures ListsSubtreeAt(Outline(nodes, depth), FirstIndex(Outline(nodes, depth), id), FindNode(nodes, id).value)
  {
    var n0 := nodes[0];
    var hc, r := [Entry(depth, Strip(n0))] + Outline(n0.children, depth + 1), Outline(nodes[1..], depth);
    var v := FindNode(nodes[1..], id).value;
    assert FindNode(nodes, id) == Some(v);
    assert Outline(nodes, depth) == hc + r;
    HeadLacks(n0, id, depth);
    ListedAfter(hc, r, id, v);
  }

  /** The first subtree carrying `id` in a listing is still the first once
      entries without `id` are put before it. */
  lemma {:induction false} ListedAfter(pre: seq<Entry>, o: seq<Entry>, id: int, v: Node)
    requires FirstIndex(pre, id) == |pre|
    requires ListsSubtreeAt(o, FirstIndex(o, id), v)
    ensures ListsSubtreeAt(pre + o, FirstIndex(pre + o, id), v)
  {
    FirstIndexAppend(pre, o, id);
    ListsShift(pre, o, FirstIndex(o, id), v);
  }

  /** The first subtree carrying `id` in a listing is still the first once
      entries no deeper than any of the listing's are put after it. */
  lemma {:induction false} ListedBefore(o: seq<Entry>, post: seq<Entry>, id: int, v: Node)
    requires ListsSubtreeAt(o, FirstIndex(o, id), v)
    requires post == [] || forall i :: 0 <= i < |o| ==> post[0].depth <= o[i].depth
    ensures ListsSubtreeAt(o + post, FirstIndex(o + post, id), v)
  {
    FirstIndexAppend(o, post, id);
    ListsExtend(o, post, FirstIndex(o, id), v);
  }

  /** A subtree listed in the second part of a listing is listed, shifted,
      in the whole. */
  lemma {:induction false} ListsShift(pre: seq<Entry>, o: seq<Entry>, k: nat, n: Node)
    requires ListsSubtreeAt(o, k, n)
    ensures ListsSubtreeAt(pre + o, |pre| + k, n)
  {
    var len := Size([n]);
    assert (pre + o)[|pre| + k] == o[k];
    assert (pre + o)[|pre| + k..|pre| + k + len] == o[k..k + len];
    if k + len < |o| {
      assert (pre + o)[|pre| + k + len] == o[k + len];
    }
  }

  /** A subtree listed in a listing is still listed once entries no deeper
      than its root follow. */
  lemma {:induction false} ListsExtend(o: seq<Entry>, post: seq<Entry>, k: nat, n: Node)
    requires ListsSubtreeAt(o, k, n)
    requires post == [] || post[0].depth <= o[k].depth
    ensures ListsSubtreeAt(o + post, k, n)
  {
    var len := Size([n]);
    assert (o + post)[k] == o[k];
    assert (o + post)[k..k + len] == o[k..k + len];
    if k + len < |o| {
      assert (o + post)[k + len] == o[k + len];
    } else if post != [] {
      assert (o + post)[k + len] == post[0];
    }
  }

  /** The listing of a tree whose ids do not include `id` has no entry
      carrying it. */
  lemma {:induction false} HeadLacks(n: Node, id: int, depth: nat)
    requires n.id != id && FindNode(n.children, id).None?
    ensures var o := [Entry(depth, Strip(n))] + Outline(n.children, depth + 1);
            FirstIndex(o, id) == |o|
  {
    var head, c := [Entry(depth, Strip(n))], Outline(n.children, depth + 1);
    AbsentFirstIndex(n.children, id, depth + 1);
    FirstIndexAppend(head, c, id);
  }
}
