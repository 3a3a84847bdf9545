/** The create route: building the new record and `addToParent`. */
module OrgInsert {
  import opened OrgTree
  import opened OrgSearch

  /** JavaScript truthiness of a `number | null` parent id: present and not 0. */
  predicate Truthy(parentId: Option<int>)
  {
    parentId.Some? && parentId.value != 0
  }

  /** The record the create route builds: the submitted fields, the given
      id, both timestamps set to the current time, and no children. */
  function NewNode(form: Form, id: int, now: string): (n: Node)
    ensures n.id == id && n.children == [] && n.parentId == form.parentId
    ensures n.createTime == Some(now) && n.updateTime == Some(now)
    ensures Ids([n]) == {id} && Size([n]) == 1 && UniqueIds([n])
  {
    Node(id, form.parentId, form.name, form.code, form.kind, form.sort, form.status,
         form.leader, form.phone, form.email, form.remark, Some(now), Some(now), [])
  }

  /** Appends `x` as the last child of the first node, in pre-order, whose
      id is `parentId`; reports whether there was one. When there is none
      the forest comes back unchanged. */
  function Attach(nodes: seq<Node>, parentId: int, x: Node): (r: (seq<Node>, bool))
    ensures r.1 <==> parentId in Ids(nodes)
    ensures !r.1 ==> r.0 == nodes
  {
    if nodes == [] then (nodes, false)
    else
      var n := nodes[0];
      if n.id == parentId then ([n.(children := n.children + [x])] + nodes[1..], true)
      else
        var below := Attach(n.children, parentId, x);
        if below.1 then ([n.(children := below.0)] + nodes[1..], true)
        else
          var after := Attach(nodes[1..], parentId, x);
          assert [n] + nodes[1..] == nodes;
          ([n] + after.0, after.1)
  }

  /** A prefix without the parent leaves the search to the suffix. */
  lemma {:induction false} AttachAfter(a: seq<Node>, b: seq<Node>, parentId: int, x: Node)
    requires !Attach(a, parentId, x).1
    ensures Attach(a + b, parentId, x) == (a + Attach(b, parentId, x).0, Attach(b, parentId, x).1)
    decreases |a|
  {
    if a == [] {
      assert a + b == b;
      assert a + Attach(b, parentId, x).0 == Attach(b, parentId, x).0;
    } else {
      var n, tail := a[0], Attach(b, parentId, x);
      assert n.id != parentId && !Attach(n.children, parentId, x).1 && !Attach(a[1..], parentId, x).1;
      AttachAfter(a[1..], b, parentId, x);
      assert (a + b)[0] == n && (a + b)[1..] == a[1..] + b;
      assert Attach(a + b, parentId, x) == ([n] + (a[1..] + tail.0), tail.1);
      assert [n] + (a[1..] + tail.0) == a + tail.0;
    }
  }

  /** When the parent is found the forest gains exactly the ids of `x`. */
  lemma {:induction false} AttachIds(nodes: seq<Node>, parentId: int, x: Node)
    ensures var (r, found) := Attach(nodes, parentId, x);
            Ids(r) == Ids(nodes) + (if found then Ids([x]) else {}) &&
            Size(r) == Size(nodes) + (if found then Size([x]) else 0)
    decreases nodes
  {
    if nodes != [] {
      var n, rest := nodes[0], nodes[1..];
      if n.id == parentId {
        var m := n.(children := n.children + [x]);
        IdsAppend(n.children, [x]);
        SizeAppend(n.children, [x]);
        HeadTail(m, rest);
      } else if Attach(n.children, parentId, x).1 {
        AttachIds(n.children, parentId, x);
        HeadTail(n.(children := Attach(n.children, parentId, x).0), rest);
      } else {
        AttachIds(rest, parentId, x);
        HeadTail(n, Attach(rest, parentId, x).0);
      }
    }
  }

  /** Attaching a tree whose ids are new keeps the forest's ids unique. */
  lemma {:induction false} AttachKeepsUnique(nodes: seq<Node>, parentId: int, x: Node)
    requires UniqueIds(nodes) && UniqueIds([x]) && Ids([x]) !! Ids(nodes)
    ensures UniqueIds(Attach(nodes, parentId, x).0)
    decreases nodes
  {
    if nodes != [] {
      var n, rest := nodes[0], nodes[1..];
      IdsAppend([n], rest);
      assert [n] + rest == nodes;
      if n.id == parentId {
        var m := n.(children := n.children + [x]);
        IdsAppend(n.children, [x]);
        UniqueAppend(n.children, [x]);
        HeadTail(m, rest);
      } else if Attach(n.children, parentId, x).1 {
        AttachKeepsUnique(n.children, parentId, x);
        AttachIds(n.children, parentId, x);
        HeadTail(n.(children := Attach(n.children, parentId, x).0), rest);
      } else {
        AttachKeepsUnique(rest, parentId, x);
        AttachIds(rest, parentId, x);
        HeadTail(n, Attach(rest, parentId, x).0);
      }
    }
  }

  /** After attaching, searching for the parent finds it with `x` as its
      last child. */
  lemma {:induction false} AttachFindsParent(nodes: seq<Node>, parentId: int, x: Node)
    requires Attach(nodes, parentId, x).1
    ensures var p := FindNode(nodes, parentId).value;
            FindNode(Attach(nodes, parentId, x).0, parentId) == Some(p.(children := p.children + [x]))
    decreases nodes
  {
    var n, rest := nodes[0], nodes[1..];
    if n.id == parentId {
      HeadTail(n.(children := n.children + [x]), rest);
    } else if Attach(n.children, parentId, x).1 {
      AttachFindsParent(n.children, parentId, x);
      HeadTail(n.(children := Attach(n.children, parentId, x).0), rest);
    } else {
      AttachFindsParent(rest, parentId, x);
      HeadTail(n, Attach(rest, parentId, x).0);
    }
  }

  /** After attaching a record whose id is new, searching for that id finds
      the record itself. */
  lemma {:induction false} AttachFindsNew(nodes: seq<Node>, parentId: int, x: Node)
    requires Attach(nodes, parentId, x).1 && x.id !in Ids(nodes)
    ensures FindNode(Attach(nodes, parentId, x).0, x.id) == Some(x)
    decreases nodes
  {
    var n, rest := nodes[0], nodes[1..];
    assert n.id != x.id;
    if n.id == parentId {
      HeadTail(n.(children := n.children + [x]), rest);
      FindNodeAppend(n.children, [x], x.id);
      HeadTail(x, []);
    } else if Attach(n.children, parentId, x).1 {
      AttachFindsNew(n.children, parentId, x);
      HeadTail(n.(children := Attach(n.children, parentId, x).0), rest);
    } else {
      AttachFindsNew(rest, parentId, x);
      HeadTail(n, Attach(rest, parentId, x).0);
    }
  }

  /** `after` is the listing `o` with the subtree `x` spliced in right after
      the subtree `p` that is listed from position `k`, one level below `p`. */
  predicate SplicedAfter(o: seq<Entry>, k: nat, p: Node, x: Node, after: seq<Entry>)
  {
    k < |o| && k + Size([p]) <= |o| &&
    after == o[..k + Size([p])] + Outline([x], o[k].depth + 1) + o[k + Size([p])..]
  }

  /** Splicing into the middle part of a listing, seen through the whole. */
  lemma {:induction false} SpliceInMiddle(pre: seq<Entry>, mid: seq<Entry>, post: seq<Entry>, j: nat, ins: seq<Entry>)
    requires j <= |mid|
    ensures var o := pre + mid + post;
            o[..|pre| + j] + ins + o[|pre| + j..] == pre + (mid[..j] + ins + mid[j..]) + post
  {
    var o := pre + mid + post;
    assert o[..|pre| + j] == pre + mid[..j];
    assert o[|pre| + j..] == mid[j..] + post;
  }

  /** The record is listed right after the parent's last descendant, one
      level below the parent, and every other entry keeps its place. */
  lemma {:induction false} AttachOutline(nodes: seq<Node>, parentId: int, x: Node, depth: nat)
    requires Attach(nodes, parentId, x).1
    ensures var o := Outline(nodes, depth);
            SplicedAfter(o, FirstIndex(o, parentId), FindNode(nodes, parentId).value, x,
                         Outline(Attach(nodes, parentId, x).0, depth))
    decreases nodes
  {
    var n := nodes[0];
    if n.id == parentId {
      AttachOutlineHere(nodes, parentId, x, depth);
    } else if Attach(n.children, parentId, x).1 {
      AttachOutline(n.children, parentId, x, depth + 1);
      AttachOutlineInChildren(nodes, parentId, x, depth);
    } else {
      AttachOutline(nodes[1..], parentId, x, depth);
      AttachOutlineInRest(nodes, parentId, x, depth);
    }
  }

  lemma {:induction false} AttachOutlineHere(nodes: seq<Node>, parentId: int, x: Node, depth: nat)
    requires nodes != [] && nodes[0].id == parentId
    ensures var o := Outline(nodes, depth);
            SplicedAfter(o, FirstIndex(o, parentId), nodes[0], x, Outline(Attach(nodes, parentId, x).0, depth))
  {
    var n := nodes[0];
    var hc, r := [Entry(depth, Strip(n))] + Outline(n.children, depth + 1), Outline(nodes[1..], depth);
    var xs := Outline([x], depth + 1);
    var o := Outline(nodes, depth);
    assert o == hc + r;
    assert FirstIndex(o, parentId) == 0 && o[0].depth == depth by {
      assert o[0] == Entry(depth, Strip(n));
    }
    assert Size([n]) == |hc| by {
      HeadTail(n, []);
    }
    AttachHere(nodes, parentId, x);
    OutlineGrown(n, x, nodes[1..], depth);
    assert o[..|hc|] == hc && o[|hc|..] == r;
  }

  /** Attaching under the first root appends to its children. */
  lemma {:induction false} AttachHere(nodes: seq<Node>, parentId: int, x: Node)
    requires nodes != [] && nodes[0].id == parentId
    ensures Attach(nodes, parentId, x).0 == [nodes[0].(children := nodes[0].children + [x])] + nodes[1..]
  {
  }

  /** The listing of a forest whose first tree gained `x` as its last child. */
  lemma {:induction false} OutlineGrown(n: Node, x: Node, rest: seq<Node>, depth: nat)
    ensures Outline([n.(children := n.children + [x])] + rest, depth) ==
            [Entry(depth, Strip(n))] + Outline(n.children, depth + 1) + Outline([x], depth + 1) + Outline(rest, depth)
  {
    var m := n.(children := n.children + [x]);
    assert Outline(m.children, depth + 1) == Outline(n.children, depth + 1) + Outline([x], depth + 1) by {
      OutlineAppend(n.children, [x], depth + 1);
    }
    assert Strip(m) == Strip(n);
    OutlineCons(m, rest, depth);
  }

  /** A splice inside the middle part of a listing is a splice of the whole. */
  lemma {:induction false} SplicedThrough(pre: seq<Entry>, mid: seq<Entry>, post: seq<Entry>, k: nat,
                                          p: Node, x: Node, midAfter: seq<Entry>)
    requires SplicedAfter(mid, k, p, x, midAfter)
    ensures SplicedAfter(pre + mid + post, |pre| + k, p, x, pre + midAfter + post)
  {
    assert (pre + mid + post)[|pre| + k] == mid[k];
    SpliceInMiddle(pre, mid, post, k + Size([p]), Outline([x], mid[k].depth + 1));
  }

  lemma {:induction false} AttachOutlineInChildren(nodes: seq<Node>, parentId: int, x: Node, depth: nat)
    requires nodes != [] && nodes[0].id != parentId && Attach(nodes[0].children, parentId, x).1
    requires var c := Outline(nodes[0].children, depth + 1);
             SplicedAfter(c, FirstIndex(c, parentId), FindNode(nodes[0].children, parentId).value, x,
                          Outline(Attach(nodes[0].children, parentId, x).0, depth + 1))
    ensures var o := Outline(nodes, depth);
            SplicedAfter(o, FirstIndex(o, parentId), FindNode(nodes, parentId).value, x,
                         Outline(Attach(nodes, parentId, x).0, depth))
  {
    var n, rest := nodes[0], nodes[1..];
    var head, c, r := [Entry(depth, Strip(n))], Outline(n.children, depth + 1), Outline(rest, depth);
    var kids := Attach(n.children, parentId, x).0;
    var p := FindNode(n.children, parentId).value;
    var kc := FirstIndex(c, parentId);
    var o := Outline(nodes, depth);
    var after := Outline(Attach(nodes, parentId, x).0, depth);
    assert FindNode(nodes, parentId) == Some(p);
    assert o == head + c + r;
    assert after == head + Outline(kids, depth + 1) + r by {
      var m := n.(children := kids);
      assert Attach(nodes, parentId, x).0 == [m] + rest;
      OutlineCons(m, rest, depth);
      assert Strip(m) == Strip(n);
    }
    assert FirstIndex(o, parentId) == |head| + kc by {
      FirstInMiddle(head, c, r, parentId, Size([p]));
    }
    SplicedThrough(head, c, r, kc, p, x, Outline(kids, depth + 1));
  }

  lemma {:induction false} AttachOutlineInRest(nodes: seq<Node>, parentId: int, x: Node, depth: nat)
    requires nodes != [] && nodes[0].id != parentId && !Attach(nodes[0].children, parentId, x).1
    requires Attach(nodes[1..], parentId, x).1
    requires var r := Outline(nodes[1..], depth);
             SplicedAfter(r, FirstIndex(r, parentId), FindNode(nodes[1..], parentId).value, x,
                          Outline(Attach(nodes[1..], parentId, x).0, depth))
    ensures var o := Outline(nodes, depth);
            SplicedAfter(o, FirstIndex(o, parentId), FindNode(nodes, parentId).value, x,
                         Outline(Attach(nodes, parentId, x).0, depth))
  {
    var n, rest := nodes[0], nodes[1..];
    var hc := [Entry(depth, Strip(n))] + Outline(n.children, depth + 1);
    var rest' := Attach(rest, parentId, x).0;
    assert FindNode(nodes, parentId) == FindNode(rest, parentId);
    assert Outline(nodes, depth) == hc + Outline(rest, depth);
    assert Outline(Attach(nodes, parentId, x).0, depth) == hc + Outline(rest', depth) by {
      assert Attach(nodes, parentId, x).0 == [n] + rest';
      OutlineCons(n, rest', depth);
    }
    HeadLacks(n, parentId, depth);
    SplicedPast(hc, Outline(rest, depth), parentId, FindNode(rest, parentId).value, x, Outline(rest', depth));
  }

  /** A splice after a prefix that does not carry the parent's id is a
      splice of the whole listing. */
  lemma {:induction false} SplicedPast(pre: seq<Entry>, o: seq<Entry>, parentId: int, p: Node, x: Node, after: seq<Entry>)
    requires FirstIndex(pre, parentId) == |pre|
    requires SplicedAfter(o, FirstIndex(o, parentId), p, x, after)
    ensures SplicedAfter(pre + o, FirstIndex(pre + o, parentId), p, x, pre + after)
  {
    FirstIndexAppend(pre, o, parentId);
    SplicedThrough(pre, o, [], FirstIndex(o, parentId), p, x, after);
    assert pre + o + [] == pre + o && pre + after + [] == pre + after;
  }

  /** The scan of `addToParent` at position `i`, all earlier siblings
      having been searched in vain. */
  lemma {:induction false} AttachAt(nodes: seq<Node>, i: nat, parentId: int, x: Node)
    requires i < |nodes| && !Attach(nodes[..i], parentId, x).1
    ensures var n, rest := nodes[i], nodes[i + 1..];
            var tail := Attach([n] + rest, parentId, x);
            && Attach(nodes, parentId, x) == (nodes[..i] + tail.0, tail.1)
            && ([n] + rest)[0] == n && ([n] + rest)[1..] == rest
            && (n.id != parentId && !Attach(n.children, parentId, x).1 ==> !Attach(nodes[..i + 1], parentId, x).1)
  {
    var n, rest := nodes[i], nodes[i + 1..];
    assert [n] + rest == nodes[i..];
    assert nodes[..i] + nodes[i..] == nodes;
    AttachAfter(nodes[..i], nodes[i..], parentId, x);
    HeadTail(n, rest);
    if n.id != parentId && !Attach(n.children, parentId, x).1 {
      HeadTail(n, []);
      assert !Attach([n], parentId, x).1;
      AttachAfter(nodes[..i], [n], parentId, x);
      assert nodes[..i + 1] == nodes[..i] + [n];
    }
  }

  /** The recursive `addToParent` helper: scan the siblings in order; at the
      parent append `x` and stop; otherwise search the node's children and
      stop if `x` was placed there. */
  method AddToParent(nodes: seq<Node>, parentId: int, x: Node) returns (r: seq<Node>, found: bool)
    ensures (r, found) == Attach(nodes, parentId, x)
    decreases nodes
  {
    var i := 0;
    while i < |nodes|
      invariant 0 <= i <= |nodes|
      invariant !Attach(nodes[..i], parentId, x).1
    {
      var node, rest := nodes[i], nodes[i + 1..];
      AttachAt(nodes, i, parentId, x);
      if node.id == parentId {
        r, found := nodes[..i] + ([node.(children := node.children + [x])] + rest), true;
        return;
      }
      var kids, ok := AddToParent(node.children, parentId, x);
      if ok {
        r, found := nodes[..i] + ([node.(children := kids)] + rest), true;
        return;
      }
      i := i + 1;
    }
    assert nodes[..i] == nodes;
    r, found := nodes, false;
  }
}
