/** The edit route: `updateNode` and the merge it performs on the record. */
module OrgUpdate {
  import opened OrgTree
  import opened OrgSearch

  /** `Object.assign(node, body, {updateTime})`: every required form field
      overwrites the record's; an optional one overwrites it only when the
      request carries it; `updateTime` becomes the current time. The id, the
      creation time and the subtree are kept. `parentId` is overwritten like
      any other field, but the record stays where it is in the forest. */
  function Assign(n: Node, form: Form, now: string): (m: Node)
    ensures m.id == n.id && m.children == n.children && m.createTime == n.createTime
    ensures m.updateTime == Some(now)
    ensures m.parentId == form.parentId && m.name == form.name && m.code == form.code
    ensures m.kind == form.kind && m.sort == form.sort && m.status == form.status
    ensures m.leader == (if form.leader.Some? then form.leader else n.leader)
    ensures m.phone == (if form.phone.Some? then form.phone else n.phone)
    ensures m.email == (if form.email.Some? then form.email else n.email)
    ensures m.remark == (if form.remark.Some? then form.remark else n.remark)
  {
    n.(parentId := form.parentId, name := form.name, code := form.code, kind := form.kind,
       sort := form.sort, status := form.status,
       leader := if form.leader.Some? then form.leader else n.leader,
       phone := if form.phone.Some? then form.phone else n.phone,
       email := if form.email.Some? then form.email else n.email,
       remark := if form.remark.Some? then form.remark else n.remark,
       updateTime := Some(now))
  }

  /** Submitting the same form twice at the same time has the effect of
      submitting it once. */
  lemma {:induction false} AssignIdempotent(n: Node, form: Form, now: string)
    ensures Assign(Assign(n, form, now), form, now) == Assign(n, form, now)
  {
  }

  /** The merge touches only the record's own fields. */
  lemma {:induction false} AssignStrip(n: Node, form: Form, now: string)
    ensures Strip(Assign(n, form, now)) == Assign(Strip(n), form, now)
  {
  }

  /** Merges the form into the first node, in pre-order, whose id is `id`;
      reports whether there was one. When there is none the forest comes
      back unchanged. */
  function Patch(nodes: seq<Node>, id: int, form: Form, now: string): (r: (seq<Node>, bool))
    ensures r.1 <==> id in Ids(nodes)
    ensures !r.1 ==> r.0 == nodes
  {
    if nodes == [] then (nodes, false)
    else
      var n := nodes[0];
      if n.id == id then ([Assign(n, form, now)] + nodes[1..], true)
      else
        var below := Patch(n.children, id, form, now);
        if below.1 then ([n.(children := below.0)] + nodes[1..], true)
        else
          var after := Patch(nodes[1..], id, form, now);
          assert [n] + nodes[1..] == nodes;
          ([n] + after.0, after.1)
  }

  /** A prefix without the record leaves the search to the suffix. */
  lemma {:induction false} PatchAfter(a: seq<Node>, b: seq<Node>, id: int, form: Form, now: string)
    requires !Patch(a, id, form, now).1
    ensures Patch(a + b, id, form, now) == (a + Patch(b, id, form, now).0, Patch(b, id, form, now).1)
    decreases |a|
  {
    if a == [] {
      assert a + b == b;
      assert a + Patch(b, id, form, now).0 == Patch(b, id, form, now).0;
    } else {
      var n, tail := a[0], Patch(b, id, form, now);
      assert n.id != id && !Patch(n.children, id, form, now).1 && !Patch(a[1..], id, form, now).1;
      PatchAfter(a[1..], b, id, form, now);
      assert (a + b)[0] == n && (a + b)[1..] == a[1..] + b;
      assert Patch(a + b, id, form, now) == ([n] + (a[1..] + tail.0), tail.1);
      assert [n] + (a[1..] + tail.0) == a + tail.0;
    }
  }

  /** Editing keeps the forest's ids and its number of nodes. */
  lemma {:induction false} PatchIds(nodes: seq<Node>, id: int, form: Form, now: string)
    ensures var r := Patch(nodes, id, form, now).0;
            Ids(r) == Ids(nodes) && Size(r) == Size(nodes)
    decreases nodes
  {
    if nodes != [] {
      var n, rest := nodes[0], nodes[1..];
      if n.id == id {
        HeadTail(Assign(n, form, now), rest);
      } else if Patch(n.children, id, form, now).1 {
        PatchIds(n.children, id, form, now);
        HeadTail(n.(children := Patch(n.children, id, form, now).0), rest);
      } else {
        PatchIds(rest, id, form, now);
        HeadTail(n, Patch(rest, id, form, now).0);
      }
    }
  }

  /** Editing keeps the forest's ids unique. */
  lemma {:induction false} PatchKeepsUnique(nodes: seq<Node>, id: int, form: Form, now: string)
    requires UniqueIds(nodes)
    ensures UniqueIds(Patch(nodes, id, form, now).0)
    decreases nodes
  {
    if nodes != [] {
      var n, rest := nodes[0], nodes[1..];
      if n.id == id {
        HeadTail(Assign(n, form, now), rest);
      } else if Patch(n.children, id, form, now).1 {
        PatchKeepsUnique(n.children, id, form, now);
        PatchIds(n.children, id, form, now);
        HeadTail(n.(children := Patch(n.children, id, form, now).0), rest);
      } else {
        PatchKeepsUnique(rest, id, form, now);
        PatchIds(rest, id, form, now);
        HeadTail(n, Patch(rest, id, form, now).0);
      }
    }
  }

  /** After the edit, the detail route finds the merged record, subtree
      included. */
  lemma {:induction false} PatchFinds(nodes: seq<Node>, id: int, form: Form, now: string)
    requires Patch(nodes, id, form, now).1
    ensures FindNode(Patch(nodes, id, form, now).0, id) == Some(Assign(FindNode(nodes, id).value, form, now))
    decreases nodes
  {
    var n, rest := nodes[0], nodes[1..];
    if n.id == id {
      HeadTail(Assign(n, form, now), rest);
    } else if Patch(n.children, id, form, now).1 {
      PatchFinds(n.children, id, form, now);
      HeadTail(n.(children := Patch(n.children, id, form, now).0), rest);
    } else {
      PatchFinds(rest, id, form, now);
      HeadTail(n, Patch(rest, id, form, now).0);
    }
  }

  /** `after` is the listing `o` with entry `k` merged with the form, its
      depth kept. */
  predicate PatchedAt(o: seq<Entry>, k: nat, form: Form, now: string, after: seq<Entry>)
  {
    k < |o| && after == o[k := Entry(o[k].depth, Assign(o[k].node, form, now))]
  }

  /** Replacing an entry of the middle part of a listing, seen through the
      whole. */
  lemma {:induction false} PatchedThrough(pre: seq<Entry>, mid: seq<Entry>, post: seq<Entry>, k: nat,
                                          form: Form, now: string, midAfter: seq<Entry>)
    requires PatchedAt(mid, k, form, now, midAfter)
    ensures PatchedAt(pre + mid + post, |pre| + k, form, now, pre + midAfter + post)
  {
    var o := pre + mid + post;
    assert o[|pre| + k] == mid[k];
    var e := Entry(mid[k].depth, Assign(mid[k].node, form, now));
    assert o[|pre| + k := e] == pre + mid[k := e] + post;
  }

  /** Exactly one entry of the pre-order listing changes: the first one
      carrying `id`, which is merged with the form and keeps its depth and
      its place. */
  lemma {:induction false} PatchOutline(nodes: seq<Node>, id: int, form: Form, now: string, depth: nat)
    requires Patch(nodes, id, form, now).1
    ensures var o := Outline(nodes, depth);
            PatchedAt(o, FirstIndex(o, id), form, now, Outline(Patch(nodes, id, form, now).0, depth))
    decreases nodes
  {
    var n := nodes[0];
    if n.id == id {
      PatchOutlineHere(nodes, id, form, now, depth);
    } else if Patch(n.children, id, form, now).1 {
      PatchOutline(n.children, id, form, now, depth + 1);
      PatchOutlineInChildren(nodes, id, form, now, depth);
    } else {
      PatchOutline(nodes[1..], id, form, now, depth);
      PatchOutlineInRest(nodes, id, form, now, depth);
    }
  }

  lemma {:induction false} PatchOutlineHere(nodes: seq<Node>, id: int, form: Form, now: string, depth: nat)
    requires nodes != [] && nodes[0].id == id
    ensures var o := Outline(nodes, depth);
            PatchedAt(o, FirstIndex(o, id), form, now, Outline(Patch(nodes, id, form, now).0, depth))
  {
    var n := nodes[0];
    var cr := Outline(n.children, depth + 1) + Outline(nodes[1..], depth);
    var o := Outline(nodes, depth);
    var e := Entry(depth, Assign(Strip(n), form, now));
    assert o == [Entry(depth, Strip(n))] + cr;
    assert FirstIndex(o, id) == 0 && o[0] == Entry(depth, Strip(n));
    PatchHere(nodes, id, form, now);
    OutlineAssigned(n, form, now, nodes[1..], depth);
    assert o[0 := e] == [e] + cr;
  }

  /** The listing of a forest whose first tree had the form merged in. */
  lemma {:induction false} OutlineAssigned(n: Node, form: Form, now: string, rest: seq<Node>, depth: nat)
    ensures Outline([Assign(n, form, now)] + rest, depth) ==
            [Entry(depth, Assign(Strip(n), form, now))] + (Outline(n.children, depth + 1) + Outline(rest, depth))
  {
    OutlineCons(Assign(n, form, now), rest, depth);
    AssignStrip(n, form, now);
  }

  /** Editing the first root merges the form into it alone. */
  lemma {:induction false} PatchHere(nodes: seq<Node>, id: int, form: Form, now: string)
    requires nodes != [] && nodes[0].id == id
    ensures Patch(nodes, id, form, now).0 == [Assign(nodes[0], form, now)] + nodes[1..]
  {
  }

  lemma {:induction false} PatchOutlineInChildren(nodes: seq<Node>, id: int, form: Form, now: string, depth: nat)
    requires nodes != [] && nodes[0].id != id && Patch(nodes[0].children, id, form, now).1
    requires var c := Outline(nodes[0].children, depth + 1);
             PatchedAt(c, FirstIndex(c, id), form, now, Outline(Patch(nodes[0].children, id, form, now).0, depth + 1))
    ensures var o := Outline(nodes, depth);
            PatchedAt(o, FirstIndex(o, id), form, now, Outline(Patch(nodes, id, form, now).0, depth))
  {
    var n, rest := nodes[0], nodes[1..];
    var head, c, r := [Entry(depth, Strip(n))], Outline(n.children, depth + 1), Outline(rest, depth);
    var kids := Patch(n.children, id, form, now).0;
    var kc := FirstIndex(c, id);
    var o := Outline(nodes, depth);
    var after := Outline(Patch(nodes, id, form, now).0, depth);
    assert o == head + c + r;
    assert after == head + Outline(kids, depth + 1) + r by {
      var m := n.(children := kids);
      assert Patch(nodes, id, form, now).0 == [m] + rest;
      OutlineCons(m, rest, depth);
      assert Strip(m) == Strip(n);
    }
    assert FirstIndex(o, id) == |head| + kc by {
      FirstInMiddle(head, c, r, id, 1);
    }
    PatchedThrough(head, c, r, kc, form, now, Outline(kids, depth + 1));
  }

  lemma {:induction false} PatchOutlineInRest(nodes: seq<Node>, id: int, form: Form, now: string, depth: nat)
    requires nodes != [] && nodes[0].id != id && !Patch(nodes[0].children, id, form, now).1
    requires Patch(nodes[1..], id, form, now).1
    requires var r := Outline(nodes[1..], depth);
             PatchedAt(r, FirstIndex(r, id), form, now, Outline(Patch(nodes[1..], id, form, now).0, depth))
    ensures var o := Outline(nodes, depth);
            PatchedAt(o, FirstIndex(o, id), form, now, Outline(Patch(nodes, id, form, now).0, depth))
  {
    var n, rest := nodes[0], nodes[1..];
    var hc := [Entry(depth, Strip(n))] + Outline(n.children, depth + 1);
    var rest' := Patch(rest, id, form, now).0;
    assert Outline(nodes, depth) == hc + Outline(rest, depth);
    assert Outline(Patch(nodes, id, form, now).0, depth) == hc + Outline(rest', depth) by {
      assert Patch(nodes, id, form, now).0 == [n] + rest' by {
        assert Patch(nodes, id, form, now) == ([n] + Patch(rest, id, form, now).0, true);
      }
      OutlineCons(n, rest', depth);
    }
    HeadLacks(n, id, depth);
    PatchedPast(hc, Outline(rest, depth), id, form, now, Outline(rest', depth));
  }

  /** An edit after a prefix that does not carry the id is an edit of the
      whole listing. */
  lemma {:induction false} PatchedPast(pre: seq<Entry>, o: seq<Entry>, id: int, form: Form, now: string,
                                       after: seq<Entry>)
    requires FirstIndex(pre, id) == |pre|
    requires PatchedAt(o, FirstIndex(o, id), form, now, after)
    ensures PatchedAt(pre + o, FirstIndex(pre + o, id), form, now, pre + after)
  {
    FirstIndexAppend(pre, o, id);
    PatchedThrough(pre, o, [], FirstIndex(o, id), form, now, after);
    assert pre + o + [] == pre + o && pre + after + [] == pre + after;
  }

  /** The scan of `updateNode` at position `i`, all earlier siblings having
      been searched in vain. */
  lemma {:induction false} PatchAt(nodes: seq<Node>, i: nat, id: int, form: Form, now: string)
    requires i < |nodes| && !Patch(nodes[..i], id, form, now).1
    ensures var n, rest := nodes[i], nodes[i + 1..];
            var tail := Patch([n] + rest, id, form, now);
            && Patch(nodes, id, form, now) == (nodes[..i] + tail.0, tail.1)
            && ([n] + rest)[0] == n && ([n] + rest)[1..] == rest
            && (n.id != id && !Patch(n.children, id, form, now).1 ==> !Patch(nodes[..i + 1], id, form, now).1)
  {
    var n, rest := nodes[i], nodes[i + 1..];
    assert [n] + rest == nodes[i..];
    assert nodes[..i] + nodes[i..] == nodes;
    PatchAfter(nodes[..i], nodes[i..], id, form, now);
    HeadTail(n, rest);
    if n.id != id && !Patch(n.children, id, form, now).1 {
      HeadTail(n, []);
      assert !Patch([n], id, form, now).1;
      PatchAfter(nodes[..i], [n], id, form, now);
      assert nodes[..i + 1] == nodes[..i] + [n];
    }
  }

  /** The recursive `updateNode` helper: scan the siblings in order; at the
      record merge the form and stop; otherwise search the node's children
      and stop if the record was found there. */
  method UpdateNode(nodes: seq<Node>, id: int, form: Form, now: string) returns (r: seq<Node>, found: bool)
    ensures (r, found) == Patch(nodes, id, form, now)
    decreases nodes
  {
    var i := 0;
    while i < |nodes|
      invariant 0 <= i <= |nodes|
      invariant !Patch(nodes[..i], id, form, now).1
    {
      var node, rest := nodes[i], nodes[i + 1..];
      PatchAt(nodes, i, id, form, now);
      if node.id == id {
        r, found := nodes[..i] + ([Assign(node, form, now)] + rest), true;
        return;
      }
      var kids, ok := UpdateNode(node.children, id, form, now);
      if ok {
        r, found := nodes[..i] + ([node.(children := kids)] + rest), true;
        return;
      }
      i := i + 1;
    }
    assert nodes[..i] == nodes;
    r, found := nodes, false;
  }
}
