/** The filtered copy served by the list route (`filterTree`). */
module OrgFilter {
  import opened OrgTree

  /** The list route's query options. A `name`, `code` or `type` that is
      absent or empty constrains nothing; so does an absent `status`. */
  datatype Filter = Filter(name: Option<string>, code: Option<string>, kind: Option<string>, status: Option<int>)

  /** `sub` occurs in `s` starting at position `i`. */
  predicate OccursAt(s: string, sub: string, i: int)
  {
    0 <= i && i + |sub| <= |s| && s[i..i + |sub|] == sub
  }

  /** Substring test, as JavaScript's `String.prototype.includes`: scan the
      start positions from the left. */
  function Includes(s: string, sub: string): bool
    decreases |s|
  {
    if |sub| > |s| then false
    else if sub <= s then true
    else Includes(s[1..], sub)
  }

  lemma {:induction false} IncludesIffOccurs(s: string, sub: string)
    ensures Includes(s, sub) <==> exists i :: OccursAt(s, sub, i)
    decreases |s|
  {
    if |sub| > |s| {
    } else if sub <= s {
      assert OccursAt(s, sub, 0);
    } else {
      IncludesIffOccurs(s[1..], sub);
      assert !OccursAt(s, sub, 0);
      forall i | OccursAt(s, sub, i)
        ensures OccursAt(s[1..], sub, i - 1)
      {
        assert s[1..][i - 1..i - 1 + |sub|] == s[i..i + |sub|];
      }
      forall i | OccursAt(s[1..], sub, i)
        ensures OccursAt(s, sub, i + 1)
      {
        assert s[1..][i..i + |sub|] == s[i + 1..i + 1 + |sub|];
      }
    }
  }

  /** A string option that JavaScript treats as falsy: absent or empty. */
  predicate Blank(o: Option<string>)
  {
    o.None? || o.value == ""
  }

  /** The per-node test of the list route: every supplied criterion holds. */
  predicate Matches(n: Node, f: Filter)
  {
    && (Blank(f.name) || Includes(n.name, f.name.value))
    && (Blank(f.code) || Includes(n.code, f.code.value))
    && (Blank(f.kind) || TypeName(n.kind) == f.kind.value)
    && (f.status.None? || n.status == f.status.value)
  }

  /** The four match rules of the list route, with the substring tests
      stated by position: `name` and `code` occur in the record's fields,
      `type` equals the record's type string and `status` equals its status;
      a blank or absent criterion holds of every record. */
  lemma {:induction false} MatchesIffCriteria(n: Node, f: Filter)
    ensures Matches(n, f) <==>
            && (Blank(f.name) || exists i :: OccursAt(n.name, f.name.value, i))
            && (Blank(f.code) || exists i :: OccursAt(n.code, f.code.value, i))
            && (Blank(f.kind) || f.kind == Some(TypeName(n.kind)))
            && (f.status.None? || f.status == Some(n.status))
  {
    if !Blank(f.name) {
      IncludesIffOccurs(n.name, f.name.value);
    }
    if !Blank(f.code) {
      IncludesIffOccurs(n.code, f.code.value);
    }
  }

  /** A type criterion naming a level keeps only records of that level. */
  lemma {:induction false} TypeCriterionSelects(n: Node, f: Filter, t: OrgType)
    requires f.kind == Some(TypeName(t))
    ensures Matches(n, f) ==> n.kind == t
  {
    TypeNameInjective(n.kind, t);
  }

  /** No criterion is supplied. */
  predicate NoCriteria(f: Filter)
  {
    Blank(f.name) && Blank(f.code) && Blank(f.kind) && f.status.None?
  }

  /** Every node of the forest matches or still has children, all the way
      down; in particular every leaf matches. */
  predicate Pruned(nodes: seq<Node>, f: Filter)
  {
    forall i :: 0 <= i < |nodes| ==>
      (Matches(nodes[i], f) || nodes[i].children != []) && Pruned(nodes[i].children, f)
  }

  /** Bottom-up filtered copy: each node's children are filtered first; the
      node is kept, carrying its filtered children, when it matches or when
      some child survived. */
  function FilterTree(nodes: seq<Node>, f: Filter): (r: seq<Node>)
    ensures |r| <= |nodes|
  {
    if nodes == [] then []
    else
      var kids := FilterTree(nodes[0].children, f);
      var rest := FilterTree(nodes[1..], f);
      if Matches(nodes[0], f) || |kids| > 0 then [nodes[0].(children := kids)] + rest else rest
  }

  /** Every node the list route returns matches or has a surviving child. */
  lemma {:induction false} FilterTreePruned(nodes: seq<Node>, f: Filter)
    ensures Pruned(FilterTree(nodes, f), f)
    decreases nodes
  {
    if nodes != [] {
      var n := nodes[0];
      var kids, rest := FilterTree(n.children, f), FilterTree(nodes[1..], f);
      FilterTreePruned(n.children, f);
      FilterTreePruned(nodes[1..], f);
      if Matches(n, f) || |kids| > 0 {
        var m := n.(children := kids);
        assert Matches(m, f) == Matches(n, f);
        forall i | 0 <= i < |[m] + rest|
          ensures var x := ([m] + rest)[i]; (Matches(x, f) || x.children != []) && Pruned(x.children, f)
        {
          if i > 0 {
            assert ([m] + rest)[i] == rest[i - 1];
          }
        }
      }
    }
  }

  /** Some node of the forest matches. */
  predicate HasMatch(nodes: seq<Node>, f: Filter)
  {
    exists e :: e in Outline(nodes, 0) && Matches(e.node, f)
  }

  /** A node the list route must return: it matches, or one of its
      descendants does. */
  predicate Kept(n: Node, f: Filter)
  {
    Matches(n, f) || HasMatch(n.children, f)
  }

  /** Reference view of the list route's answer: the pre-order listing of
      the forest restricted to the kept nodes, each at its original depth. */
  function KeptOutline(nodes: seq<Node>, f: Filter, depth: nat): seq<Entry>
  {
    if nodes == [] then []
    else (if Kept(nodes[0], f) then [Entry(depth, Strip(nodes[0]))] else [])
         + KeptOutline(nodes[0].children, f, depth + 1)
         + KeptOutline(nodes[1..], f, depth)
  }

  /** The filtered forest is empty exactly when no node matches. */
  lemma {:induction false} FilterTreeNonEmpty(nodes: seq<Node>, f: Filter, depth: nat)
    ensures |FilterTree(nodes, f)| > 0 <==> exists e :: e in Outline(nodes, depth) && Matches(e.node, f)
    decreases nodes
  {
    if nodes != [] {
      var n := nodes[0];
      FilterTreeNonEmpty(n.children, f, depth + 1);
      FilterTreeNonEmpty(nodes[1..], f, depth);
      var head, c, r := [Entry(depth, Strip(n))], Outline(n.children, depth + 1), Outline(nodes[1..], depth);
      assert Outline(nodes, depth) == head + c + r;
      assert Matches(Strip(n), f) == Matches(n, f);
      if exists e :: e in Outline(nodes, depth) && Matches(e.node, f) {
        var e: Entry :| e in head + c + r && Matches(e.node, f);
        assert e in head || e in c || e in r;
      }
    }
  }

  /** The list route returns exactly the kept nodes, with their own fields,
      at their original depths and in their original pre-order. */
  lemma {:induction false} FilterTreeKeepsExactly(nodes: seq<Node>, f: Filter, depth: nat)
    ensures Outline(FilterTree(nodes, f), depth) == KeptOutline(nodes, f, depth)
    decreases nodes
  {
    if nodes != [] {
      var n := nodes[0];
      var kids, rest := FilterTree(n.children, f), FilterTree(nodes[1..], f);
      FilterTreeKeepsExactly(n.children, f, depth + 1);
      FilterTreeKeepsExactly(nodes[1..], f, depth);
      FilterTreeNonEmpty(n.children, f, 0);
      assert Kept(n, f) <==> Matches(n, f) || |kids| > 0;
      if Kept(n, f) {
        var m := n.(children := kids);
        assert Outline([m] + rest, depth) == [Entry(depth, Strip(n))] + Outline(kids, depth + 1) + Outline(rest, depth) by {
          HeadTail(m, rest);
          assert Strip(m) == Strip(n);
        }
      } else {
        assert kids == [];
      }
    }
  }

  /** With no criterion the list route returns the whole forest unchanged. */
  lemma {:induction false} FilterTreeNoCriteria(nodes: seq<Node>, f: Filter)
    requires NoCriteria(f)
    ensures FilterTree(nodes, f) == nodes
    decreases nodes
  {
    if nodes != [] {
      FilterTreeNoCriteria(nodes[0].children, f);
      FilterTreeNoCriteria(nodes[1..], f);
      assert nodes[0].(children := nodes[0].children) == nodes[0];
      assert [nodes[0]] + nodes[1..] == nodes;
    }
  }
}
