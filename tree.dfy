/** The organisation forest: node records, the form and the pre-order views
    (outline, id set, size) that the operations are specified against. */
module OrgTree {

  datatype Option<T> = None | Some(value: T)

  /** The three organisation levels; nothing ties a level to its parent's. */
  datatype OrgType = Company | Department | Team

  /** The string the records carry in their `type` field. */
  function TypeName(t: OrgType): (s: string)
    ensures |s| > 0
  {
    match t
    case Company => "company"
    case Department => "department"
    case Team => "team"
  }

  /** The three levels are stored under three different strings, so the
      string names the level. */
  lemma {:induction false} TypeNameInjective(a: OrgType, b: OrgType)
    ensures TypeName(a) == TypeName(b) ==> a == b
  {
  }

  /** One organisation record. Optional strings are `None` when the record
      has no such field; `status` is 1 (active) or 0 (inactive) by convention,
      but nothing in the store enforces it. */
  datatype Node = Node(
    id: int,
    parentId: Option<int>,
    name: string,
    code: string,
    kind: OrgType,
    sort: int,
    status: int,
    leader: Option<string>,
    phone: Option<string>,
    email: Option<string>,
    remark: Option<string>,
    createTime: Option<string>,
    updateTime: Option<string>,
    children: seq<Node>)

  /** The fields a client submits to create or edit a record: everything but
      `id`, `createTime`, `updateTime` and `children`. An optional field that
      is `None` is absent from the request body. */
  datatype Form = Form(
    parentId: Option<int>,
    name: string,
    code: string,
    kind: OrgType,
    sort: int,
    status: int,
    leader: Option<string>,
    phone: Option<string>,
    email: Option<string>,
    remark: Option<string>)

  /** A node's own fields, without its subtree. */
  function Strip(n: Node): Node
  {
    n.(children := [])
  }

  /** One line of the pre-order listing: a node's own fields and its depth. */
  datatype Entry = Entry(depth: nat, node: Node)

  /** Number of nodes in a forest. */
  function Size(nodes: seq<Node>): nat
  {
    if nodes == [] then 0 else 1 + Size(nodes[0].children) + Size(nodes[1..])
  }

  /** All ids occurring anywhere in a forest. */
  function Ids(nodes: seq<Node>): set<int>
  {
    if nodes == [] then {} else {nodes[0].id} + Ids(nodes[0].children) + Ids(nodes[1..])
  }

  /** The pre-order listing of a forest (a node, then its subtree, then its
      later siblings), each entry at its depth below `depth`. The listing
      together with the depths determines the forest (`OutlineInjective`),
      so equalities between outlines say exactly which nodes change, appear
      or disappear, and that nothing else moves. */
  function Outline(nodes: seq<Node>, depth: nat): (o: seq<Entry>)
    ensures |o| == Size(nodes)
  {
    if nodes == [] then []
    else [Entry(depth, Strip(nodes[0]))] + Outline(nodes[0].children, depth + 1) + Outline(nodes[1..], depth)
  }

  /** Every entry of the listing is a node of the forest, without its
      subtree, at least as deep as the forest's roots. */
  lemma {:induction false} OutlineEntries(nodes: seq<Node>, depth: nat)
    ensures forall e :: e in Outline(nodes, depth) ==>
              e.node.id in Ids(nodes) && e.node.children == [] && e.depth >= depth
    decreases nodes
  {
    if nodes != [] {
      OutlineEntries(nodes[0].children, depth + 1);
      OutlineEntries(nodes[1..], depth);
    }
  }

  /** The listing of a non-empty forest starts with its first root, at the
      forest's depth. */
  lemma {:induction false} OutlineHeadDepth(nodes: seq<Node>, depth: nat)
    requires nodes != []
    ensures Outline(nodes, depth)[0] == Entry(depth, Strip(nodes[0]))
  {
  }

  /** The listing with its depths determines the forest: two forests with
      the same listing are the same forest. */
  lemma {:induction false} OutlineInjective(a: seq<Node>, b: seq<Node>, depth: nat)
    requires Outline(a, depth) == Outline(b, depth)
    ensures a == b
    decreases a
  {
    if a != [] && b != [] {
      OutlineHeadSplit(a, b, depth);
      OutlineInjective(a[0].children, b[0].children, depth + 1);
      OutlineInjective(a[1..], b[1..], depth);
      SameParts(a, b);
    }
  }

  /** Equal listings of two non-empty forests have equal first roots, equal
      listings below them and equal listings of the later siblings. */
  lemma {:induction false} OutlineHeadSplit(a: seq<Node>, b: seq<Node>, depth: nat)
    requires a != [] && b != [] && Outline(a, depth) == Outline(b, depth)
    ensures Strip(a[0]) == Strip(b[0])
    ensures Outline(a[0].children, depth + 1) == Outline(b[0].children, depth + 1)
    ensures Outline(a[1..], depth) == Outline(b[1..], depth)
  {
    var ca, ra := Outline(a[0].children, depth + 1), Outline(a[1..], depth);
    var cb, rb := Outline(b[0].children, depth + 1), Outline(b[1..], depth);
    var ea, eb := Entry(depth, Strip(a[0])), Entry(depth, Strip(b[0]));
    assert Outline(a, depth) == [ea] + ca + ra && Outline(b, depth) == [eb] + cb + rb;
    assert [ea] + ca + ra == [ea] + (ca + ra) && [eb] + cb + rb == [eb] + (cb + rb);
    ConsInjective(ea, ca + ra, eb, cb + rb);
    ListingParts(a[0], a[1..], depth, ca, ra);
    ListingParts(b[0], b[1..], depth, cb, rb);
    SplitListing(ca, ra, cb, rb, depth);
  }

  /** Two non-empty forests agreeing on the first root's fields, its
      children and the later siblings are equal. */
  lemma {:induction false} SameParts(a: seq<Node>, b: seq<Node>)
    requires a != [] && b != [] && Strip(a[0]) == Strip(b[0])
    requires a[0].children == b[0].children && a[1..] == b[1..]
    ensures a == b
  {
    assert a[0] == Strip(a[0]).(children := a[0].children);
    assert a == [a[0]] + a[1..] && b == [b[0]] + b[1..];
  }

  lemma {:induction false} ConsInjective(x: Entry, s: seq<Entry>, y: Entry, t: seq<Entry>)
    requires [x] + s == [y] + t
    ensures x == y && s == t
  {
    assert ([x] + s)[0] == x && ([y] + t)[0] == y;
    assert ([x] + s)[1..] == s && ([y] + t)[1..] == t;
  }

  /** Below a root, the listing of its subtree is deeper than the root and
      the listing of its later siblings starts at the root's depth. */
  lemma {:induction false} ListingParts(n: Node, rest: seq<Node>, depth: nat, c: seq<Entry>, r: seq<Entry>)
    requires c == Outline(n.children, depth + 1) && r == Outline(rest, depth)
    ensures forall i :: 0 <= i < |c| ==> c[i].depth > depth
    ensures r == [] || r[0].depth == depth
  {
    OutlineEntries(n.children, depth + 1);
    assert forall i :: 0 <= i < |c| ==> c[i] in c;
    if rest != [] {
      OutlineHeadDepth(rest, depth);
    }
  }

  /** Length of the longest prefix of a listing whose entries are all deeper
      than `depth`. */
  function DeepPrefix(o: seq<Entry>, depth: nat): (k: nat)
    ensures k <= |o|
    ensures forall i :: 0 <= i < k ==> o[i].depth > depth
  {
    if o == [] || o[0].depth <= depth then 0 else 1 + DeepPrefix(o[1..], depth)
  }

  /** The subtree part of a listing is its longest deep prefix. */
  lemma {:induction false} DeepPrefixAppend(c: seq<Entry>, r: seq<Entry>, depth: nat)
    requires forall i :: 0 <= i < |c| ==> c[i].depth > depth
    requires r == [] || r[0].depth == depth
    ensures DeepPrefix(c + r, depth) == |c|
    decreases |c|
  {
    if c == [] {
      assert c + r == r;
    } else {
      assert (c + r)[0] == c[0] && (c + r)[1..] == c[1..] + r;
      DeepPrefixAppend(c[1..], r, depth);
    }
  }

  /** A listing below a root, followed by the listing of the root's later
      siblings, splits in one way only. */
  lemma {:induction false} SplitListing(ca: seq<Entry>, ra: seq<Entry>, cb: seq<Entry>, rb: seq<Entry>, depth: nat)
    requires ca + ra == cb + rb
    requires forall i :: 0 <= i < |ca| ==> ca[i].depth > depth
    requires forall i :: 0 <= i < |cb| ==> cb[i].depth > depth
    requires ra == [] || ra[0].depth == depth
    requires rb == [] || rb[0].depth == depth
    ensures ca == cb && ra == rb
  {
    DeepPrefixAppend(ca, ra, depth);
    DeepPrefixAppend(cb, rb, depth);
    assert ca == (ca + ra)[..|ca|] && cb == (cb + rb)[..|cb|];
    assert ra == (ca + ra)[|ca|..] && rb == (cb + rb)[|cb|..];
  }

  /** No id occurs twice in the forest. */
  predicate UniqueIds(nodes: seq<Node>)
  {
    nodes == [] ||
    (&& nodes[0].id !in Ids(nodes[0].children)
     && nodes[0].id !in Ids(nodes[1..])
     && Ids(nodes[0].children) !! Ids(nodes[1..])
     && UniqueIds(nodes[0].children)
     && UniqueIds(nodes[1..]))
  }

  /** Unfolding a forest whose first tree is given explicitly. */
  lemma {:induction false} HeadTail(n: Node, rest: seq<Node>)
    ensures ([n] + rest)[0] == n && ([n] + rest)[1..] == rest
  {
  }

  /** The listing of a forest whose first tree is `m`. */
  lemma {:induction false} OutlineCons(m: Node, rest: seq<Node>, depth: nat)
    ensures Outline([m] + rest, depth) ==
            [Entry(depth, Strip(m))] + Outline(m.children, depth + 1) + Outline(rest, depth)
  {
    HeadTail(m, rest);
  }

  /** A forest split around its sibling at position `k`. */
  lemma {:induction false} SplitAt(nodes: seq<Node>, k: nat)
    requires k < |nodes|
    ensures nodes == nodes[..k] + ([nodes[k]] + nodes[k + 1..])
    ensures Ids(nodes) == Ids(nodes[..k]) + Ids([nodes[k]]) + Ids(nodes[k + 1..])
    ensures Size(nodes) == Size(nodes[..k]) + Size([nodes[k]]) + Size(nodes[k + 1..])
  {
    var n, pre, post := nodes[k], nodes[..k], nodes[k + 1..];
    assert nodes == pre + ([n] + post);
    IdsAppend(pre, [n] + post);
    IdsAppend([n], post);
    SizeAppend(pre, [n] + post);
    SizeAppend([n], post);
  }

  lemma {:induction false} SizeAppend(a: seq<Node>, b: seq<Node>)
    ensures Size(a + b) == Size(a) + Size(b)
    decreases |a|
  {
    if a == [] {
      assert a + b == b;
    } else {
      assert (a + b)[0] == a[0] && (a + b)[1..] == a[1..] + b;
      SizeAppend(a[1..], b);
    }
  }

  lemma {:induction false} IdsAppend(a: seq<Node>, b: seq<Node>)
    ensures Ids(a + b) == Ids(a) + Ids(b)
    decreases |a|
  {
    if a == [] {
      assert a + b == b;
    } else {
      assert (a + b)[0] == a[0] && (a + b)[1..] == a[1..] + b;
      IdsAppend(a[1..], b);
    }
  }

  lemma {:induction false} OutlineAppend(a: seq<Node>, b: seq<Node>, depth: nat)
    ensures Outline(a + b, depth) == Outline(a, depth) + Outline(b, depth)
    decreases |a|
  {
    if a == [] {
      assert a + b == b;
    } else {
      assert (a + b)[0] == a[0] && (a + b)[1..] == a[1..] + b;
      OutlineAppend(a[1..], b, depth);
    }
  }

  /** A concatenation has unique ids exactly when both parts do and they
      share no id. */
  lemma {:induction false} UniqueAppend(a: seq<Node>, b: seq<Node>)
    ensures UniqueIds(a + b) <==> UniqueIds(a) && UniqueIds(b) && Ids(a) !! Ids(b)
    decreases |a|
  {
    if a == [] {
      assert a + b == b;
    } else {
      assert (a + b)[0] == a[0] && (a + b)[1..] == a[1..] + b;
      UniqueAppend(a[1..], b);
      IdsAppend(a[1..], b);
    }
  }
}
