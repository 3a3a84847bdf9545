/** The organisation forest the store starts from: one company, two
    departments, five teams. */
module OrgSeed {
  import opened OrgTree
  import opened OrgSearch
  import opened OrgFilter

  function Org1(): Node
  {
    Node(1, None, "AccessMesh科技有限公司", "ACCESSMESH", Company, 1, 1,
         Some("张总"), Some("13800000001"), Some("zhang@accessmesh.com"), Some("总公司"),
         Some("2024-01-01 00:00:00"), Some("2024-06-01 10:30:00"), [Org2(), Org3()])
  }

  function Org2(): Node
  {
    Node(2, Some(1), "技术研发中心", "RD", Department, 1, 1,
         Some("李经理"), Some("13800000002"), Some("li@accessmesh.com"), None,
         Some("2024-01-15 00:00:00"), Some("2024-05-20 15:30:00"), [Org4(), Org5(), Org6()])
  }

  function Org4(): Node
  {
    Node(4, Some(2), "前端开发组", "RD-FE", Team, 1, 1,
         Some("王工"), Some("13800000004"), Some("wang@accessmesh.com"), None,
         Some("2024-02-01 00:00:00"), Some("2024-05-15 09:20:00"), [])
  }

  function Org5(): Node
  {
    Node(5, Some(2), "后端开发组", "RD-BE", Team, 2, 1,
         Some("赵工"), Some("13800000005"), Some("zhao@accessmesh.com"), None,
         Some("2024-02-01 00:00:00"), Some("2024-05-10 14:10:00"), [])
  }

  function Org6(): Node
  {
    Node(6, Some(2), "测试组", "RD-QA", Team, 3, 0,
         Some("陈工"), Some("13800000006"), Some("chen@accessmesh.com"), None,
         Some("2024-02-15 00:00:00"), Some("2024-04-25 16:45:00"), [])
  }

  function Org3(): Node
  {
    Node(3, Some(1), "市场运营部", "MKT", Department, 2, 1,
         Some("孙经理"), Some("13800000003"), Some("sun@accessmesh.com"), None,
         Some("2024-01-20 00:00:00"), Some("2024-06-15 11:00:00"), [Org7(), Org8()])
  }

  function Org7(): Node
  {
    Node(7, Some(3), "品牌推广组", "MKT-BRAND", Team, 1, 1,
         Some("周专员"), Some("13800000007"), Some("zhou@accessmesh.com"), None,
         Some("2024-03-01 00:00:00"), Some("2024-06-10 08:30:00"), [])
  }

  function Org8(): Node
  {
    Node(8, Some(3), "新媒体运营组", "MKT-NEW", Team, 2, 1,
         Some("吴专员"), Some("13800000008"), Some("wu@accessmesh.com"), None,
         Some("2024-03-10 00:00:00"), Some("2024-06-12 10:15:00"), [])
  }

  /** The initial forest. */
  function Seed(): seq<Node>
  {
    [Org1()]
  }

  /** The next id the create route hands out. */
  const FirstFreeId: int := 9

  /** A forest of two childless records. */
  lemma {:induction false} TwoLeavesIds(b: Node, c: Node)
    requires b.children == [] && c.children == []
    ensures Ids([b, c]) == {b.id, c.id} && Size([b, c]) == 2
    ensures b.id != c.id ==> UniqueIds([b, c])
  {
    assert [c][1..] == [];
    assert Ids([c]) == {c.id} && Size([c]) == 1 && UniqueIds([c]);
    assert [b, c][1..] == [c];
  }

  /** A forest of three childless records. */
  lemma {:induction false} LeavesIds(a: Node, b: Node, c: Node)
    requires a.children == [] && b.children == [] && c.children == []
    ensures Ids([a, b, c]) == {a.id, b.id, c.id} && Size([a, b, c]) == 3
    ensures a.id != b.id && a.id != c.id && b.id != c.id ==> UniqueIds([a, b, c])
  {
    TwoLeavesIds(b, c);
    assert [a, b, c][1..] == [b, c];
  }

  /** A forest of one tree. */
  lemma {:induction false} SingleIds(d: Node)
    ensures Ids([d]) == {d.id} + Ids(d.children) && Size([d]) == 1 + Size(d.children)
    ensures UniqueIds([d]) <==> d.id !in Ids(d.children) && UniqueIds(d.children)
  {
    assert [d][1..] == [];
  }

  /** The initial forest holds ids 1 to 8, each once, all below the next
      free id, and eight records. */
  lemma {:induction false} SeedIds()
    ensures Ids(Seed()) == {1, 2, 3, 4, 5, 6, 7, 8}
    ensures Size(Seed()) == 8
    ensures UniqueIds(Seed())
    ensures forall i :: i in Ids(Seed()) ==> 0 < i < FirstFreeId
  {
    var d2, d3 := Org2(), Org3();
    ResearchIds();
    MarketingIds();
    assert [d2] + [d3] == Org1().children;
    IdsAppend([d2], [d3]);
    SizeAppend([d2], [d3]);
    UniqueAppend([d2], [d3]);
    SingleIds(Org1());
  }

  lemma {:induction false} ResearchIds()
    ensures Ids([Org2()]) == {2, 4, 5, 6} && Size([Org2()]) == 4 && UniqueIds([Org2()])
  {
    LeavesIds(Org4(), Org5(), Org6());
    SingleIds(Org2());
  }

  lemma {:induction false} MarketingIds()
    ensures Ids([Org3()]) == {3, 7, 8} && Size([Org3()]) == 3 && UniqueIds([Org3()])
  {
    TwoLeavesIds(Org7(), Org8());
    SingleIds(Org3());
  }

  /** The list route asked for inactive records only: team 6 is the only
      one, so the answer is the path company 1, department 2, team 6;
      department 3 and the other teams are pruned. */
  lemma {:induction false} ListInactive()
    ensures FilterTree(Seed(), Filter(None, None, None, Some(0))) ==
            [Org1().(children := [Org2().(children := [Org6()])])]
  {
    var f := Filter(None, None, None, Some(0));
    var t4, t5, t6, t7, t8 := Org4(), Org5(), Org6(), Org7(), Org8();
    assert [t4, t5, t6][1..] == [t5, t6] && [t5, t6][1..] == [t6] && [t6][1..] == [];
    assert [t7, t8][1..] == [t8] && [t8][1..] == [];
    assert FilterTree([t6], f) == [t6] by {
      assert t6.(children := []) == t6;
    }
    assert FilterTree([t4, t5, t6], f) == [t6];
    assert FilterTree([t7, t8], f) == [];
    var d2, d3 := Org2(), Org3();
    assert [d2, d3][1..] == [d3] && [d3][1..] == [];
    assert FilterTree([d3], f) == [];
    assert FilterTree([d2, d3], f) == [d2.(children := [t6])];
    assert Seed()[1..] == [];
  }

  /** A five-letter code of the research teams does not contain "MKT". */
  lemma {:induction false} LacksMKT(code: string)
    requires |code| == 5 && code[0] == 'R' && code[1] == 'D' && code[2] == '-'
    ensures !Includes(code, "MKT")
  {
    var s1, s2, s3 := code[1..], code[2..], code[3..];
    assert s1 == code[1..] && s1[1..] == s2 && s2[1..] == s3;
    assert !("MKT" <= code) && !("MKT" <= s1) && !("MKT" <= s2);
    assert Includes(code, "MKT") == Includes(s1, "MKT") == Includes(s2, "MKT") == Includes(s3, "MKT");
  }

  /** Filtering by code "MKT": no research team matches, nor does their
      department. */
  lemma {:induction false} ResearchLacksMKT()
    ensures var f := Filter(None, Some("MKT"), None, None);
            FilterTree(Org2().children, f) == [] && !Matches(Org2(), f)
  {
    var f := Filter(None, Some("MKT"), None, None);
    var t4, t5, t6 := Org4(), Org5(), Org6();
    assert [t4, t5, t6][1..] == [t5, t6] && [t5, t6][1..] == [t6] && [t6][1..] == [];
    LacksMKT(t4.code);
    LacksMKT(t5.code);
    LacksMKT(t6.code);
    assert FilterTree([t6], f) == [];
    assert FilterTree([t5, t6], f) == [];
  }

  /** Filtering by code "MKT": both marketing teams match and are kept as
      they are. */
  lemma {:induction false} MarketingHasMKT()
    ensures var f := Filter(None, Some("MKT"), None, None);
            FilterTree(Org3().children, f) == Org3().children
  {
    var f := Filter(None, Some("MKT"), None, None);
    var t7, t8 := Org7(), Org8();
    assert [t7, t8][1..] == [t8] && [t8][1..] == [];
    assert "MKT" <= t7.code && "MKT" <= t8.code;
    assert Matches(t7, f) && Matches(t8, f);
    assert t7.(children := []) == t7 && t8.(children := []) == t8;
    assert FilterTree([t8], f) == [t8];
  }

  /** The list route asked for code "MKT" keeps department 3 and both of its
      teams, under the company; the research department is pruned. */
  lemma {:induction false} ListByCode()
    ensures FilterTree(Seed(), Filter(None, Some("MKT"), None, None)) ==
            [Org1().(children := [Org3()])]
  {
    var f := Filter(None, Some("MKT"), None, None);
    ResearchLacksMKT();
    MarketingHasMKT();
    var d2, d3 := Org2(), Org3();
    assert [d2, d3][1..] == [d3] && [d3][1..] == [];
    assert FilterTree([d3], f) == [d3] by {
      assert "MKT" <= d3.code;
      assert d3.(children := d3.children) == d3;
    }
    assert FilterTree([d2, d3], f) == [d3];
    assert Seed()[1..] == [];
  }
}
