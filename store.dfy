/** The mock organisation service: the forest and the id counter the routes
    share, and the six routes that read and change them. */
module OrgRoutes {
  import opened OrgTree
  import opened OrgSearch
  import opened OrgFilter
  import opened OrgInsert
  import opened OrgUpdate
  import opened OrgDelete
  import opened OrgSeed

  /** Every id in the forest is below the next id the create route will hand
      out, so a new record never collides with an existing one. */
  predicate IdsBelow(nodes: seq<Node>, next: int)
  {
    forall i :: i in Ids(nodes) ==> i < next
  }

  class OrgStore {
    /** The module-level `organizationTree`. */
    var forest: seq<Node>
    /** The module-level `idCounter`: the id of the next record created. */
    var idCounter: int

    /** Ids are unique and all below the counter. */
    ghost predicate Valid()
      reads this
    {
      UniqueIds(forest) && IdsBelow(forest, idCounter)
    }

    /** The store as the module is loaded: the seed forest, counter 9. */
    constructor ()
      ensures Valid()
      ensures forest == Seed() && idCounter == FirstFreeId
    {
      forest := Seed();
      idCounter := FirstFreeId;
      SeedIds();
    }

    /** The tree route: the stored forest itself. */
    method GetTree() returns (r: seq<Node>)
      ensures r == forest
    {
      r := forest;
    }

    /** The list route: the filtered copy. It keeps exactly the records
        that match or have a matching descendant, at their depths and in
        their order, and every record it returns matches or has children. */
    method GetList(f: Filter) returns (r: seq<Node>)
      ensures r == FilterTree(forest, f)
      ensures Outline(r, 0) == KeptOutline(forest, f, 0)
      ensures Pruned(r, f)
      ensures |r| > 0 <==> HasMatch(forest, f)
      ensures NoCriteria(f) ==> r == forest
    {
      r := FilterTree(forest, f);
      FilterTreeKeepsExactly(forest, f, 0);
      FilterTreePruned(forest, f);
      FilterTreeNonEmpty(forest, f, 0);
      if NoCriteria(f) {
        FilterTreeNoCriteria(forest, f);
      }
    }

    /** The detail route: the record with that id, subtree included, or
        `None` for "not found" when no record carries it. */
    method GetById(id: int) returns (r: Option<Node>)
      ensures r == FindNode(forest, id)
      ensures r.None? <==> id !in Ids(forest)
      ensures r.Some? ==> r.value.id == id
      ensures r.Some? ==> ListsSubtreeAt(Outline(forest, 0), FirstIndex(Outline(forest, 0), id), r.value)
    {
      r := FindNode(forest, id);
      if r.Some? {
        FindNodeIsFirstInPreorder(forest, id, 0);
      }
    }

    /** The create route. The record gets the counter's value as its id and
        the counter moves on. With a truthy parent id it is appended to the
        children of the first record carrying that id, or silently dropped
        when there is none; otherwise it becomes the last root. The route
        reports success in every case. */
    method Insert(form: Form, now: string) returns (ok: bool)
      requires Valid()
      modifies this
      ensures Valid()
      ensures ok
      ensures idCounter == old(idCounter) + 1
      ensures var x := NewNode(form, old(idCounter), now);
              if Truthy(form.parentId) then forest == Attach(old(forest), form.parentId.value, x).0
              else forest == old(forest) + [x]
      ensures var placed := !Truthy(form.parentId) || form.parentId.value in Ids(old(forest));
              && (placed ==> FindNode(forest, old(idCounter)) == Some(NewNode(form, old(idCounter), now)))
              && (!placed ==> forest == old(forest))
    ensures var x, o := NewNode(form, old(idCounter), now), Outline(old(forest), 0);
            if Truthy(form.parentId) then
              form.parentId.value in Ids(old(forest)) ==>
                SplicedAfter(o, FirstIndex(o, form.parentId.value), FindNode(old(forest), form.parentId.value).value,
                             x, Outline(forest, 0))
            else Outline(forest, 0) == o + [Entry(0, x)]
    {
      var x := NewNode(form, idCounter, now);
      assert x.id !in Ids(forest);
      if Truthy(form.parentId) {
        var r, found := AddToParent(forest, form.parentId.value, x);
        AttachIds(forest, form.parentId.value, x);
        AttachKeepsUnique(forest, form.parentId.value, x);
        if found {
          AttachFindsNew(forest, form.parentId.value, x);
          AttachOutline(forest, form.parentId.value, x, 0);
        }
        forest := r;
      } else {
        IdsAppend(forest, [x]);
        UniqueAppend(forest, [x]);
        FindNodeAppend(forest, [x], x.id);
        HeadTail(x, []);
        OutlineAppend(forest, [x], 0);
        assert Outline([x], 0) == [Entry(0, x)] by {
          OutlineCons(x, [], 0);
        }
        forest := forest + [x];
      }
      idCounter := idCounter + 1;
      ok := true;
    }

    /** The edit route: merges the form into the record carrying `id`, or
        reports "not found". The ids, the shape of the forest and the
        counter do not change. */
    method Update(id: int, form: Form, now: string) returns (ok: bool)
      requires Valid()
      modifies this
      ensures Valid()
      ensures (forest, ok) == Patch(old(forest), id, form, now)
      ensures ok <==> id in Ids(old(forest))
      ensures Ids(forest) == Ids(old(forest)) && idCounter == old(idCounter)
      ensures ok ==> FindNode(forest, id) == Some(Assign(FindNode(old(forest), id).value, form, now))
      ensures var o := Outline(old(forest), 0);
              ok ==> PatchedAt(o, FirstIndex(o, id), form, now, Outline(forest, 0))
    {
      var r, found := UpdateNode(forest, id, form, now);
      PatchIds(forest, id, form, now);
      PatchKeepsUnique(forest, id, form, now);
      if found {
        PatchFinds(forest, id, form, now);
        PatchOutline(forest, id, form, now, 0);
      }
      forest, ok := r, found;
    }

    /** The delete route: removes the record carrying `id` with its whole
        subtree, or reports "not found". Afterwards no record carries `id`,
        and exactly the ids of the removed subtree are gone. */
    method Delete(id: int) returns (ok: bool)
      requires Valid()
      modifies this
      ensures Valid()
      ensures (forest, ok) == Remove(old(forest), id)
      ensures ok <==> id in Ids(old(forest))
      ensures id !in Ids(forest) && idCounter == old(idCounter)
      ensures ok ==> Ids(forest) == Ids(old(forest)) - Ids([FindNode(old(forest), id).value])
      ensures var o := Outline(old(forest), 0);
              ok ==> CutAt(o, FirstIndex(o, id), Size([FindNode(old(forest), id).value]), Outline(forest, 0))
    {
      var r, found := DeleteNode(forest, id);
      if found {
        RemoveSubtree(forest, id, 0);
        RemoveIsFinal(forest, id);
      }
      forest, ok := r, found;
    }
  }
}
