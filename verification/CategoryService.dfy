/**
 The back-office operations on the category table, in the form the service runs them,
 each proved against its step of the category store; and the two storefront readers
 that replace recursion by the stored columns (breadcrumbs, tree assembly).
 */
module CategoryService {
  import opened Outcomes
  import opened CategoryTree
  import opened Rows

  /** The caller sees exactly one step of the store: the new tables, and the refusal if there is one. */
  ghost predicate Performed(before: Store, op: Op, error: Option<AdminError>, after: Store) {
    && after == Step(before, op)
    && (match Apply(before, op)
        case Ok(_) => error == None
        case Err(e) => error == Some(e))
  }

  /** The rewriting loop of a move, over the rows selected by "path contains id". */
  method RebaseSubtree(t: Table, id: CategoryId, newParentId: Option<CategoryId>, newNodePath: seq<CategoryId>)
    returns (rows: Table)
    requires id in t && (newParentId.Some? ==> newParentId.value in t)
    requires newNodePath == Prefix(t, newParentId) + [id]
    ensures rows == Moved(t, id, newParentId)
  {
    rows := t;
    var oldLen := |t[id].path|;
    var subtree := InSomeOrder(set m | m in t && id in t[m].path);
    for i := 0 to |subtree|
      invariant rows.Keys == t.Keys
      invariant forall m :: m in t ==> rows[m] == if m in subtree[..i] then Moved(t, id, newParentId)[m] else t[m]
    {
      var m := subtree[i];
      assert m in subtree;
      var member := rows[m];
      var tail := From(member.path, oldLen);
      var path := newNodePath + tail;
      member := member.(path := path, depth := |path| - 1);
      if m == id {
        member := member.(parentId := newParentId);
      }
      rows := rows[m := member];
      assert subtree[..i + 1] == subtree[..i] + [m];
    }
    assert subtree[..|subtree|] == subtree;
    forall m | m in t
      ensures rows[m] == Moved(t, id, newParentId)[m]
    {
      assert m in subtree <==> id in t[m].path;
    }
  }

  class AdminCategories {
    var categories: Table
    var productCategory: map<int, CategoryId>
    var nextId: CategoryId

    ghost function Contents(): Store
      reads this
    {
      Store(categories, productCategory, nextId)
    }

    method ResolvePath(parentId: Option<CategoryId>) returns (r: Result<seq<CategoryId>, AdminError>)
      ensures r == if parentId.Some? && parentId.value !in categories then Err(NotFound)
                   else Ok(Prefix(categories, parentId))
    {
      if parentId == None { return Ok([]); }
      if parentId.value !in categories { return Err(NotFound); }
      r := Ok(categories[parentId.value].path);
    }

    method CreateCategory(parentId: Option<CategoryId>, position: int, isActive: bool)
      returns (error: Option<AdminError>, id: CategoryId)
      modifies this
      ensures Performed(old(Contents()), Create(parentId, position, isActive), error, Contents())
      ensures error == None ==> id == old(nextId)
    {
      id := nextId;
      var prefix := ResolvePath(parentId);
      if prefix.Err? { return Some(prefix.error), id; }
      // The row is inserted first, because its path needs the generated id.
      nextId := nextId + 1;
      categories := categories[id := Category(parentId, [], |prefix.value|, position, isActive)];
      categories := categories[id := categories[id].(path := prefix.value + [id])];
      error := None;
    }

    method DeleteCategory(id: CategoryId) returns (error: Option<AdminError>)
      modifies this
      ensures Performed(old(Contents()), Delete(id), error, Contents())
    {
      if id !in categories { return Some(NotFound); }
      if HasChildren(categories, id) { return Some(Conflict); }
      if HasProducts(productCategory, id) { return Some(Conflict); }
      categories := categories - {id};
      error := None;
    }

    method MoveCategory(id: CategoryId, newParentId: Option<CategoryId>) returns (error: Option<AdminError>)
      modifies this`categories
      ensures Performed(old(Contents()), Move(id, newParentId), error, Contents())
    {
      if id !in categories { return Some(NotFound); }
      var prefix := ResolvePath(newParentId);
      if prefix.Err? { return Some(prefix.error); }
      if id in prefix.value { return Some(Invalid); }
      categories := RebaseSubtree(categories, id, newParentId, prefix.value + [id]);
      error := None;
    }

    method UpdateCategory(id: CategoryId, patch: CategoryPatch) returns (error: Option<AdminError>)
      modifies this
      ensures Performed(old(Contents()), Update(id, patch), error, Contents())
    {
      if id !in categories { return Some(NotFound); }
      if patch.parentId.Some? {
        error := MoveCategory(id, patch.parentId.value);
        if error.Some? { return; }
      }
      categories := categories[id := Patched(categories[id], patch)];
      error := None;
    }
  }

  // ---------------------------------------------------------------- breadcrumbs

  datatype Crumb<Name> = Crumb(id: CategoryId, name: Name)

  /** The crumbs of `id` by recursion over the parent links: the ancestors' crumbs, then its own. */
  ghost function CrumbsByRecursion<Name>(t: Table, id: CategoryId, names: map<CategoryId, Name>): seq<Crumb<Name>>
    requires Agrees(t) && id in t
    decreases |t[id].path|
  {
    LinkedIffAgrees(t);
    assert RowLinked(t, id);
    var own := if id in names then [Crumb(id, names[id])] else [];
    match t[id].parentId
    case None => own
    case Some(p) => CrumbsByRecursion(t, p, names) + own
  }

  /** One crumb for each id of the path that has a name, in path order. */
  function NamedPath<Name>(path: seq<CategoryId>, names: map<CategoryId, Name>): seq<Crumb<Name>> {
    if path == [] then []
    else
      var last := path[|path| - 1];
      NamedPath(path[..|path| - 1], names) + if last in names then [Crumb(last, names[last])] else []
  }

  method BuildBreadcrumbs<Name>(path: seq<CategoryId>, names: map<CategoryId, Name>)
    returns (crumbs: seq<Crumb<Name>>)
    ensures crumbs == NamedPath(path, names)
  {
    crumbs := [];
    for i := 0 to |path|
      invariant crumbs == NamedPath(path[..i], names)
    {
      assert path[..i + 1][..i] == path[..i];
      if path[i] in names {
        crumbs := crumbs + [Crumb(path[i], names[path[i]])];
      }
    }
    assert path[..|path|] == path;
  }

  /** Reading `path` gives the same crumbs as the recursive walk. */
  lemma {:induction false} BreadcrumbsEqualRecursion<Name>(t: Table, id: CategoryId, names: map<CategoryId, Name>)
    requires Agrees(t) && id in t
    ensures NamedPath(t[id].path, names) == CrumbsByRecursion(t, id, names)
    decreases |t[id].path|
  {
    LinkedIffAgrees(t);
    assert RowLinked(t, id);
    match t[id].parentId
    case None =>
      assert t[id].path[..0] == [];
    case Some(p) =>
      assert t[id].path[..|t[id].path| - 1] == t[p].path;
      BreadcrumbsEqualRecursion(t, p, names);
  }

  // ---------------------------------------------------------------- tree assembly

  /** Which nodes, in listing order, hang directly under `parent`. */
  function ChildrenOf(
    order: seq<CategoryId>, parents: map<CategoryId, Option<CategoryId>>, parent: CategoryId): seq<CategoryId>
    requires forall id :: id in order ==> id in parents
  {
    if order == [] then []
    else
      var last := order[|order| - 1];
      ChildrenOf(order[..|order| - 1], parents, parent) + if parents[last] == Some(parent) then [last] else []
  }

  /** Which nodes become roots: no parent, or a parent that is not listed. */
  function RootsOf(
    order: seq<CategoryId>, parents: map<CategoryId, Option<CategoryId>>, listed: set<CategoryId>): seq<CategoryId>
    requires forall id :: id in order ==> id in parents
  {
    if order == [] then []
    else
      var last := order[|order| - 1];
      RootsOf(order[..|order| - 1], parents, listed)
      + if parents[last].None? || parents[last].value !in listed then [last] else []
  }

  method AssembleTree(order: seq<CategoryId>, parents: map<CategoryId, Option<CategoryId>>)
    returns (roots: seq<CategoryId>, children: map<CategoryId, seq<CategoryId>>)
    requires forall id :: id in order <==> id in parents
    ensures roots == RootsOf(order, parents, parents.Keys)
    ensures children.Keys == parents.Keys
    ensures forall p :: p in children ==> children[p] == ChildrenOf(order, parents, p)
  {
    roots := [];
    children := map id | id in parents :: [];
    for i := 0 to |order|
      invariant roots == RootsOf(order[..i], parents, parents.Keys)
      invariant children.Keys == parents.Keys
      invariant forall p :: p in children ==> children[p] == ChildrenOf(order[..i], parents, p)
    {
      assert order[..i + 1][..i] == order[..i];
      var id := order[i];
      var parent := parents[id];
      if parent.Some? && parent.value in parents {
        children := children[parent.value := children[parent.value] + [id]];
      } else {
        roots := roots + [id];
      }
    }
    assert order[..|order|] == order;
  }

  lemma LastSplitsOff<T>(s: seq<T>)
    requires s != []
    ensures multiset(s) == multiset(s[..|s| - 1]) + multiset{s[|s| - 1]}
  {
    assert s == s[..|s| - 1] + [s[|s| - 1]];
  }

  lemma {:induction false} ChildrenMembership(
    order: seq<CategoryId>, parents: map<CategoryId, Option<CategoryId>>, parent: CategoryId, id: CategoryId)
    requires (forall c :: c in order ==> c in parents) && id in parents
    ensures multiset(ChildrenOf(order, parents, parent))[id] ==
            if parents[id] == Some(parent) then multiset(order)[id] else 0
  {
    if order != [] {
      ChildrenMembership(order[..|order| - 1], parents, parent, id);
      LastSplitsOff(order);
    }
  }

  lemma {:induction false} RootsMembership(
    order: seq<CategoryId>, parents: map<CategoryId, Option<CategoryId>>, listed: set<CategoryId>, id: CategoryId)
    requires (forall c :: c in order ==> c in parents) && id in parents
    ensures multiset(RootsOf(order, parents, listed))[id] ==
            if parents[id].None? || parents[id].value !in listed then multiset(order)[id] else 0
  {
    if order != [] {
      RootsMembership(order[..|order| - 1], parents, listed, id);
      LastSplitsOff(order);
    }
  }

  /** Every listed node is placed exactly once: as a root, or in its own parent's list and no other. */
  lemma EveryNodePlacedOnce(
    order: seq<CategoryId>, parents: map<CategoryId, Option<CategoryId>>, id: CategoryId, p: CategoryId)
    requires forall c :: c in order <==> c in parents
    requires multiset(order)[id] == 1
    ensures multiset(RootsOf(order, parents, parents.Keys))[id] ==
            if parents[id].Some? && parents[id].value in parents then 0 else 1
    ensures p in parents ==>
              multiset(ChildrenOf(order, parents, p))[id] == if parents[id] == Some(p) then 1 else 0
  {
    assert id in multiset(order);
    RootsMembership(order, parents, parents.Keys, id);
    ChildrenMembership(order, parents, p, id);
  }

  /** The part of a listing with the given ids, in the listing's order. */
  ghost predicate InListingOrder(part: seq<CategoryId>, order: seq<CategoryId>) {
    forall i, j :: 0 <= i < j < |part| ==> Precedes(order, part[i], part[j])
  }

  ghost predicate Precedes(order: seq<CategoryId>, a: CategoryId, b: CategoryId) {
    exists m, n :: 0 <= m < n < |order| && order[m] == a && order[n] == b
  }

  lemma AppendKeepsOrder(part: seq<CategoryId>, order: seq<CategoryId>, last: CategoryId)
    requires InListingOrder(part, order) && forall id :: id in part ==> id in order
    ensures InListingOrder(part, order + [last]) && InListingOrder(part + [last], order + [last])
  {
    var longer := order + [last];
    forall i, j | 0 <= i < j < |part + [last]| ensures Precedes(longer, (part + [last])[i], (part + [last])[j]) {
      if j < |part| {
        assert Precedes(order, part[i], part[j]);
        var m, n :| 0 <= m < n < |order| && order[m] == part[i] && order[n] == part[j];
        assert longer[m] == part[i] && longer[n] == part[j];
      } else {
        assert part[i] in order;
        var m :| 0 <= m < |order| && order[m] == part[i];
        assert longer[m] == part[i] && longer[|order|] == last;
      }
    }
    forall i, j | 0 <= i < j < |part| ensures Precedes(longer, part[i], part[j]) {
      assert (part + [last])[i] == part[i] && (part + [last])[j] == part[j];
    }
  }

  /** Roots, and the children of each node, keep the order of the listing. */
  lemma {:induction false} ListingOrderKept(
    order: seq<CategoryId>, parents: map<CategoryId, Option<CategoryId>>, listed: set<CategoryId>, p: CategoryId)
    requires forall c :: c in order ==> c in parents
    ensures InListingOrder(RootsOf(order, parents, listed), order)
    ensures InListingOrder(ChildrenOf(order, parents, p), order)
    ensures forall id :: id in RootsOf(order, parents, listed) + ChildrenOf(order, parents, p) ==> id in order
  {
    if order != [] {
      var n := |order| - 1;
      assert order == order[..n] + [order[n]];
      ListingOrderKept(order[..n], parents, listed, p);
      AppendKeepsOrder(RootsOf(order[..n], parents, listed), order[..n], order[n]);
      AppendKeepsOrder(ChildrenOf(order[..n], parents, p), order[..n], order[n]);
    }
  }
}
