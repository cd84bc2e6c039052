/**
 The category table. Every row stores its parent link and, denormalized next to it,
 the whole chain of ancestors (`path`, root first, ending in the row's own id) and
 its `depth`. The storefront trusts `path` wherever a recursive walk would be needed.
 */
module CategoryTree {
  import opened Outcomes

  type CategoryId = int

  datatype Category = Category(
    parentId: Option<CategoryId>,
    path: seq<CategoryId>,
    depth: int,
    position: int,
    isActive: bool)

  type Table = map<CategoryId, Category>

  datatype AdminError = NotFound | Conflict | Invalid

  // ---------------------------------------------------------------- parent links

  /** The category reached from `id` by following the parent link `k` times. */
  ghost function Ancestor(t: Table, id: CategoryId, k: nat): Option<CategoryId> {
    if k == 0 then Some(id)
    else
      match Ancestor(t, id, k - 1)
      case None => None
      case Some(a) => if a in t then t[a].parentId else None
  }

  /** `id` lies in the subtree of `root`: some number of parent steps leads there. */
  ghost predicate Descendant(t: Table, root: CategoryId, id: CategoryId) {
    exists k: nat :: Ancestor(t, id, k) == Some(root)
  }

  /** Step `i` of the list is a parent link: the category there hangs from the one before it. */
  ghost predicate LinkAt(t: Table, walk: seq<CategoryId>, i: int) {
    0 < i < |walk| && walk[i] in t && t[walk[i]].parentId == Some(walk[i - 1])
  }

  /** A list of categories going down the parent links. */
  ghost predicate IsWalk(t: Table, walk: seq<CategoryId>) {
    && walk != []
    && (forall i :: 0 <= i < |walk| ==> walk[i] in t)
    && (forall i {:trigger LinkAt(t, walk, i)} :: 0 < i < |walk| ==> LinkAt(t, walk, i))
  }

  /** `chain` lists, root first, exactly the categories on the parent walk from `id`. */
  ghost predicate IsParentChain(t: Table, chain: seq<CategoryId>, id: CategoryId) {
    IsWalk(t, chain) && t[chain[0]].parentId == None && chain[|chain| - 1] == id
  }

  /** The denormalized columns of a row agree with the parent links. */
  ghost predicate RowAgrees(t: Table, id: CategoryId)
    requires id in t
  {
    IsParentChain(t, t[id].path, id) && t[id].depth == |t[id].path| - 1
  }

  ghost predicate Agrees(t: Table) {
    forall id {:trigger RowAgrees(t, id)} :: id in t ==> RowAgrees(t, id)
  }

  /** The row-by-row form of agreement: each path extends the parent's path by one id. */
  ghost predicate RowLinked(t: Table, id: CategoryId)
    requires id in t
  {
    && t[id].depth == |t[id].path| - 1
    && match t[id].parentId
       case None => t[id].path == [id]
       case Some(p) => p in t && t[id].path == t[p].path + [id]
  }

  ghost predicate Linked(t: Table) {
    forall id {:trigger RowLinked(t, id)} :: id in t ==> RowLinked(t, id)
  }

  lemma WalkPrefix(t: Table, walk: seq<CategoryId>, n: nat)
    requires IsWalk(t, walk) && 0 < n <= |walk|
    ensures IsWalk(t, walk[..n])
  {
    forall i | 0 < i < n
      ensures LinkAt(t, walk[..n], i)
    {
      assert LinkAt(t, walk, i);
    }
  }

  lemma WalkSuffix(t: Table, walk: seq<CategoryId>, n: nat)
    requires IsWalk(t, walk) && n < |walk|
    ensures IsWalk(t, walk[n..])
  {
    forall i | 0 < i < |walk| - n
      ensures LinkAt(t, walk[n..], i)
    {
      assert LinkAt(t, walk, n + i);
    }
  }

  lemma {:induction false} ChainUnique(t: Table, c1: seq<CategoryId>, c2: seq<CategoryId>, id: CategoryId)
    requires IsParentChain(t, c1, id) && IsParentChain(t, c2, id)
    ensures c1 == c2
    decreases |c1|
  {
    var i, j := |c1| - 1, |c2| - 1;
    assert i > 0 ==> LinkAt(t, c1, i);
    assert j > 0 ==> LinkAt(t, c2, j);
    if i > 0 && j > 0 {
      WalkPrefix(t, c1, i);
      WalkPrefix(t, c2, j);
      ChainUnique(t, c1[..i], c2[..j], c1[i - 1]);
      assert c1 == c1[..i] + [id] && c2 == c2[..j] + [id];
    } else {
      assert c1 == [id] && c2 == [id];
    }
  }

  /** A parent chain never visits a category twice. */
  lemma ChainHasNoRepeats(t: Table, chain: seq<CategoryId>, id: CategoryId)
    requires IsParentChain(t, chain, id)
    ensures forall i, j :: 0 <= i < j < |chain| ==> chain[i] != chain[j]
  {
    forall i, j | 0 <= i < j < |chain|
      ensures chain[i] != chain[j]
    {
      if chain[i] == chain[j] {
        WalkPrefix(t, chain, i + 1);
        WalkPrefix(t, chain, j + 1);
        ChainUnique(t, chain[..i + 1], chain[..j + 1], chain[i]);
      }
    }
  }

  lemma {:induction false} LinkedGivesChain(t: Table, id: CategoryId)
    requires Linked(t) && id in t
    ensures RowAgrees(t, id)
    decreases |t[id].path|
  {
    assert RowLinked(t, id);
    if t[id].parentId.Some? {
      var p := t[id].parentId.value;
      LinkedGivesChain(t, p);
      var path := t[id].path;
      forall i | 0 < i < |path|
        ensures LinkAt(t, path, i)
      {
        assert i < |path| - 1 ==> LinkAt(t, t[p].path, i);
      }
    }
  }

  lemma ChainLinks(t: Table, id: CategoryId)
    requires Agrees(t) && id in t
    ensures RowLinked(t, id)
  {
    assert RowAgrees(t, id);
    var path := t[id].path;
    var i := |path| - 1;
    if i > 0 {
      assert LinkAt(t, path, i);
      var p := path[i - 1];
      assert RowAgrees(t, p);
      WalkPrefix(t, path, i);
      ChainUnique(t, path[..i], t[p].path, p);
      assert path == path[..i] + [id];
    }
  }

  lemma LinkedIffAgrees(t: Table)
    ensures Linked(t) <==> Agrees(t)
  {
    if Linked(t) {
      forall id | id in t ensures RowAgrees(t, id) { LinkedGivesChain(t, id); }
    }
    if Agrees(t) {
      forall id | id in t ensures RowLinked(t, id) { ChainLinks(t, id); }
    }
  }

  /** Reading `path` backwards is the same as walking the parent links. */
  lemma {:induction false} AncestorReadsPath(t: Table, id: CategoryId, k: nat)
    requires Agrees(t) && id in t
    ensures Ancestor(t, id, k) ==
            if k < |t[id].path| then Some(t[id].path[|t[id].path| - 1 - k]) else None
  {
    assert RowAgrees(t, id);
    var path := t[id].path;
    if k > 0 {
      AncestorReadsPath(t, id, k - 1);
      assert k < |path| ==> LinkAt(t, path, |path| - k);
    }
  }

  /** The `path @> ARRAY[root]` query selects exactly the subtree of `root`. */
  lemma SubtreeQueryIsDescendants(t: Table, root: CategoryId, id: CategoryId)
    requires Agrees(t) && id in t
    ensures root in t[id].path <==> Descendant(t, root, id)
  {
    var path := t[id].path;
    if root in path {
      var i :| 0 <= i < |path| && path[i] == root;
      AncestorReadsPath(t, id, |path| - 1 - i);
    }
    if Descendant(t, root, id) {
      var k: nat :| Ancestor(t, id, k) == Some(root);
      AncestorReadsPath(t, id, k);
    }
  }

  /** What an agreeing table promises its readers, row by row. */
  lemma AgreementMeaning(t: Table, id: CategoryId)
    requires Agrees(t) && id in t
    ensures IsParentChain(t, t[id].path, id)
    ensures t[id].path != [] && t[id].path[|t[id].path| - 1] == id && t[id].depth == |t[id].path| - 1
    ensures forall i, j :: 0 <= i < j < |t[id].path| ==> t[id].path[i] != t[id].path[j]
    ensures forall k: nat :: k > 0 ==> Ancestor(t, id, k) != Some(id)
  {
    assert RowAgrees(t, id);
    ChainHasNoRepeats(t, t[id].path, id);
    forall k: nat | k > 0
      ensures Ancestor(t, id, k) != Some(id)
    {
      AncestorReadsPath(t, id, k);
    }
  }

  // ---------------------------------------------------------------- moving a subtree

  /** The path of the parent-to-be; the empty prefix for a root. */
  function Prefix(t: Table, parentId: Option<CategoryId>): seq<CategoryId>
    requires parentId.Some? ==> parentId.value in t
  {
    if parentId.Some? then t[parentId.value].path else []
  }

  /** A slice from `n` that is empty when the list is shorter. */
  function From<T>(s: seq<T>, n: nat): seq<T> {
    if n <= |s| then s[n..] else []
  }

  function Rebased(
    row: Category, isNode: bool, newParentId: Option<CategoryId>, newNodePath: seq<CategoryId>, oldLen: nat): Category
  {
    var path := newNodePath + From(row.path, oldLen);
    row.(path := path, depth := |path| - 1, parentId := if isNode then newParentId else row.parentId)
  }

  function Moved(t: Table, id: CategoryId, newParentId: Option<CategoryId>): (r: Table)
    requires id in t && (newParentId.Some? ==> newParentId.value in t)
    ensures r.Keys == t.Keys
  {
    map m | m in t ::
      if id in t[m].path
      then Rebased(t[m], m == id, newParentId, Prefix(t, newParentId) + [id], |t[id].path|)
      else t[m]
  }

  function MoveResult(t: Table, id: CategoryId, newParentId: Option<CategoryId>): Result<Table, AdminError> {
    if id !in t then Err(NotFound)
    else if newParentId.Some? && newParentId.value !in t then Err(NotFound)
    else if id in Prefix(t, newParentId) then Err(Invalid)
    else Ok(Moved(t, id, newParentId))
  }

  /** The tree as an abstract value: nothing but parent links. */
  function ParentLinks(t: Table): (links: map<CategoryId, Option<CategoryId>>) {
    map id | id in t :: t[id].parentId
  }

  lemma MemberPathExtendsNodePath(t: Table, id: CategoryId, m: CategoryId)
    requires Agrees(t) && id in t && m in t && id in t[m].path
    ensures |t[id].path| <= |t[m].path| && t[m].path == t[id].path + t[m].path[|t[id].path|..]
  {
    assert RowAgrees(t, m) && RowAgrees(t, id);
    var path := t[m].path;
    var i :| 0 <= i < |path| && path[i] == id;
    WalkPrefix(t, path, i + 1);
    ChainUnique(t, path[..i + 1], t[id].path, id);
  }

  /** Below the node itself, a member of its subtree hangs from another member. */
  lemma MemberHangsFromMember(t: Table, id: CategoryId, m: CategoryId)
    requires Agrees(t) && id in t && m in t && RowLinked(t, m) && id in t[m].path && m != id
    ensures t[m].parentId.Some? && id in t[t[m].parentId.value].path
    ensures |t[id].path| <= |t[t[m].parentId.value].path|
  {
    assert t[m].parentId.Some?;
    MemberPathExtendsNodePath(t, id, t[m].parentId.value);
  }

  /** Below the moved node: the row's path and its parent's path are rebased alike. */
  lemma RebasedTailsLink(
    path: seq<CategoryId>, parentPath: seq<CategoryId>, m: CategoryId, head: seq<CategoryId>, oldLen: nat)
    requires path == parentPath + [m] && oldLen <= |parentPath|
    ensures head + From(path, oldLen) == head + From(parentPath, oldLen) + [m]
  {
  }

  lemma MovedRowLinked(t: Table, id: CategoryId, newParentId: Option<CategoryId>, m: CategoryId)
    requires id in t && (newParentId.Some? ==> newParentId.value in t) && id !in Prefix(t, newParentId)
    requires m in t && RowLinked(t, m) && (m == id ==> id in t[m].path)
    requires id in t[m].path && m != id ==>
               t[m].parentId.Some? && id in t[t[m].parentId.value].path
               && |t[id].path| <= |t[t[m].parentId.value].path|
    ensures RowLinked(Moved(t, id, newParentId), m)
  {
    var t' := Moved(t, id, newParentId);
    if m == id {
      assert From(t[m].path, |t[id].path|) == [];
      assert t'[m].path == Prefix(t, newParentId) + [id];
    } else if id in t[m].path {
      var p := t[m].parentId.value;
      RebasedTailsLink(t[m].path, t[p].path, m, Prefix(t, newParentId) + [id], |t[id].path|);
    }
  }

  /** A move re-parents one node and leaves every stored column in agreement. */
  lemma MoveKeepsAgreement(t: Table, id: CategoryId, newParentId: Option<CategoryId>)
    requires Agrees(t) && MoveResult(t, id, newParentId).Ok?
    ensures Agrees(Moved(t, id, newParentId))
    ensures ParentLinks(Moved(t, id, newParentId)) == ParentLinks(t)[id := newParentId]
  {
    LinkedIffAgrees(t);
    assert RowAgrees(t, id);
    forall m | m in t
      ensures RowLinked(Moved(t, id, newParentId), m)
    {
      assert RowLinked(t, m);
      if id in t[m].path && m != id {
        MemberHangsFromMember(t, id, m);
      }
      MovedRowLinked(t, id, newParentId, m);
    }
    LinkedIffAgrees(Moved(t, id, newParentId));
  }

  /** Descendants keep their tail below the node; every other row is untouched. */
  lemma MoveRewritesExactlyTheSubtree(t: Table, id: CategoryId, newParentId: Option<CategoryId>, m: CategoryId)
    requires Agrees(t) && MoveResult(t, id, newParentId).Ok? && m in t
    ensures var t' := Moved(t, id, newParentId);
            if Descendant(t, id, m)
            then exists tail: seq<CategoryId> :: t[m].path == t[id].path + tail
                           && t'[m].path == Prefix(t, newParentId) + [id] + tail
                           && t'[m].depth == |t'[m].path| - 1
                           && t'[m].parentId == (if m == id then newParentId else t[m].parentId)
                           && t'[m].position == t[m].position && t'[m].isActive == t[m].isActive
            else t'[m] == t[m]
  {
    SubtreeQueryIsDescendants(t, id, m);
    if id in t[m].path {
      MemberPathExtendsNodePath(t, id, m);
      var tail := t[m].path[|t[id].path|..];
      assert t[m].path == t[id].path + tail;
      assert Moved(t, id, newParentId)[m].path == Prefix(t, newParentId) + [id] + tail;
    }
  }

  /** Between existing categories a move is refused exactly when the target is inside the moved subtree. */
  lemma MoveRefusedIffUnderOwnSubtree(t: Table, id: CategoryId, newParentId: CategoryId)
    requires Agrees(t) && id in t && newParentId in t
    ensures MoveResult(t, id, Some(newParentId)) == Err(Invalid) <==> Descendant(t, id, newParentId)
    ensures MoveResult(t, id, Some(newParentId)).Ok? <==> !Descendant(t, id, newParentId)
    ensures MoveResult(t, id, None).Ok?
  {
    SubtreeQueryIsDescendants(t, id, newParentId);
  }

  /** The parent links alone fix every path and depth. */
  lemma {:induction false} LinksDeterminePaths(t: Table, u: Table, id: CategoryId)
    requires Agrees(t) && Agrees(u) && ParentLinks(t) == ParentLinks(u) && id in t
    ensures id in u && t[id].path == u[id].path && t[id].depth == u[id].depth
  {
    assert ParentLinks(t).Keys == t.Keys && ParentLinks(u).Keys == u.Keys;
    var path := t[id].path;
    assert RowAgrees(t, id) && RowAgrees(u, id);
    forall m | m in t ensures t[m].parentId == u[m].parentId {
      assert ParentLinks(t)[m] == ParentLinks(u)[m];
    }
    forall i | 0 < i < |path| ensures LinkAt(u, path, i) { assert LinkAt(t, path, i); }
    ChainUnique(u, path, u[id].path, id);
  }

  /** Along a stretch of parent links the stored paths grow by one id a step. */
  lemma {:induction false} PathsGrowAlongLinks(t: Table, walk: seq<CategoryId>)
    requires Linked(t) && IsWalk(t, walk)
    ensures |t[walk[|walk| - 1]].path| == |t[walk[0]].path| + |walk| - 1
  {
    if |walk| > 1 {
      var last := |walk| - 1;
      WalkPrefix(t, walk, last);
      PathsGrowAlongLinks(t, walk[..last]);
      assert RowLinked(t, walk[last]) && LinkAt(t, walk, last);
    }
  }

  /** A walk down the parent links from `walk[0]` never reaches a category that `walk[0]` hangs from. */
  lemma WalkNeverClosesCycle(t: Table, walk: seq<CategoryId>)
    requires Linked(t) && IsWalk(t, walk)
    ensures t[walk[0]].parentId != Some(walk[|walk| - 1])
  {
    PathsGrowAlongLinks(t, walk);
    assert RowLinked(t, walk[0]);
  }

  lemma ReparentedLinks(t: Table, u: Table, id: CategoryId, newParentId: CategoryId)
    requires id in t && ParentLinks(u) == ParentLinks(t)[id := Some(newParentId)]
    ensures t.Keys == u.Keys
    ensures forall m :: m in t ==> u[m].parentId == if m == id then Some(newParentId) else t[m].parentId
  {
    assert u.Keys == ParentLinks(u).Keys == ParentLinks(t).Keys + {id} == t.Keys;
    forall m | m in t
      ensures u[m].parentId == if m == id then Some(newParentId) else t[m].parentId
    {
      assert ParentLinks(u)[m] == u[m].parentId;
    }
  }

  /** The refusal is necessary: those links would close a cycle, so no stored columns could agree with them. */
  lemma RefusedMoveHasNoAgreeingTable(t: Table, id: CategoryId, newParentId: CategoryId, u: Table)
    requires Agrees(t) && id in t && newParentId in t
    requires MoveResult(t, id, Some(newParentId)) == Err(Invalid)
    requires ParentLinks(u) == ParentLinks(t)[id := Some(newParentId)]
    ensures !Agrees(u)
  {
    var path := t[newParentId].path;
    assert RowAgrees(t, newParentId);
    ChainHasNoRepeats(t, path, newParentId);
    var i :| 0 <= i < |path| && path[i] == id;
    var walk := path[i..];
    WalkSuffix(t, path, i);
    ReparentedLinks(t, u, id, newParentId);
    if Linked(u) {
      forall j | 0 < j < |walk| ensures LinkAt(u, walk, j) { assert LinkAt(t, walk, j); }
      WalkNeverClosesCycle(u, walk);
    }
    LinkedIffAgrees(u);
  }

  // ---------------------------------------------------------------- every run of the back office

  /** The category table, the category each product is attached to, and the id sequence. */
  datatype Store = Store(categories: Table, productCategory: map<int, CategoryId>, nextId: CategoryId)

  /** A partial update: `parentId` present means "move", other fields are set when present. */
  datatype CategoryPatch = CategoryPatch(
    parentId: Option<Option<CategoryId>>, position: Option<int>, isActive: Option<bool>)

  datatype Op =
    | Create(parentId: Option<CategoryId>, position: int, isActive: bool)
    | Delete(id: CategoryId)
    | Move(id: CategoryId, newParentId: Option<CategoryId>)
    | Update(id: CategoryId, patch: CategoryPatch)
    | AttachProduct(productId: int, id: CategoryId)
    | DropProduct(productId: int)

  function Patched(row: Category, patch: CategoryPatch): Category {
    row.(position := if patch.position.Some? then patch.position.value else row.position,
         isActive := if patch.isActive.Some? then patch.isActive.value else row.isActive)
  }

  function HasChildren(t: Table, id: CategoryId): bool {
    exists c :: c in t && t[c].parentId == Some(id)
  }

  function HasProducts(productCategory: map<int, CategoryId>, id: CategoryId): bool {
    exists p :: p in productCategory && productCategory[p] == id
  }

  function Apply(s: Store, op: Op): Result<Store, AdminError> {
    match op
    case Create(parentId, position, isActive) =>
      if parentId.Some? && parentId.value !in s.categories then Err(NotFound)
      else
        var prefix := Prefix(s.categories, parentId);
        Ok(s.(categories := s.categories[s.nextId :=
                                         Category(parentId, prefix + [s.nextId], |prefix|, position, isActive)],
              nextId := s.nextId + 1))
    case Delete(id) =>
      if id !in s.categories then Err(NotFound)
      else if HasChildren(s.categories, id) || HasProducts(s.productCategory, id) then Err(Conflict)
      else Ok(s.(categories := s.categories - {id}))
    case Move(id, newParentId) =>
      (match MoveResult(s.categories, id, newParentId)
       case Err(e) => Err(e)
       case Ok(t) => Ok(s.(categories := t)))
    case Update(id, patch) =>
      if id !in s.categories then Err(NotFound)
      else
        (match if patch.parentId.Some? then MoveResult(s.categories, id, patch.parentId.value) else Ok(s.categories)
         case Err(e) => Err(e)
         case Ok(t) => if id in t then Ok(s.(categories := t[id := Patched(t[id], patch)])) else Err(NotFound))
    case AttachProduct(productId, id) =>
      if id !in s.categories then Err(NotFound)
      else Ok(s.(productCategory := s.productCategory[productId := id]))
    case DropProduct(productId) =>
      Ok(s.(productCategory := s.productCategory - {productId}))
  }

  /**
   An update that names a parent is two transactions: the move is committed first, then the
   other fields. Each is a step of its own, so every run covers the moment in between.
   */
  lemma UpdateIsMoveThenFields(s: Store, id: CategoryId, patch: CategoryPatch)
    requires patch.parentId.Some?
    ensures Apply(s, Update(id, patch)) ==
            match Apply(s, Move(id, patch.parentId.value))
            case Err(e) => Err(e)
            case Ok(moved) => Apply(moved, Update(id, patch.(parentId := None)))
  {
  }

  /** A refused operation is rolled back. */
  function Step(s: Store, op: Op): Store {
    match Apply(s, op)
    case Ok(s') => s'
    case Err(_) => s
  }

  function Run(s: Store, ops: seq<Op>): Store
    decreases |ops|
  {
    if ops == [] then s else Run(Step(s, ops[0]), ops[1..])
  }

  ghost predicate Valid(s: Store) {
    && Agrees(s.categories)
    && (forall id :: id in s.categories ==> id < s.nextId)
    && (forall p :: p in s.productCategory ==> s.productCategory[p] in s.categories)
  }

  lemma CreateKeepsAgreement(t: Table, id: CategoryId, parentId: Option<CategoryId>, position: int, isActive: bool)
    requires Agrees(t) && id !in t && (parentId.Some? ==> parentId.value in t)
    ensures Agrees(t[id := Category(parentId, Prefix(t, parentId) + [id], |Prefix(t, parentId)|, position, isActive)])
  {
    var t' := t[id := Category(parentId, Prefix(t, parentId) + [id], |Prefix(t, parentId)|, position, isActive)];
    LinkedIffAgrees(t);
    forall m | m in t' ensures RowLinked(t', m) {
      assert m in t ==> RowLinked(t, m);
    }
    LinkedIffAgrees(t');
  }

  lemma DeleteKeepsAgreement(t: Table, id: CategoryId)
    requires Agrees(t) && id in t && !HasChildren(t, id)
    ensures Agrees(t - {id})
  {
    LinkedIffAgrees(t);
    forall m | m in t - {id} ensures RowLinked(t - {id}, m) {
      assert RowLinked(t, m);
    }
    LinkedIffAgrees(t - {id});
  }

  lemma PatchKeepsAgreement(t: Table, id: CategoryId, patch: CategoryPatch)
    requires Agrees(t) && id in t
    ensures Agrees(t[id := Patched(t[id], patch)])
  {
    var t' := t[id := Patched(t[id], patch)];
    LinkedIffAgrees(t);
    forall m | m in t' ensures RowLinked(t', m) {
      assert RowLinked(t, m);
    }
    LinkedIffAgrees(t');
  }

  lemma StepKeepsValid(s: Store, op: Op)
    requires Valid(s)
    ensures Valid(Step(s, op))
  {
    if Apply(s, op).Ok? {
      match op
      case Create(parentId, position, isActive) =>
        CreateKeepsAgreement(s.categories, s.nextId, parentId, position, isActive);
      case Delete(id) =>
        DeleteKeepsAgreement(s.categories, id);
        forall p | p in s.productCategory ensures s.productCategory[p] != id {
          assert s.productCategory[p] in s.categories;
        }
      case Move(id, newParentId) =>
        MoveKeepsAgreement(s.categories, id, newParentId);
      case Update(id, patch) =>
        if patch.parentId.Some? {
          MoveKeepsAgreement(s.categories, id, patch.parentId.value);
        }
        PatchKeepsAgreement(
          if patch.parentId.Some? then Moved(s.categories, id, patch.parentId.value) else s.categories, id, patch);
      case AttachProduct(_, _) =>
      case DropProduct(_) =>
    }
  }

  /** From any agreeing store, however many operations follow, the store agrees. */
  lemma {:induction false} RunKeepsValid(s: Store, ops: seq<Op>)
    requires Valid(s)
    ensures Valid(Run(s, ops))
    decreases |ops|
  {
    if ops != [] {
      StepKeepsValid(s, ops[0]);
      RunKeepsValid(Step(s, ops[0]), ops[1..]);
    }
  }

  /** The whole history of a shop: it starts with no categories and no products. */
  lemma EveryHistoryAgrees(ops: seq<Op>, firstId: CategoryId, id: CategoryId)
    requires id in Run(Store(map[], map[], firstId), ops).categories
    ensures var t := Run(Store(map[], map[], firstId), ops).categories;
            && IsParentChain(t, t[id].path, id) && t[id].depth == |t[id].path| - 1
            && (forall i, j :: 0 <= i < j < |t[id].path| ==> t[id].path[i] != t[id].path[j])
            && (forall k: nat :: k > 0 ==> Ancestor(t, id, k) != Some(id))
  {
    var s := Store(map[], map[], firstId);
    RunKeepsValid(s, ops);
    AgreementMeaning(Run(s, ops).categories, id);
  }

  // ---------------------------------------------------------------- what each operation stores and refuses

  /** A new category hangs where it was asked to, with the position and visibility given; no other row changes. */
  lemma CreatedCategory(s: Store, parentId: Option<CategoryId>, position: int, isActive: bool)
    ensures Apply(s, Create(parentId, position, isActive)).Ok? <==> parentId.None? || parentId.value in s.categories
    ensures Apply(s, Create(parentId, position, isActive)).Ok? ==>
              var after, id := Apply(s, Create(parentId, position, isActive)).value, s.nextId;
              && after.nextId == id + 1 && after.productCategory == s.productCategory
              && id in after.categories && after.categories == s.categories[id := after.categories[id]]
              && after.categories[id].parentId == parentId
              && after.categories[id].position == position && after.categories[id].isActive == isActive
  {
  }

  /**
   A move is refused for a missing category or parent, and for a parent that is the node itself or
   below it; no row's position or visibility changes.
   */
  lemma MovedCategory(s: Store, id: CategoryId, newParentId: Option<CategoryId>)
    requires Agrees(s.categories)
    ensures var missing := id !in s.categories || (newParentId.Some? && newParentId.value !in s.categories);
            var under := newParentId.Some? && Descendant(s.categories, id, newParentId.value);
            && (Apply(s, Move(id, newParentId)) == Err(NotFound) <==> missing)
            && (Apply(s, Move(id, newParentId)) == Err(Invalid) <==> !missing && under)
            && (Apply(s, Move(id, newParentId)).Ok? <==> !missing && !under)
    ensures Apply(s, Move(id, newParentId)).Ok? ==>
              var after := Apply(s, Move(id, newParentId)).value;
              && after.nextId == s.nextId && after.productCategory == s.productCategory
              && after.categories.Keys == s.categories.Keys
              && forall m :: m in s.categories ==>
                   && after.categories[m].position == s.categories[m].position
                   && after.categories[m].isActive == s.categories[m].isActive
  {
    if id in s.categories && newParentId.Some? && newParentId.value in s.categories {
      MoveRefusedIffUnderOwnSubtree(s.categories, id, newParentId.value);
    }
  }

  /**
   Deleting is refused for a missing category, one that another hangs from, and one with
   products; otherwise only it goes.
   */
  lemma DeletedCategory(s: Store, id: CategoryId)
    ensures Apply(s, Delete(id)).Ok? <==>
              && id in s.categories
              && (forall c :: c in s.categories ==> s.categories[c].parentId != Some(id))
              && forall p :: p in s.productCategory ==> s.productCategory[p] != id
    ensures Apply(s, Delete(id)).Ok? ==> Apply(s, Delete(id)).value == s.(categories := s.categories - {id})
  {
  }

  /**
   A field that is given is stored, one that is not keeps its value; without a parent in the
   patch nothing else changes.
   */
  lemma UpdatedCategory(s: Store, id: CategoryId, patch: CategoryPatch)
    requires Apply(s, Update(id, patch)).Ok?
    ensures id in s.categories
    ensures var after := Apply(s, Update(id, patch)).value;
            && id in after.categories
            && after.nextId == s.nextId && after.productCategory == s.productCategory
            && var old_, now := s.categories[id], after.categories[id];
               && now.position == (if patch.position.Some? then patch.position.value else old_.position)
               && now.isActive == (if patch.isActive.Some? then patch.isActive.value else old_.isActive)
               && (patch.parentId.None? ==>
                     && now.parentId == old_.parentId && now.path == old_.path && now.depth == old_.depth
                     && after.categories == s.categories[id := now])
               && (patch.parentId.Some? && Agrees(s.categories) ==> now.parentId == patch.parentId.value)
  {
    if patch.parentId.Some? && Agrees(s.categories) {
      assert RowAgrees(s.categories, id);
    }
  }
}
