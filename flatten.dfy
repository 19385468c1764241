/** `flattenTreeData`: the nested seed turned into the id -> node map. */
module Flatten {
  import opened TreeTypes
  import opened TreeShape

  /** `children.map(c => c.id)`. */
  function ChildIds(cs: seq<TreeNodeData>): (r: seq<string>)
    ensures |r| == |cs| && forall i :: 0 <= i < |cs| ==> r[i] == cs[i].id
  {
    seq(|cs|, i requires 0 <= i < |cs| => cs[i].id)
  }

  /** The flat record of one seed node; an unspecified `isExpanded` means expanded. */
  function Record(data: TreeNodeData, parentId: Option<string>, depth: nat): (r: TreeNode)
    ensures r.id == data.id && r.labelText == data.labelText && r.parentId == parentId && r.depth == depth
    ensures |r.childrenIds| == |data.children|
    ensures r.isExpanded <==> data.isExpanded != Some(false)
  {
    TreeNode(data.id, data.labelText, ChildIds(data.children), parentId,
      if data.isExpanded.Some? then data.isExpanded.value else true, depth)
  }

  /** `other.forEach((v, k) => acc.set(k, v))`, from the `j`-th key of `other` on. */
  function MergeFrom(acc: NodeMap, other: NodeMap, j: nat): (r: NodeMap)
    requires other.Valid() && j <= |other.keys|
    ensures acc.Valid() ==> r.Valid()
    decreases |other.keys| - j
  {
    if j == |other.keys| then acc
    else MergeFrom(acc.Set(other.keys[j], other.entries[other.keys[j]]), other, j + 1)
  }

  /** The map `flattenTreeData(data, parentId, depth)` returns. */
  function Flatten(data: TreeNodeData, parentId: Option<string>, depth: nat): (r: NodeMap)
    ensures r.Valid()
    decreases data, 1, 0
  {
    FlattenChildren(EmptyMap.Set(data.id, Record(data, parentId, depth)), data, depth, 0)
  }

  /** The `children.forEach` of `flattenTreeData`, from the `i`-th child on. */
  function FlattenChildren(acc: NodeMap, data: TreeNodeData, depth: nat, i: nat): (r: NodeMap)
    requires acc.Valid() && i <= |data.children|
    ensures r.Valid()
    decreases data, 0, |data.children| - i
  {
    if i == |data.children| then acc
    else FlattenChildren(MergeFrom(acc, Flatten(data.children[i], Some(data.id), depth + 1), 0), data, depth, i + 1)
  }

  /** The recursion with its `children.forEach` loop, proved to build `Flatten`. */
  method FlattenTreeData(data: TreeNodeData, parentId: Option<string>, depth: nat) returns (m: NodeMap)
    ensures m == Flatten(data, parentId, depth)
    decreases data, 1
  {
    m := EmptyMap.Set(data.id, Record(data, parentId, depth));
    FlattenStart(data, parentId, depth);
    var i := 0;
    while i < |data.children|
      invariant i <= |data.children| && m.Valid()
      invariant FlattenChildren(m, data, depth, i) == Flatten(data, parentId, depth)
    {
      m := AddChild(m, data, depth, i);
      i := i + 1;
    }
    FlattenChildrenDone(m, data, depth);
  }

  /** One turn of the `forEach`: flatten the `i`-th child and copy its entries in. */
  method AddChild(acc: NodeMap, data: TreeNodeData, depth: nat, i: nat) returns (m: NodeMap)
    requires acc.Valid() && i < |data.children|
    ensures m.Valid()
    ensures FlattenChildren(m, data, depth, i + 1) == FlattenChildren(acc, data, depth, i)
    decreases data, 0
  {
    var childMap := FlattenTreeData(data.children[i], Some(data.id), depth + 1);
    FlattenChildrenStep(acc, data, depth, i);
    m := MergeInto(acc, childMap);
  }

  lemma FlattenStart(data: TreeNodeData, parentId: Option<string>, depth: nat)
    ensures EmptyMap.Set(data.id, Record(data, parentId, depth)).Valid()
    ensures Flatten(data, parentId, depth) == FlattenChildren(EmptyMap.Set(data.id, Record(data, parentId, depth)), data, depth, 0)
  {
  }

  lemma FlattenChildrenDone(acc: NodeMap, data: TreeNodeData, depth: nat)
    requires acc.Valid()
    ensures FlattenChildren(acc, data, depth, |data.children|) == acc
  {
  }

  lemma FlattenChildrenStep(acc: NodeMap, data: TreeNodeData, depth: nat, i: nat)
    requires acc.Valid() && i < |data.children|
    ensures FlattenChildren(acc, data, depth, i)
      == FlattenChildren(MergeFrom(acc, Flatten(data.children[i], Some(data.id), depth + 1), 0), data, depth, i + 1)
  {
  }

  /** `childMap.forEach((v, k) => map.set(k, v))`, proved to compute `MergeFrom`. */
  method MergeInto(acc: NodeMap, other: NodeMap) returns (m: NodeMap)
    requires other.Valid()
    ensures m == MergeFrom(acc, other, 0)
  {
    m := acc;
    var j := 0;
    while j < |other.keys|
      invariant j <= |other.keys|
      invariant MergeFrom(m, other, j) == MergeFrom(acc, other, 0)
    {
      other.KeyPresent(j);
      m := m.Set(other.keys[j], other.entries[other.keys[j]]);
      j := j + 1;
    }
  }

  /**
   * Reference definition: the records of the seed in pre-order, each with the
   * parent id and depth of its position.
   */
  function RecordsOf(data: TreeNodeData, parentId: Option<string>, depth: nat): (r: seq<TreeNode>)
    ensures r != [] && r[0] == Record(data, parentId, depth)
    decreases data, 1, 0
  {
    [Record(data, parentId, depth)] + RecordsFrom(data, depth, 0)
  }

  /** The records of the subtrees of the children of `data` from the `i`-th on. */
  function RecordsFrom(data: TreeNodeData, depth: nat, i: nat): (r: seq<TreeNode>)
    requires i <= |data.children|
    decreases data, 0, |data.children| - i
  {
    if i == |data.children| then []
    else RecordsOf(data.children[i], Some(data.id), depth + 1) + RecordsFrom(data, depth, i + 1)
  }

  function Ids(rs: seq<TreeNode>): (r: seq<string>)
    ensures |r| == |rs| && forall i :: 0 <= i < |rs| ==> r[i] == rs[i].id
  {
    if rs == [] then [] else [rs[0].id] + Ids(rs[1..])
  }

  /** Every id of the seed, in pre-order. */
  function SeedIds(data: TreeNodeData): seq<string>
  {
    Ids(RecordsOf(data, None, 0))
  }

  /** `set` of each record under its id, in order. */
  function SetAll(acc: NodeMap, rs: seq<TreeNode>): (r: NodeMap)
    decreases |rs|
  {
    if rs == [] then acc else SetAll(acc.Set(rs[0].id, rs[0]), rs[1..])
  }

  lemma {:induction false} SetAllConcat(acc: NodeMap, a: seq<TreeNode>, b: seq<TreeNode>)
    ensures SetAll(SetAll(acc, a), b) == SetAll(acc, a + b)
    decreases |a|
  {
    if a == [] {
      assert a + b == b;
    } else {
      var next := acc.Set(a[0].id, a[0]);
      SetAllConcat(next, a[1..], b);
      TailConcat(a, b);
      calc {
        SetAll(acc, a + b);
        { SetAllStep(acc, a + b); }
        SetAll(next, a[1..] + b);
        SetAll(SetAll(next, a[1..]), b);
        { SetAllStep(acc, a); }
        SetAll(SetAll(acc, a), b);
      }
    }
  }

  lemma SetAllStep(acc: NodeMap, rs: seq<TreeNode>)
    requires rs != []
    ensures SetAll(acc, rs) == SetAll(acc.Set(rs[0].id, rs[0]), rs[1..])
  {
  }

  lemma TailConcat<T>(a: seq<T>, b: seq<T>)
    requires a != []
    ensures (a + b)[0] == a[0] && (a + b)[1..] == a[1..] + b
  {
  }

  lemma DropOne<T>(s: seq<T>, i: nat)
    requires i < |s|
    ensures s[i..] == [s[i]] + s[i + 1..]
  {
  }

  /** Setting records with fresh, distinct ids appends their ids to the order. */
  lemma {:induction false} SetAllKeys(acc: NodeMap, rs: seq<TreeNode>)
    requires Distinct(Ids(rs))
    requires forall i :: 0 <= i < |rs| ==> rs[i].id !in acc.entries
    ensures SetAll(acc, rs).keys == acc.keys + Ids(rs)
    decreases |rs|
  {
    if rs == [] {
      assert acc.keys + Ids(rs) == acc.keys;
    } else {
      var tail := rs[1..];
      var acc' := acc.Set(rs[0].id, rs[0]);
      DistinctSplit([rs[0].id], Ids(tail));
      forall i | 0 <= i < |tail|
        ensures tail[i].id !in acc'.entries
      {
        assert tail[i].id == Ids(tail)[i];
      }
      SetAllKeys(acc', tail);
      assert SetAll(acc, rs).keys == (acc.keys + [rs[0].id]) + Ids(tail);
      ConcatAssoc(acc.keys, [rs[0].id], Ids(tail));
    }
  }

  /** Setting records with distinct ids stores each under its id and keeps the rest. */
  lemma {:induction false} SetAllEntries(acc: NodeMap, rs: seq<TreeNode>)
    requires Distinct(Ids(rs))
    ensures var r := SetAll(acc, rs);
      && (forall k :: k in r.entries <==> k in acc.entries || k in Ids(rs))
      && (forall k :: k in acc.entries && k !in Ids(rs) ==> r.entries[k] == acc.entries[k])
      && (forall i :: 0 <= i < |rs| ==> rs[i].id in r.entries && r.entries[rs[i].id] == rs[i])
    decreases |rs|
  {
    if rs != [] {
      var tail := rs[1..];
      var acc' := acc.Set(rs[0].id, rs[0]);
      DistinctSplit([rs[0].id], Ids(tail));
      SetAllEntries(acc', tail);
      var r := SetAll(acc, rs);
      assert r == SetAll(acc', tail);
      forall i | 0 <= i < |rs|
        ensures rs[i].id in r.entries && r.entries[rs[i].id] == rs[i]
      {
        if i > 0 {
          assert rs[i] == tail[i - 1];
        }
      }
    }
  }

  /** A table of records with distinct ids: their ids in order, each record under its id. */
  lemma {:induction false} SetAllTable(rs: seq<TreeNode>)
    requires Distinct(Ids(rs))
    ensures var r := SetAll(EmptyMap, rs);
      && r.Valid()
      && r.keys == Ids(rs)
      && (forall k :: k in r.entries <==> k in Ids(rs))
      && (forall i :: 0 <= i < |rs| ==> rs[i].id in r.entries && r.entries[rs[i].id] == rs[i])
  {
    assert EmptyMap.Valid();
    SetAllKeys(EmptyMap, rs);
    assert EmptyMap.keys + Ids(rs) == Ids(rs);
    SetAllEntries(EmptyMap, rs);
  }

  /** Merging a table built from distinct records is setting those records one by one. */
  lemma {:induction false} MergeTable(acc: NodeMap, rs: seq<TreeNode>, j: nat)
    requires Distinct(Ids(rs)) && j <= |rs|
    ensures SetAll(EmptyMap, rs).Valid() && j <= |SetAll(EmptyMap, rs).keys|
    ensures MergeFrom(acc, SetAll(EmptyMap, rs), j) == SetAll(acc, rs[j..])
    decreases |rs| - j
  {
    SetAllTable(rs);
    var t := SetAll(EmptyMap, rs);
    assert t.keys == Ids(rs);
    if j < |rs| {
      MergeTable(acc.Set(rs[j].id, rs[j]), rs, j + 1);
      assert rs[j..][1..] == rs[j + 1..];
    }
  }

  lemma DistinctSplit<T>(s: seq<T>, t: seq<T>)
    requires Distinct(s + t)
    ensures Distinct(s) && Distinct(t) && forall x :: x in s ==> x !in t
  {
    forall i, j | 0 <= i < j < |s|
      ensures s[i] != s[j]
    {
      assert s[i] == (s + t)[i] && s[j] == (s + t)[j];
    }
    forall i, j | 0 <= i < j < |t|
      ensures t[i] != t[j]
    {
      assert t[i] == (s + t)[|s| + i] && t[j] == (s + t)[|s| + j];
    }
    forall x | x in s
      ensures x !in t
    {
      var i :| 0 <= i < |s| && s[i] == x;
      forall j | 0 <= j < |t|
        ensures t[j] != x
      {
        assert (s + t)[i] != (s + t)[|s| + j];
      }
    }
  }

  lemma IdsConcat(a: seq<TreeNode>, b: seq<TreeNode>)
    ensures Ids(a + b) == Ids(a) + Ids(b)
  {
  }

  /** With distinct ids, flattening is setting the pre-order records into an empty map. */
  lemma {:induction false} FlattenIsTable(data: TreeNodeData, parentId: Option<string>, depth: nat)
    requires Distinct(Ids(RecordsOf(data, parentId, depth)))
    ensures Flatten(data, parentId, depth) == SetAll(EmptyMap, RecordsOf(data, parentId, depth))
    decreases data, 1
  {
    var rec := Record(data, parentId, depth);
    IdsConcat([rec], RecordsFrom(data, depth, 0));
    DistinctSplit(Ids([rec]), Ids(RecordsFrom(data, depth, 0)));
    FlattenChildrenIsTable(EmptyMap.Set(data.id, rec), data, depth, 0);
    SetAllConcat(EmptyMap, [rec], RecordsFrom(data, depth, 0));
  }

  lemma {:induction false} FlattenChildrenIsTable(acc: NodeMap, data: TreeNodeData, depth: nat, i: nat)
    requires acc.Valid() && i <= |data.children|
    requires Distinct(Ids(RecordsFrom(data, depth, i)))
    ensures FlattenChildren(acc, data, depth, i) == SetAll(acc, RecordsFrom(data, depth, i))
    decreases data, 0, |data.children| - i
  {
    if i < |data.children| {
      var c := RecordsOf(data.children[i], Some(data.id), depth + 1);
      var rest := RecordsFrom(data, depth, i + 1);
      IdsConcat(c, rest);
      DistinctSplit(Ids(c), Ids(rest));
      FlattenIsTable(data.children[i], Some(data.id), depth + 1);
      MergeTable(acc, c, 0);
      assert c[0..] == c;
      FlattenChildrenIsTable(SetAll(acc, c), data, depth, i + 1);
      SetAllConcat(acc, c, rest);
    }
  }

  lemma {:induction false} IdsHas(rs: seq<TreeNode>, x: TreeNode)
    requires x in rs
    ensures x.id in Ids(rs)
  {
    var i :| 0 <= i < |rs| && rs[i] == x;
    assert Ids(rs)[i] == x.id;
  }

  /** Some record of `rs` lists `r` as a child and sits one level above it. */
  ghost predicate HasLister(rs: seq<TreeNode>, r: TreeNode)
    requires r.parentId.Some?
  {
    exists q :: q in rs && q.id == r.parentId.value && r.id in q.childrenIds && r.depth == q.depth + 1
  }

  /** Some record of `rs` has id `c` and names `x` as its parent. */
  ghost predicate HasChildRecord(rs: seq<TreeNode>, x: TreeNode, c: string)
  {
    exists y :: y in rs && y.id == c && y.parentId == Some(x.id)
  }

  lemma HasListerWider(a: seq<TreeNode>, b: seq<TreeNode>, r: TreeNode)
    requires r.parentId.Some? && HasLister(a, r) && forall q :: q in a ==> q in b
    ensures HasLister(b, r)
  {
    var q :| q in a && q.id == r.parentId.value && r.id in q.childrenIds && r.depth == q.depth + 1;
    assert q in b;
  }

  lemma HasChildRecordWider(a: seq<TreeNode>, b: seq<TreeNode>, x: TreeNode, c: string)
    requires HasChildRecord(a, x, c) && forall q :: q in a ==> q in b
    ensures HasChildRecord(b, x, c)
  {
    var y :| y in a && y.id == c && y.parentId == Some(x.id);
    assert y in b;
  }

  /**
   * Every record after the first has a parent among the records that lists it
   * and sits one level above it; all of them are deeper than the first.
   */
  lemma {:induction false} RecordsLinked(data: TreeNodeData, parentId: Option<string>, depth: nat)
    ensures forall i :: 1 <= i < |RecordsOf(data, parentId, depth)| ==>
      var r := RecordsOf(data, parentId, depth)[i];
      r.parentId.Some? && r.depth > depth && HasLister(RecordsOf(data, parentId, depth), r)
    decreases data, 1
  {
    var rs := RecordsOf(data, parentId, depth);
    var below := RecordsFrom(data, depth, 0);
    RecordsFromLinked(data, depth, 0);
    forall i | 1 <= i < |rs|
      ensures rs[i].parentId.Some? && rs[i].depth > depth && HasLister(rs, rs[i])
    {
      var r := rs[i];
      assert r == below[i - 1];
      if r.parentId == Some(data.id) && r.depth == depth + 1 && r.id in ChildIds(data.children) {
        assert rs[0] in rs;
      } else {
        HasListerWider(below, rs, r);
      }
    }
  }

  lemma {:induction false} RecordsFromLinked(data: TreeNodeData, depth: nat, i: nat)
    requires i <= |data.children|
    ensures forall j :: 0 <= j < |RecordsFrom(data, depth, i)| ==>
      var r := RecordsFrom(data, depth, i)[j];
      && r.parentId.Some? && r.depth > depth
      && ((r.parentId == Some(data.id) && r.depth == depth + 1 && r.id in ChildIds(data.children))
          || HasLister(RecordsFrom(data, depth, i), r))
    decreases data, 0, |data.children| - i
  {
    if i < |data.children| {
      var child := data.children[i];
      var sub := RecordsOf(child, Some(data.id), depth + 1);
      var rest := RecordsFrom(data, depth, i + 1);
      RecordsLinked(child, Some(data.id), depth + 1);
      RecordsFromLinked(data, depth, i + 1);
      var rs := RecordsFrom(data, depth, i);
      assert rs == sub + rest;
      forall j | 0 <= j < |rs|
        ensures rs[j].parentId.Some? && rs[j].depth > depth
        ensures (rs[j].parentId == Some(data.id) && rs[j].depth == depth + 1 && rs[j].id in ChildIds(data.children))
            || HasLister(rs, rs[j])
      {
        if j == 0 {
          assert rs[0] == Record(child, Some(data.id), depth + 1);
          assert ChildIds(data.children)[i] == child.id;
        } else if j < |sub| {
          assert rs[j] == sub[j];
          HasListerWider(sub, rs, sub[j]);
        } else {
          var r := rest[j - |sub|];
          assert rs[j] == r;
          if !(r.parentId == Some(data.id) && r.depth == depth + 1 && r.id in ChildIds(data.children)) {
            HasListerWider(rest, rs, r);
          }
        }
      }
    }
  }

  /** Every child id listed by a record belongs to a record naming that record as parent. */
  lemma {:induction false} RecordsChildren(data: TreeNodeData, parentId: Option<string>, depth: nat)
    ensures forall x, c :: x in RecordsOf(data, parentId, depth) && c in x.childrenIds ==>
      HasChildRecord(RecordsOf(data, parentId, depth), x, c)
    decreases data, 1
  {
    var rs := RecordsOf(data, parentId, depth);
    var below := RecordsFrom(data, depth, 0);
    RecordsFromChildren(data, depth, 0);
    forall x, c | x in rs && c in x.childrenIds
      ensures HasChildRecord(rs, x, c)
    {
      if x in below {
        HasChildRecordWider(below, rs, x, c);
      } else {
        assert x == rs[0];
        var q :| 0 <= q < |data.children| && ChildIds(data.children)[q] == c;
        assert HasChildRecord(below, rs[0], data.children[q].id);
        HasChildRecordWider(below, rs, x, c);
      }
    }
  }

  lemma {:induction false} RecordsFromChildren(data: TreeNodeData, depth: nat, i: nat)
    requires i <= |data.children|
    ensures forall x, c :: x in RecordsFrom(data, depth, i) && c in x.childrenIds ==>
      HasChildRecord(RecordsFrom(data, depth, i), x, c)
    ensures forall q :: i <= q < |data.children| ==>
      exists y :: y in RecordsFrom(data, depth, i) && y.id == data.children[q].id && y.parentId == Some(data.id)
    decreases data, 0, |data.children| - i
  {
    if i < |data.children| {
      var child := data.children[i];
      var sub := RecordsOf(child, Some(data.id), depth + 1);
      var rest := RecordsFrom(data, depth, i + 1);
      RecordsChildren(child, Some(data.id), depth + 1);
      RecordsFromChildren(data, depth, i + 1);
      var rs := RecordsFrom(data, depth, i);
      assert rs == sub + rest;
      forall x, c | x in rs && c in x.childrenIds
        ensures HasChildRecord(rs, x, c)
      {
        if x in sub {
          HasChildRecordWider(sub, rs, x, c);
        } else {
          HasChildRecordWider(rest, rs, x, c);
        }
      }
      forall q | i <= q < |data.children|
        ensures exists y :: y in rs && y.id == data.children[q].id && y.parentId == Some(data.id)
      {
        if q == i {
          assert sub[0] in rs;
        } else {
          var y :| y in rest && y.id == data.children[q].id && y.parentId == Some(data.id);
          assert y in rs;
        }
      }
    }
  }

  /** With distinct ids, every record's children list is duplicate-free. */
  lemma {:induction false} RecordsChildrenDistinct(data: TreeNodeData, parentId: Option<string>, depth: nat)
    requires Distinct(Ids(RecordsOf(data, parentId, depth)))
    ensures forall x :: x in RecordsOf(data, parentId, depth) ==> Distinct(x.childrenIds)
    decreases data, 1
  {
    var rs := RecordsOf(data, parentId, depth);
    var below := RecordsFrom(data, depth, 0);
    IdsConcat([rs[0]], below);
    DistinctSplit(Ids([rs[0]]), Ids(below));
    RecordsFromChildrenDistinct(data, depth, 0);
    ChildIdsDistinct(data, depth, 0);
    assert ChildIds(data.children)[0..] == rs[0].childrenIds;
  }

  lemma {:induction false} RecordsFromChildrenDistinct(data: TreeNodeData, depth: nat, i: nat)
    requires i <= |data.children|
    requires Distinct(Ids(RecordsFrom(data, depth, i)))
    ensures forall x :: x in RecordsFrom(data, depth, i) ==> Distinct(x.childrenIds)
    decreases data, 0, |data.children| - i
  {
    if i < |data.children| {
      var child := data.children[i];
      var sub := RecordsOf(child, Some(data.id), depth + 1);
      var rest := RecordsFrom(data, depth, i + 1);
      assert RecordsFrom(data, depth, i) == sub + rest;
      IdsConcat(sub, rest);
      DistinctSplit(Ids(sub), Ids(rest));
      RecordsChildrenDistinct(child, Some(data.id), depth + 1);
      RecordsFromChildrenDistinct(data, depth, i + 1);
    }
  }

  /** With distinct ids below a node, the node's children ids from the `i`-th on are distinct. */
  lemma {:induction false} ChildIdsDistinct(data: TreeNodeData, depth: nat, i: nat)
    requires i <= |data.children|
    requires Distinct(Ids(RecordsFrom(data, depth, i)))
    ensures Distinct(ChildIds(data.children)[i..])
    decreases |data.children| - i
  {
    if i < |data.children| {
      var child := data.children[i];
      var sub := RecordsOf(child, Some(data.id), depth + 1);
      var rest := RecordsFrom(data, depth, i + 1);
      IdsConcat(sub, rest);
      DistinctSplit(Ids(sub), Ids(rest));
      ChildIdsDistinct(data, depth, i + 1);
      ChildIdsListed(data, depth, i + 1);
      var later := ChildIds(data.children)[i + 1..];
      DropOne(ChildIds(data.children), i);
      assert Ids(sub)[0] == child.id;
      DistinctConcat([child.id], later);
    }
  }

  /** The ids of the children from the `i`-th on are among the ids their subtrees contribute. */
  lemma {:induction false} ChildIdsListed(data: TreeNodeData, depth: nat, i: nat)
    requires i <= |data.children|
    ensures forall x :: x in ChildIds(data.children)[i..] ==> x in Ids(RecordsFrom(data, depth, i))
    decreases |data.children| - i
  {
    if i < |data.children| {
      var sub := RecordsOf(data.children[i], Some(data.id), depth + 1);
      var rest := RecordsFrom(data, depth, i + 1);
      IdsConcat(sub, rest);
      ChildIdsListed(data, depth, i + 1);
      assert Ids(sub)[0] == data.children[i].id;
      DropOne(ChildIds(data.children), i);
    }
  }

  /**
   * With distinct ids, the map lists the seed's ids in pre-order and stores under
   * each id the record of that node: its own label and child ids, the id of the
   * node it hangs from, its depth, and `isExpanded` defaulting to true.
   */
  lemma FlattenContents(data: TreeNodeData, parentId: Option<string>, depth: nat)
    requires Distinct(Ids(RecordsOf(data, parentId, depth)))
    ensures var m := Flatten(data, parentId, depth);
      var rs := RecordsOf(data, parentId, depth);
      && m.keys == Ids(rs)
      && (forall k :: k in m.entries <==> k in Ids(rs))
      && (forall i :: 0 <= i < |rs| ==> rs[i].id in m.entries && m.entries[rs[i].id] == rs[i])
      && data.id in m.entries && m.entries[data.id] == Record(data, parentId, depth)
  {
    FlattenIsTable(data, parentId, depth);
    SetAllTable(RecordsOf(data, parentId, depth));
  }

  /** The seed the store can be built from: ids are unique and non-empty. */
  ghost predicate ValidSeed(data: TreeNodeData)
  {
    Distinct(SeedIds(data)) && "" !in SeedIds(data)
  }

  /** `m` stores exactly the records `rs`, each under its id. */
  ghost predicate IsTable(m: NodeMap, rs: seq<TreeNode>)
  {
    && (forall k :: k in m.entries <==> k in Ids(rs))
    && (forall i :: 0 <= i < |rs| ==> rs[i].id in m.entries && m.entries[rs[i].id] == rs[i])
  }

  lemma {:induction false} TableRecord(m: NodeMap, rs: seq<TreeNode>, k: string) returns (i: nat)
    requires IsTable(m, rs) && k in m.entries
    ensures i < |rs| && rs[i].id == k && m.entries[k] == rs[i]
  {
    i :| 0 <= i < |rs| && Ids(rs)[i] == k;
  }

  lemma {:induction false} TableLocal(m: NodeMap, rs: seq<TreeNode>)
    requires IsTable(m, rs)
    requires forall x :: x in rs ==> Distinct(x.childrenIds)
    requires forall x, c :: x in rs && c in x.childrenIds ==> HasChildRecord(rs, x, c)
    ensures IdsAreKeys(m) && ChildrenDistinct(m) && ChildrenPresent(m)
  {
    forall k | k in m.entries
      ensures m.entries[k].id == k && Distinct(m.entries[k].childrenIds)
    {
      var i := TableRecord(m, rs, k);
      assert rs[i] in rs;
    }
    forall k, c | k in m.entries && c in m.entries[k].childrenIds
      ensures c in m.entries && m.entries[c].parentId == Some(k)
    {
      var i := TableRecord(m, rs, k);
      assert rs[i] in rs;
      var y :| y in rs && y.id == c && y.parentId == Some(rs[i].id);
      var j :| 0 <= j < |rs| && rs[j] == y;
    }
  }

  lemma {:induction false} TableLinked(m: NodeMap, rs: seq<TreeNode>)
    requires IsTable(m, rs) && rs != [] && rs[0].parentId.None? && rs[0].depth == 0
    requires forall i :: 1 <= i < |rs| ==> rs[i].parentId.Some? && HasLister(rs, rs[i])
    ensures ParentsLinked(m) && SingleRoot(m) && IsRoot(m, rs[0].id)
  {
    forall k | k in m.entries && m.entries[k].parentId.Some?
      ensures ParentLink(m, k)
    {
      var i := TableRecord(m, rs, k);
      assert i != 0;
      var q :| q in rs && q.id == rs[i].parentId.value && rs[i].id in q.childrenIds && rs[i].depth == q.depth + 1;
      var j :| 0 <= j < |rs| && rs[j] == q;
    }
    assert IsRoot(m, rs[0].id);
    forall r | IsRoot(m, r)
      ensures r == rs[0].id
    {
      var i := TableRecord(m, rs, r);
    }
  }

  /** Flattening a valid seed from the top yields a well-formed store rooted at the seed's id. */
  lemma {:induction false} FlattenWellFormed(data: TreeNodeData)
    requires ValidSeed(data)
    ensures WellFormed(Flatten(data, None, 0))
    ensures IsRoot(Flatten(data, None, 0), data.id)
  {
    var rs := RecordsOf(data, None, 0);
    var m := Flatten(data, None, 0);
    FlattenContents(data, None, 0);
    assert IsTable(m, rs);
    RecordsChildren(data, None, 0);
    RecordsChildrenDistinct(data, None, 0);
    TableLocal(m, rs);
    RecordsLinked(data, None, 0);
    TableLinked(m, rs);
    assert "" !in m.entries;
  }

  /** The tree the visualizer starts from (and resets to). */
  const InitialTreeData: TreeNodeData :=
    TreeNodeData("root", "Root", [
      TreeNodeData("ha", "HA", [
        TreeNodeData("a1", "A1", [], None),
        TreeNodeData("a2", "A2", [], None)
      ], Some(true)),
      TreeNodeData("b", "B", [
        TreeNodeData("b1", "B1", [], None),
        TreeNodeData("b2", "B2", [], None)
      ], Some(true))
    ], Some(true))

  /** The initial tree has the seven ids root, ha, a1, a2, b, b1, b2, each once. */
  lemma InitialSeedValid()
    ensures SeedIds(InitialTreeData) == InitialIds
    ensures ValidSeed(InitialTreeData)
  {
    InitialSeedIds();
    InitialIdsDistinct();
  }

  const InitialIds: seq<string> := ["root", "ha", "a1", "a2", "b", "b1", "b2"]

  lemma InitialIdsDistinct()
    ensures Distinct(InitialIds) && "" !in InitialIds
  {
    var ids := InitialIds;
    forall i, j | 0 <= i < j < |ids|
      ensures ids[i] != ids[j]
    {
      assert |ids[i]| != |ids[j]| || ids[i][0] != ids[j][0] || ids[i][1] != ids[j][1];
    }
  }

  // The lemmas below are steps of InitialSeedValid only: they unroll the shape
  // of the initial tree (a root with two inner nodes of two leaves each).

  /** A childless seed node contributes its own id alone. */
  lemma LeafIds(d: TreeNodeData, parentId: Option<string>, depth: nat)
    requires d.children == []
    ensures Ids(RecordsOf(d, parentId, depth)) == [d.id]
  {
    assert RecordsFrom(d, depth, 0) == [];
  }

  /** A seed node with two children contributes its id, then each child's ids in turn. */
  lemma PairIds(d: TreeNodeData, parentId: Option<string>, depth: nat)
    requires |d.children| == 2
    ensures Ids(RecordsOf(d, parentId, depth)) ==
      [d.id] + Ids(RecordsOf(d.children[0], Some(d.id), depth + 1)) + Ids(RecordsOf(d.children[1], Some(d.id), depth + 1))
  {
    var c0 := RecordsOf(d.children[0], Some(d.id), depth + 1);
    var c1 := RecordsOf(d.children[1], Some(d.id), depth + 1);
    assert RecordsFrom(d, depth, 2) == [];
    assert RecordsFrom(d, depth, 0) == c0 + c1;
    IdsConcat(c0, c1);
    IdsConcat([Record(d, parentId, depth)], c0 + c1);
  }

  /** A seed of two levels with two children per inner node lists its seven ids in pre-order. */
  lemma {:induction false} TwoByTwoIds(d: TreeNodeData)
    requires |d.children| == 2
    requires forall i :: 0 <= i < 2 ==> |d.children[i].children| == 2
    requires forall i, j :: 0 <= i < 2 && 0 <= j < 2 ==> d.children[i].children[j].children == []
    ensures var ha := d.children[0];
      var b := d.children[1];
      SeedIds(d) == [d.id, ha.id, ha.children[0].id, ha.children[1].id, b.id, b.children[0].id, b.children[1].id]
  {
    var ha := d.children[0];
    var b := d.children[1];
    PairIds(d, None, 0);
    var hs := InnerIds(ha, Some(d.id));
    var bs := InnerIds(b, Some(d.id));
    SevenIds(d.id, hs, bs);
  }

  /** The ids an inner node of such a seed contributes: its own, then its two leaves'. */
  lemma InnerIds(n: TreeNodeData, parentId: Option<string>) returns (ids: seq<string>)
    requires |n.children| == 2 && n.children[0].children == [] && n.children[1].children == []
    ensures ids == Ids(RecordsOf(n, parentId, 1))
    ensures ids == [n.id, n.children[0].id, n.children[1].id]
  {
    PairIds(n, parentId, 1);
    LeafIds(n.children[0], Some(n.id), 2);
    LeafIds(n.children[1], Some(n.id), 2);
    ids := Ids(RecordsOf(n, parentId, 1));
  }

  lemma SevenIds(r: string, hs: seq<string>, bs: seq<string>)
    requires |hs| == 3 && |bs| == 3
    ensures [r] + hs + bs == [r, hs[0], hs[1], hs[2], bs[0], bs[1], bs[2]]
  {
  }

  lemma {:induction false} InitialSeedIds()
    ensures SeedIds(InitialTreeData) == InitialIds
  {
    TwoByTwoIds(InitialTreeData);
  }
}
