/**
 * Values of the tree store: node records, the nested seed description, and the
 * id -> node map, which keeps JavaScript `Map` insertion order.
 */
module TreeTypes {

  datatype Option<T> = None | Some(value: T)

  /** JavaScript truthiness of a `string | null`: `null` and `""` are falsy. */
  predicate Truthy(s: Option<string>)
  {
    s.Some? && s.value != ""
  }

  /** A flattened node (`TreeNode`); `labelText` is its `label` (a reserved word here). */
  datatype TreeNode = TreeNode(
    id: string,
    labelText: string,
    childrenIds: seq<string>,
    parentId: Option<string>,
    isExpanded: bool,
    depth: nat)

  /**
   * A node of the nested seed (`TreeNodeData`). A missing `children` array and an
   * empty one behave alike, so both are the empty sequence; `isExpanded` may be
   * left unspecified. The seed's optional `depth` is never read and is not kept.
   */
  datatype TreeNodeData = TreeNodeData(
    id: string,
    labelText: string,
    children: seq<TreeNodeData>,
    isExpanded: Option<bool>)

  predicate Distinct<T(==)>(s: seq<T>)
  {
    forall i, j :: 0 <= i < j < |s| ==> s[i] != s[j]
  }

  /** The set of elements of a sequence. */
  function Elems<T>(s: seq<T>): set<T>
  {
    set x | x in s
  }

  /** A duplicate-free sequence has as many elements as its set. */
  lemma {:induction false} DistinctCard<T>(s: seq<T>)
    requires Distinct(s)
    ensures |Elems(s)| == |s|
  {
    if s != [] {
      var init := s[..|s| - 1];
      DistinctCard(init);
      assert Elems(s) == Elems(init) + {s[|s| - 1]};
      assert s[|s| - 1] !in Elems(init);
    }
  }

  lemma DistinctConcat<T>(s: seq<T>, t: seq<T>)
    requires Distinct(s) && Distinct(t)
    requires forall x :: x in s ==> x !in t
    ensures Distinct(s + t)
  {
    var st := s + t;
    forall i, j | 0 <= i < j < |st|
      ensures st[i] != st[j]
    {
      if j >= |s| && i < |s| {
        assert st[i] in s && st[j] == t[j - |s|];
      }
    }
  }

  lemma ConcatAssoc<T>(a: seq<T>, b: seq<T>, c: seq<T>)
    ensures (a + b) + c == a + (b + c)
  {
  }

  /** A prefix is the shorter prefix followed by its last element. */
  lemma TakeLast<T>(s: seq<T>, n: nat)
    requires 0 < n <= |s|
    ensures s[..n] == s[..n - 1] + [s[n - 1]]
  {
  }

  /** The elements of `s` not in `gone`, in their order (`Array.prototype.filter`). */
  function Without(s: seq<string>, gone: set<string>): (r: seq<string>)
    ensures forall x :: x in r <==> x in s && x !in gone
    ensures |r| <= |s|
    ensures Distinct(s) ==> Distinct(r)
  {
    if s == [] then []
    else if s[|s| - 1] in gone then Without(s[..|s| - 1], gone)
    else
      var r := Without(s[..|s| - 1], gone);
      assert forall x :: x in s[..|s| - 1] ==> x in s;
      assert Distinct(s) ==> s[|s| - 1] !in s[..|s| - 1];
      r + [s[|s| - 1]]
  }

  /** Position of `x` in a sequence that holds it. */
  function IndexOf(s: seq<string>, x: string): (i: nat)
    requires x in s
    ensures i < |s| && s[i] == x
  {
    if s[|s| - 1] == x then |s| - 1 else IndexOf(s[..|s| - 1], x)
  }

  /** A distinct sequence's element sits at the position `IndexOf` reports. */
  lemma IndexOfAt(s: seq<string>, i: nat)
    requires Distinct(s) && i < |s|
    ensures IndexOf(s, s[i]) == i
  {
    var p := IndexOf(s, s[i]);
    assert s[p] == s[i];
  }

  /** The elements of `r` are drawn from `s` and come in the order they have in `s`. */
  ghost predicate InOrderOf(s: seq<string>, r: seq<string>)
  {
    forall i, j :: 0 <= i < j < |r| ==> r[i] in s && r[j] in s && IndexOf(s, r[i]) < IndexOf(s, r[j])
  }

  /**
   * `filter` keeps the order of what it keeps: of two kept elements of a
   * duplicate-free list, the earlier one in the result is the earlier one in `s`.
   */
  lemma {:induction false} WithoutInOrder(s: seq<string>, gone: set<string>)
    requires Distinct(s)
    ensures InOrderOf(s, Without(s, gone))
  {
    if s != [] {
      var init := s[..|s| - 1];
      var last := s[|s| - 1];
      assert Distinct(init);
      WithoutInOrder(init, gone);
      var r0 := Without(init, gone);
      var r := Without(s, gone);
      assert IndexOf(s, last) == |s| - 1;
      forall x | x in init
        ensures x in s && IndexOf(s, x) == IndexOf(init, x) < |s| - 1
      {
        assert x != last;
      }
      forall i, j | 0 <= i < j < |r|
        ensures r[i] in s && r[j] in s && IndexOf(s, r[i]) < IndexOf(s, r[j])
      {
        assert r[i] == r0[i] && r[i] in init;
        if j < |r0| {
          assert r[j] == r0[j] && r[j] in init;
        } else {
          assert r[j] == last;
        }
      }
    }
  }

  lemma {:induction false} WithoutTwice(s: seq<string>, a: set<string>, b: set<string>)
    ensures Without(Without(s, a), b) == Without(s, a + b)
  {
    if s != [] {
      WithoutTwice(s[..|s| - 1], a, b);
      var last := s[|s| - 1];
      if last !in a {
        assert Without(s, a) == Without(s[..|s| - 1], a) + [last];
        assert Without(s, a)[..|Without(s, a)| - 1] == Without(s[..|s| - 1], a);
      }
    }
  }

  lemma WithoutNothing(s: seq<string>, gone: set<string>)
    requires forall x :: x in s ==> x !in gone
    ensures Without(s, gone) == s
  {
    if s != [] {
      WithoutNothing(s[..|s| - 1], gone);
      assert s == s[..|s| - 1] + [s[|s| - 1]];
    }
  }

  /**
   * The id -> node map. `keys` is the iteration order of the JavaScript `Map`;
   * `entries` is its content.
   */
  datatype NodeMap = NodeMap(keys: seq<string>, entries: map<string, TreeNode>)
  {
    ghost predicate Valid()
    {
      && Distinct(keys)
      && (forall k :: k in entries <==> k in keys)
    }

    function Get(k: string): (r: Option<TreeNode>)
      ensures r.Some? <==> k in entries
      ensures r.Some? ==> r.value == entries[k]
    {
      if k in entries then Some(entries[k]) else None
    }

    /** `Map.prototype.set`: an existing key keeps its place, a new key goes last. */
    function Set(k: string, v: TreeNode): (r: NodeMap)
      ensures Valid() ==> r.Valid()
      ensures r.entries == entries[k := v]
      ensures k in entries ==> r.keys == keys
      ensures k !in entries ==> r.keys == keys + [k]
    {
      NodeMap(if k in entries then keys else keys + [k], entries[k := v])
    }

    /** `Map.prototype.delete`: the key leaves the order, the others keep theirs. */
    function Delete(k: string): (r: NodeMap)
      ensures Valid() ==> r.Valid()
      ensures r.entries == entries - {k}
      ensures r.keys == Without(keys, {k})
    {
      NodeMap(Without(keys, {k}), entries - {k})
    }

    /** Deleting every key of `gone` (in any order). */
    function DeleteAll(gone: set<string>): (r: NodeMap)
      ensures Valid() ==> r.Valid()
      ensures r.entries == entries - gone
      ensures r.keys == Without(keys, gone)
    {
      NodeMap(Without(keys, gone), entries - gone)
    }

    /** Deleting one more key after a batch is deleting the enlarged batch. */
    lemma DeleteAllStep(gone: set<string>, k: string)
      ensures DeleteAll(gone).Delete(k) == DeleteAll(gone + {k})
    {
      WithoutTwice(keys, gone, {k});
    }

    lemma DeleteNone()
      ensures DeleteAll({}) == this
    {
      WithoutNothing(keys, {});
    }

    /** Every key in the order is present. */
    lemma KeyPresent(j: nat)
      requires Valid() && j < |keys|
      ensures keys[j] in entries
    {
    }

    function Size(): nat
    {
      |entries|
    }
  }

  const EmptyMap: NodeMap := NodeMap([], map[])
}
