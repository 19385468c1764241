/** `searchNodes`: the ids of the nodes whose label contains the query, ignoring case. */
module Search {
  import opened TreeTypes
  import opened TreeShape
  import opened JsText

  /** Does the node's lower-cased label contain the (already lower-cased) query? */
  predicate LabelMatches(node: TreeNode, lowerQuery: string)
  {
    Contains(Lower(node.labelText), lowerQuery)
  }

  /** The ids pushed while visiting the first `n` entries of the map, in map order. */
  function MatchesUpTo(m: NodeMap, lowerQuery: string, n: nat): (r: seq<string>)
    requires m.Valid() && n <= |m.keys|
    ensures |r| <= n
  {
    if n == 0 then []
    else
      var node := m.entries[m.keys[n - 1]];
      MatchesUpTo(m, lowerQuery, n - 1) + (if LabelMatches(node, lowerQuery) then [node.id] else [])
  }

  /** What `searchNodes` returns: nothing for a blank query, otherwise the matches in map order. */
  function SearchResult(m: NodeMap, query: string): (r: seq<string>)
    requires m.Valid()
    ensures Trim(query) == "" ==> r == []
  {
    if Trim(query) == "" then [] else MatchesUpTo(m, Lower(query), |m.keys|)
  }

  /** The `forEach` over the map, proved to compute `SearchResult`. */
  method SearchNodes(m: NodeMap, query: string) returns (matches: seq<string>)
    requires m.Valid()
    ensures matches == SearchResult(m, query)
  {
    if Trim(query) == "" {
      return [];
    }
    matches := [];
    var lowerQuery := Lower(query);
    var i := 0;
    while i < |m.keys|
      invariant 0 <= i <= |m.keys|
      invariant matches == MatchesUpTo(m, lowerQuery, i)
    {
      var node := m.entries[m.keys[i]];
      if Contains(Lower(node.labelText), lowerQuery) {
        matches := matches + [node.id];
      }
      i := i + 1;
    }
  }

  /** The matches among the first `n` entries are the ids of the matching ones. */
  lemma {:induction false} MatchesMembers(m: NodeMap, lowerQuery: string, n: nat)
    requires m.Valid() && IdsAreKeys(m) && n <= |m.keys|
    ensures forall x :: x in MatchesUpTo(m, lowerQuery, n) <==>
      x in m.keys[..n] && LabelMatches(m.entries[x], lowerQuery)
  {
    if n > 0 {
      MatchesMembers(m, lowerQuery, n - 1);
      m.KeyPresent(n - 1);
      TakeLast(m.keys, n);
    }
  }

  /** The ids of `r` are keys among the first `n`, in key order. */
  ghost predicate InKeyOrder(keys: seq<string>, r: seq<string>, n: nat)
  {
    && (forall i :: 0 <= i < |r| ==> r[i] in keys && IndexOf(keys, r[i]) < n)
    && InOrderOf(keys, r)
  }

  /** Appending the `n`-th key to ids drawn from the keys before it keeps key order. */
  lemma InKeyOrderAppend(keys: seq<string>, r: seq<string>, n: nat)
    requires Distinct(keys) && 0 < n <= |keys|
    requires InKeyOrder(keys, r, n - 1)
    ensures InKeyOrder(keys, r + [keys[n - 1]], n)
  {
    var r' := r + [keys[n - 1]];
    IndexOfAt(keys, n - 1);
    assert forall i :: 0 <= i < |r| ==> r'[i] == r[i];
  }

  /** The matches among the first `n` entries come in map order. */
  lemma {:induction false} MatchesOrdered(m: NodeMap, lowerQuery: string, n: nat)
    requires m.Valid() && IdsAreKeys(m) && n <= |m.keys|
    ensures InKeyOrder(m.keys, MatchesUpTo(m, lowerQuery, n), n)
  {
    if n > 0 {
      MatchesOrdered(m, lowerQuery, n - 1);
      m.KeyPresent(n - 1);
      var k := m.keys[n - 1];
      assert m.entries[k].id == k;
      var prev := MatchesUpTo(m, lowerQuery, n - 1);
      if LabelMatches(m.entries[k], lowerQuery) {
        InKeyOrderAppend(m.keys, prev, n);
      } else {
        assert MatchesUpTo(m, lowerQuery, n) == prev;
      }
    }
  }

  /**
   * A non-blank query finds exactly the stored nodes whose lower-cased label
   * contains the lower-cased query; the ids come in map order, each once.
   */
  lemma SearchExactly(m: NodeMap, query: string)
    requires m.Valid() && IdsAreKeys(m)
    ensures var r := SearchResult(m, query);
      && (forall x :: x in r <==> Trim(query) != "" && x in m.entries && Contains(Lower(m.entries[x].labelText), Lower(query)))
      && (forall i, j :: 0 <= i < j < |r| ==> r[i] in m.keys && r[j] in m.keys && IndexOf(m.keys, r[i]) < IndexOf(m.keys, r[j]))
      && Distinct(r)
  {
    MatchesMembers(m, Lower(query), |m.keys|);
    MatchesOrdered(m, Lower(query), |m.keys|);
    assert m.keys[..|m.keys|] == m.keys;
  }

  /** Searching for the upper-cased query finds the same nodes. */
  lemma {:induction false} SearchIgnoresCase(m: NodeMap, query: string)
    requires m.Valid()
    ensures SearchResult(m, Upper(query)) == SearchResult(m, query)
  {
    UpperKeepsBlank(query);
    LowerOfUpper(query);
  }

  /** The search sees only the key order, the ids and the labels. */
  lemma {:induction false} SearchSameLabels(m: NodeMap, r: NodeMap, query: string)
    requires m.Valid() && r.Valid() && r.keys == m.keys
    requires forall k :: k in m.entries ==> r.entries[k].id == m.entries[k].id && r.entries[k].labelText == m.entries[k].labelText
    ensures SearchResult(r, query) == SearchResult(m, query)
  {
    var n := 0;
    while n < |m.keys|
      invariant n <= |m.keys|
      invariant MatchesUpTo(r, Lower(query), n) == MatchesUpTo(m, Lower(query), n)
    {
      n := n + 1;
    }
  }
}
