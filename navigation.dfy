/** The search-navigation index and the click selection of the visualizer. */
module Navigation {
  import opened TreeTypes

  /** `handleNextMatch`: step forward cyclically through `n` matches; no matches, no change. */
  function NextIndex(i: nat, n: nat): (r: nat)
    ensures n > 0 ==> r < n
    ensures n == 0 ==> r == i
  {
    if n > 0 then (i + 1) % n else i
  }

  /** `handlePrevMatch`: step back, wrapping from the first match to the last; no matches, no change. */
  function PrevIndex(i: nat, n: nat): (r: nat)
    ensures n > 0 && i < n ==> r < n
    ensures n == 0 ==> r == i
  {
    if n > 0 then (if i == 0 then n - 1 else i - 1) else i
  }

  /** Within range, previous undoes next and next undoes previous. */
  lemma NextPrevInverse(i: nat, n: nat)
    requires i < n
    ensures PrevIndex(NextIndex(i, n), n) == i
    ensures NextIndex(PrevIndex(i, n), n) == i
  {
    WrapStep(i, n);
    WrapStep(PrevIndex(i, n), n);
    if i + 1 == n {
      assert NextIndex(i, n) == 0;
    } else {
      assert NextIndex(i, n) == i + 1;
    }
  }

  /** The index after `k` presses of "next". */
  function NextTimes(i: nat, n: nat, k: nat): nat
  {
    if k == 0 then i else NextIndex(NextTimes(i, n, k - 1), n)
  }

  /** From a valid index, `k <= n` presses of "next" move `k` places round the cycle; `n` presses come back. */
  lemma {:induction false} NextCycles(i: nat, n: nat, k: nat)
    requires i < n && k <= n
    ensures NextTimes(i, n, k) == if i + k < n then i + k else i + k - n
    ensures NextTimes(i, n, n) == i
  {
    NextSteps(i, n, k);
    NextSteps(i, n, n);
  }

  lemma {:induction false} NextSteps(i: nat, n: nat, k: nat)
    requires i < n && k <= n
    ensures NextTimes(i, n, k) == if i + k < n then i + k else i + k - n
  {
    if k > 0 {
      NextSteps(i, n, k - 1);
      var j := NextTimes(i, n, k - 1);
      assert NextTimes(i, n, k) == NextIndex(j, n);
      WrapStep(j, n);
    }
  }

  /** One step of "next" from a valid index. */
  lemma WrapStep(j: nat, n: nat)
    requires j < n
    ensures NextIndex(j, n) == if j + 1 < n then j + 1 else 0
  {
  }

  /** `onNodeClick`: clicking the selected id clears the selection, any other id becomes selected. */
  function ClickSelection(prev: Option<string>, id: string): (r: Option<string>)
    ensures r == Some(id) <==> prev != Some(id)
    ensures r == None <==> prev == Some(id)
  {
    if prev == Some(id) then None else Some(id)
  }

  /** Clicking the same id twice restores a selection that was empty or that id. */
  lemma ClickTwice(prev: Option<string>, id: string)
    requires prev == None || prev == Some(id)
    ensures ClickSelection(ClickSelection(prev, id), id) == prev
  {
  }
}
