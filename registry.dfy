/**
 * The ordered task registry as a sequence: the search by handle used by
 * lookup and deletion, removal with the survivors kept dense and in order,
 * and the deletion loop exactly as the C code writes it.
 */
module Registry {
  import opened Wrappers

  /** The first position of `x` in `s`: where both the deletion loop and the load lookup stop. */
  function FirstIndex<T(==)>(s: seq<T>, x: T): (k: nat)
    requires x in s
    ensures k < |s| && s[k] == x
    ensures x !in s[..k]
  {
    if s[0] == x then 0
    else
      assert s == [s[0]] + s[1..];
      var k := 1 + FirstIndex(s[1..], x);
      assert s[..k] == [s[0]] + s[1..][..k - 1];
      k
  }

  /** No task handle is registered twice. */
  ghost predicate Distinct<T>(s: seq<T>)
  {
    forall i, j :: 0 <= i < j < |s| ==> s[i] != s[j]
  }

  /** The first position is the only position `k` holding `x` with no `x` before it. */
  lemma FirstIndexIs<T>(s: seq<T>, x: T, k: nat)
    requires k < |s| && s[k] == x && x !in s[..k]
    ensures FirstIndex(s, x) == k
  {
  }

  /**
   * In a registry without duplicates, after removing the element at `k` its
   * successor is found at `k`.
   */
  lemma SuccessorFoundAtRemovedPosition<T>(s: seq<T>, k: nat)
    requires Distinct(s) && k + 1 < |s|
    ensures s[k + 1] in RemoveAt(s, k) && FirstIndex(RemoveAt(s, k), s[k + 1]) == k
  {
    var r := RemoveAt(s, k);
    assert r[k] == s[k + 1];
    assert forall i :: 0 <= i < k ==> r[..k][i] == s[i] != s[k + 1];
    FirstIndexIs(r, s[k + 1], k);
  }

  /** `s` without its element at `k`: earlier elements stay, later ones move down one place. */
  function RemoveAt<T>(s: seq<T>, k: nat): (r: seq<T>)
    requires k < |s|
    ensures |r| == |s| - 1
    ensures forall i :: 0 <= i < k ==> r[i] == s[i]
    ensures forall i :: k <= i < |r| ==> r[i] == s[i + 1]
  {
    s[..k] + s[k + 1..]
  }

  /** Removal keeps every other element and loses exactly one occurrence of the removed one. */
  lemma RemoveAtMultiset<T>(s: seq<T>, k: nat)
    requires k < |s|
    ensures multiset(RemoveAt(s, k)) + multiset{s[k]} == multiset(s)
  {
    assert s == s[..k] + [s[k]] + s[k + 1..];
  }

  /**
   * The loop of `PsiFreeRTOS_TASK_DELETE` as written, on the whole slot array
   * `slots` of which the first `count` are live: from the first match on,
   * every slot takes the value of its right-hand neighbour, up to and
   * including the last live slot, which reads the slot at index `count`.
   * `None` means that read falls outside the array.
   */
  method DeleteAsWritten<T(==)>(slots: seq<T>, count: nat, task: T) returns (r: Option<seq<T>>)
    requires count <= |slots| && task in slots[..count]
    ensures r.None? <==> count == |slots|
    ensures r.Some? ==> |r.value| == |slots| && r.value[..count - 1] == RemoveAt(slots[..count], FirstIndex(slots[..count], task))
  {
    ghost var k := FirstIndex(slots[..count], task);
    var a := slots;
    var found := false;
    var i := 0;
    while i < count
      invariant 0 <= i <= count && |a| == |slots|
      invariant found <==> k < i
      invariant found ==> i < |slots|
      invariant forall j :: 0 <= j < i && j < k ==> a[j] == slots[j]
      invariant forall j :: k <= j < i ==> j + 1 < |slots| && a[j] == slots[j + 1]
      invariant forall j :: i <= j < |a| ==> a[j] == slots[j]
    {
      if task == a[i] {
        found := true;
      }
      if found {
        if i + 1 == |a| {
          return None;
        }
        a := a[i := a[i + 1]];
      }
      i := i + 1;
    }
    return Some(a);
  }
}
