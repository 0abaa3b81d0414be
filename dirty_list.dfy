/**
  The intrusive singly-linked dirty list of a copy-on-write scope.

  Every handle carries a `next_dirty` link; the scope holds `first_dirty`.
  Here the links of all handles form one sequence `next` indexed by handle,
  and `Chain(next, first, d)` says that following the links from `first`
  visits exactly the handles of `d`, in order, and then reaches the null link.
*/
module DirtyList {
  import opened Wrappers

  /** A handle names one node of the scope's pool; nodes are numbered from 0. */
  type Handle = nat

  /** The link that points at position `i` of `d`, or the null link past its end. */
  function LinkAt(d: seq<Handle>, i: nat): Option<Handle>
  {
    if i < |d| then Some(d[i]) else None
  }

  /** Following `next` from `first` visits `d` and then stops at the null link. */
  ghost predicate Chain(next: seq<Option<Handle>>, first: Option<Handle>, d: seq<Handle>)
  {
    && (forall i :: 0 <= i < |d| ==> d[i] < |next|)
    && first == LinkAt(d, 0)
    && (forall i :: 0 <= i < |d| ==> next[d[i]] == LinkAt(d, i + 1))
  }

  ghost predicate Distinct(d: seq<Handle>)
  {
    forall i, j :: 0 <= i < j < |d| ==> d[i] != d[j]
  }

  /** Two positions of a chain never hold the same handle: the links after
      them differ, up to the end of the list, where one link is null. */
  lemma {:induction false} ChainNoRepeat(next: seq<Option<Handle>>, first: Option<Handle>, d: seq<Handle>, i: nat, j: nat)
    requires Chain(next, first, d)
    requires i < j < |d|
    ensures d[i] != d[j]
    decreases |d| - j
  {
    if j + 1 < |d| {
      ChainNoRepeat(next, first, d, i + 1, j + 1);
      assert next[d[i]] == Some(d[i + 1]) && next[d[j]] == Some(d[j + 1]);
    } else {
      assert next[d[i]] == Some(d[i + 1]) && next[d[j]] == None;
    }
  }

  /** A handle is on the dirty list at most once. */
  lemma ChainDistinct(next: seq<Option<Handle>>, first: Option<Handle>, d: seq<Handle>)
    requires Chain(next, first, d)
    ensures Distinct(d)
  {
    forall i, j | 0 <= i < j < |d| ensures d[i] != d[j] {
      ChainNoRepeat(next, first, d, i, j);
    }
  }

  /** Two chains from the same head agree up to position `m`. */
  lemma {:induction false} ChainAgree(next: seq<Option<Handle>>, first: Option<Handle>, d1: seq<Handle>, d2: seq<Handle>, m: nat)
    requires Chain(next, first, d1) && Chain(next, first, d2)
    requires m < |d1| && m < |d2|
    ensures d1[m] == d2[m]
    decreases m
  {
    if m > 0 {
      ChainAgree(next, first, d1, d2, m - 1);
      assert next[d1[m - 1]] == Some(d1[m]) && next[d2[m - 1]] == Some(d2[m]);
    }
  }

  /** The links alone determine the list: the list reached from a head is unique. */
  lemma ChainUnique(next: seq<Option<Handle>>, first: Option<Handle>, d1: seq<Handle>, d2: seq<Handle>)
    requires Chain(next, first, d1) && Chain(next, first, d2)
    ensures d1 == d2
  {
    var k := if |d1| < |d2| then |d1| else |d2|;
    forall m | 0 <= m < k ensures d1[m] == d2[m] {
      ChainAgree(next, first, d1, d2, m);
    }
    if k > 0 {
      assert next[d1[k - 1]] == LinkAt(d1, k) && next[d2[k - 1]] == LinkAt(d2, k);
    }
    assert |d1| == |d2|;
  }

  /** Links outside the list do not matter to it. */
  lemma ChainFrame(next: seq<Option<Handle>>, next': seq<Option<Handle>>, first: Option<Handle>, d: seq<Handle>)
    requires Chain(next, first, d)
    requires |next| <= |next'|
    requires forall i :: 0 <= i < |d| ==> next'[d[i]] == next[d[i]]
    ensures Chain(next', first, d)
  {
  }

  /** Pushing a handle that is not on the list onto its head (what `write`
      does: `h.next_dirty = first_dirty; first_dirty = h`) gives a chain
      one longer, with `h` first. */
  lemma ChainPush(next: seq<Option<Handle>>, first: Option<Handle>, d: seq<Handle>, h: Handle)
    requires Chain(next, first, d)
    requires h < |next| && h !in d
    ensures Chain(next[h := first], Some(h), [h] + d)
  {
    var next' := next[h := first];
    var d' := [h] + d;
    ChainFrame(next, next', first, d);
    forall i | 0 <= i < |d'| ensures next'[d'[i]] == LinkAt(d', i + 1) {
      if i > 0 {
        assert d'[i] == d[i - 1];
      }
    }
  }
}
