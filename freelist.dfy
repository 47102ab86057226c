/** The explicit free list: a circular doubly-linked list threaded through the
    payloads of the free blocks. It is represented by the sequence of its
    members' addresses starting at the anchor flist_first; the successor of an
    element is the one after it, and the successor of the last is the anchor. */
module FreeList {

  /** No block is linked twice. */
  ghost predicate NoDup(s: seq<nat>) {
    forall i, j :: 0 <= i < j < |s| ==> s[i] != s[j]
  }

  /** insert_free_block: the block becomes the new anchor. */
  function Insert(s: seq<nat>, x: nat): seq<nat> {
    [x] + s
  }

  /** pull_free_block: unlink x; when x was the anchor, its successor becomes the anchor. */
  function Remove(s: seq<nat>, x: nat): seq<nat> {
    if s == [] then []
    else if s[0] == x then s[1..]
    else [s[0]] + Remove(s[1..], x)
  }

  /** Unlinking the element at position k joins its predecessor to its successor
      and leaves the order of everything else alone. */
  lemma {:induction false} RemoveAt(s: seq<nat>, k: nat)
    requires NoDup(s) && k < |s|
    ensures Remove(s, s[k]) == s[..k] + s[k + 1..]
  {
    if k > 0 {
      assert s[0] != s[k];
      assert NoDup(s[1..]) by {
        forall i, j | 0 <= i < j < |s| - 1 ensures s[1..][i] != s[1..][j] {
          assert s[1..][i] == s[i + 1] && s[1..][j] == s[j + 1];
        }
      }
      RemoveAt(s[1..], k - 1);
      assert s[1..][k - 1] == s[k];
      assert s[1..][..k - 1] + s[1..][k..] == s[1..k] + s[k + 1..];
      assert [s[0]] + s[1..k] == s[..k];
    }
  }

  lemma {:induction false} CutNoDup(s: seq<nat>, k: nat)
    requires NoDup(s) && k < |s|
    ensures NoDup(s[..k] + s[k + 1..])
  {
    var r := s[..k] + s[k + 1..];
    forall i, j | 0 <= i < j < |r| ensures r[i] != r[j] {
      var i', j' := if i < k then i else i + 1, if j < k then j else j + 1;
      assert r[i] == s[i'] && r[j] == s[j'];
    }
  }

  lemma {:induction false} CutMembers(s: seq<nat>, k: nat)
    requires NoDup(s) && k < |s|
    ensures forall y :: y in s[..k] + s[k + 1..] <==> y in s && y != s[k]
  {
    var r := s[..k] + s[k + 1..];
    forall y ensures y in r <==> y in s && y != s[k] {
      if y in r {
        var t :| 0 <= t < |r| && r[t] == y;
        var t' := if t < k then t else t + 1;
        assert s[t'] == y;
      }
      if y in s && y != s[k] {
        var t :| 0 <= t < |s| && s[t] == y;
        if t < k { assert r[t] == y; } else { assert r[t - 1] == y; }
      }
    }
  }

  /** Unlinking a member of a duplicate-free list removes exactly that member. */
  lemma {:induction false} RemoveMember(s: seq<nat>, x: nat)
    requires NoDup(s) && x in s
    ensures NoDup(Remove(s, x))
    ensures forall y :: y in Remove(s, x) <==> y in s && y != x
    ensures |Remove(s, x)| == |s| - 1
  {
    var k :| 0 <= k < |s| && s[k] == x;
    RemoveAt(s, k);
    CutNoDup(s, k);
    CutMembers(s, k);
  }

  /** Linking a block that is not yet linked keeps the list duplicate-free. */
  lemma {:induction false} InsertFresh(s: seq<nat>, x: nat)
    requires NoDup(s) && x !in s
    ensures NoDup(Insert(s, x))
    ensures forall y :: y in Insert(s, x) <==> y == x || y in s
  {
    var r := Insert(s, x);
    forall i, j | 0 <= i < j < |r| ensures r[i] != r[j] {
      assert r[j] == s[j - 1];
      if i > 0 { assert r[i] == s[i - 1]; }
    }
  }
}
