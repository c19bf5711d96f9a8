/** Ordered filtering by position.

    Both drawing loops of the visualiser walk a sequence front to back and
    act on the elements that pass a test. This module gives that walk a
    declarative description: the ascending list of positions whose element
    passes. `Select` computes it, `IsSelection` says what it must be, and
    `SelectionUnique` shows the description pins down one answer.
 */
module Selection {

  /** Ascending and therefore duplicate-free. */
  ghost predicate StrictlyIncreasing(idx: seq<nat>) {
    forall j, k :: 0 <= j < k < |idx| ==> idx[j] < idx[k]
  }

  /** `idx` lists, in ascending order, exactly the positions of `s` whose
      element satisfies `keep`. */
  ghost predicate IsSelection<T>(s: seq<T>, keep: T -> bool, idx: seq<nat>) {
    && StrictlyIncreasing(idx)
    && (forall j :: 0 <= j < |idx| ==> idx[j] < |s| && keep(s[idx[j]]))
    && (forall i :: 0 <= i < |s| && keep(s[i]) ==> i in idx)
  }

  /** The positions of `s` that pass `keep`, in the order a front-to-back
      loop meets them. */
  function Select<T>(s: seq<T>, keep: T -> bool): (idx: seq<nat>)
    ensures |idx| <= |s|
    ensures forall j :: 0 <= j < |idx| ==> idx[j] < |s|
    decreases |s|
  {
    if |s| == 0 then []
    else
      var last := |s| - 1;
      var prefix := Select(s[..last], keep);
      if keep(s[last]) then prefix + [last] else prefix
  }

  /** `Select` meets the declarative description. */
  lemma {:induction false} SelectIsSelection<T>(s: seq<T>, keep: T -> bool)
    ensures IsSelection(s, keep, Select(s, keep))
    decreases |s|
  {
    if |s| > 0 {
      var last := |s| - 1;
      SelectIsSelection(s[..last], keep);
      SelectionExtends(s, keep, Select(s[..last], keep));
    }
  }

  /** One step of the loop: a selection of all but the last element grows
      into a selection of the whole sequence by appending the last position
      when that element passes. */
  lemma SelectionExtends<T>(s: seq<T>, keep: T -> bool, prefix: seq<nat>)
    requires |s| > 0 && IsSelection(s[..|s| - 1], keep, prefix)
    ensures IsSelection(s, keep, if keep(s[|s| - 1]) then prefix + [|s| - 1] else prefix)
  {
    var last := |s| - 1;
    var front := s[..last];
    var idx := if keep(s[last]) then prefix + [last] else prefix;
    assert forall i :: 0 <= i < last ==> front[i] == s[i];
    assert StrictlyIncreasing(idx) by {
      if keep(s[last]) {
        assert forall j :: 0 <= j < |prefix| ==> prefix[j] < last;
      }
    }
    assert forall j :: 0 <= j < |idx| ==> idx[j] < |s| && keep(s[idx[j]]) by {
      assert forall j :: 0 <= j < |prefix| ==> front[prefix[j]] == s[prefix[j]];
    }
    assert forall i :: 0 <= i < |s| && keep(s[i]) ==> i in idx by {
      assert forall i :: 0 <= i < last && keep(s[i]) ==> i in prefix;
    }
  }

  /** Two ascending sequences with the same elements are equal. */
  lemma {:induction false} IncreasingWithSameElements(a: seq<nat>, b: seq<nat>)
    requires StrictlyIncreasing(a) && StrictlyIncreasing(b)
    requires forall x :: x in a <==> x in b
    ensures a == b
    decreases |a|
  {
    if |a| > 0 {
      assert a[0] in b;
      assert |b| > 0;
      assert b[0] in a;
      assert a[0] == b[0] by {
        var k :| 0 <= k < |b| && b[k] == a[0];
        var m :| 0 <= m < |a| && a[m] == b[0];
        assert b[0] <= b[k];
        assert a[0] <= a[m];
      }
      forall x
        ensures x in a[1..] <==> x in b[1..]
      {
        TailElements(a, x);
        TailElements(b, x);
      }
      IncreasingWithSameElements(a[1..], b[1..]);
    } else {
      HeadIsElement(b);
    }
  }

  lemma HeadIsElement<T>(b: seq<T>)
    ensures |b| > 0 ==> b[0] in b
  {
  }

  /** The tail of an ascending sequence holds everything but its head. */
  lemma TailElements(a: seq<nat>, x: nat)
    requires StrictlyIncreasing(a) && |a| > 0
    ensures StrictlyIncreasing(a[1..])
    ensures x in a[1..] <==> x in a && x != a[0]
  {
    if x in a && x != a[0] {
      var k :| 0 <= k < |a| && a[k] == x;
      assert a[1..][k - 1] == x;
    }
  }

  /** The selection description admits exactly one answer, so `Select` is
      fully characterised by its contract. */
  lemma SelectionUnique<T>(s: seq<T>, keep: T -> bool, a: seq<nat>, b: seq<nat>)
    requires IsSelection(s, keep, a) && IsSelection(s, keep, b)
    ensures a == b
  {
    forall x
      ensures x in a <==> x in b
    {
      if x in a {
        var j :| 0 <= j < |a| && a[j] == x;
      }
      if x in b {
        var j :| 0 <= j < |b| && b[j] == x;
      }
    }
    IncreasingWithSameElements(a, b);
  }
}
