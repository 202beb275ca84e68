/** Finite counting used by the run invariants. */
module Counting {
  /** The first `k` naturals. */
  function Below(k: nat): (s: set<nat>)
    ensures |s| == k
    ensures forall i: nat :: i in s <==> i < k
  {
    if k == 0 then {} else Below(k - 1) + {k - 1}
  }

  lemma {:induction false} SubsetSize<T>(a: set<T>, b: set<T>)
    requires a <= b
    ensures |a| <= |b|
    decreases |a|
  {
    if a != {} {
      var x :| x in a;
      SubsetSize(a - {x}, b - {x});
    }
  }

  /** How many elements satisfy a predicate. */
  function Count<T>(s: seq<T>, p: T -> bool): (n: nat)
    ensures n <= |s|
  {
    if s == [] then 0 else (if p(s[0]) then 1 else 0) + Count(s[1..], p)
  }

  lemma {:induction false} CountAppend<T>(s: seq<T>, x: T, p: T -> bool)
    ensures Count(s + [x], p) == Count(s, p) + (if p(x) then 1 else 0)
    decreases |s|
  {
    if s == [] {
      assert ([x])[1..] == [] && s + [x] == [x];
    } else {
      assert (s + [x])[1..] == s[1..] + [x];
      CountAppend(s[1..], x, p);
    }
  }

  lemma {:induction false} CountUpdate<T>(s: seq<T>, k: nat, x: T, p: T -> bool)
    requires k < |s|
    ensures Count(s[k := x], p) == Count(s, p) - (if p(s[k]) then 1 else 0) + (if p(x) then 1 else 0)
    decreases |s|
  {
    if k > 0 {
      assert s[k := x][1..] == s[1..][k - 1 := x];
      CountUpdate(s[1..], k - 1, x, p);
    } else {
      assert s[k := x][1..] == s[1..];
    }
  }

  /** Elements satisfying `p` that carry distinct labels below `n` are at most `n`. */
  lemma {:induction false} DistinctLabels<T>(s: seq<T>, p: T -> bool, tag: T -> nat, n: nat)
    requires forall i :: 0 <= i < |s| && p(s[i]) ==> tag(s[i]) < n
    requires forall i, j :: 0 <= i < j < |s| && p(s[i]) && p(s[j]) ==> tag(s[i]) != tag(s[j])
    ensures Count(s, p) <= n
  {
    LabelsCounted(s, p, tag, n);
    SubsetSize(Labels(s, p, tag), Below(n));
  }

  function Labels<T>(s: seq<T>, p: T -> bool, tag: T -> nat): (l: set<nat>)
    ensures forall x :: x in l ==> exists i :: 0 <= i < |s| && p(s[i]) && tag(s[i]) == x
  {
    if s == [] then {}
    else
      var rest := Labels(s[1..], p, tag);
      assert forall x :: x in rest ==> exists i :: 0 <= i < |s| && p(s[i]) && tag(s[i]) == x by {
        forall x | x in rest
          ensures exists i :: 0 <= i < |s| && p(s[i]) && tag(s[i]) == x
        {
          var i :| 0 <= i < |s[1..]| && p(s[1..][i]) && tag(s[1..][i]) == x;
          assert s[i + 1] == s[1..][i];
        }
      }
      (if p(s[0]) then {tag(s[0])} else {}) + rest
  }

  lemma {:induction false} LabelsCounted<T>(s: seq<T>, p: T -> bool, tag: T -> nat, n: nat)
    requires forall i :: 0 <= i < |s| && p(s[i]) ==> tag(s[i]) < n
    requires forall i, j :: 0 <= i < j < |s| && p(s[i]) && p(s[j]) ==> tag(s[i]) != tag(s[j])
    ensures |Labels(s, p, tag)| == Count(s, p) && Labels(s, p, tag) <= Below(n)
    decreases |s|
  {
    if s != [] {
      var rest := s[1..];
      assert forall i :: 0 <= i < |rest| ==> rest[i] == s[i + 1];
      LabelsCounted(rest, p, tag, n);
      assert forall i {:trigger rest[i]} :: 0 <= i < |rest| && p(rest[i]) && p(s[0]) ==> tag(rest[i]) != tag(s[0]);
    }
  }
}
