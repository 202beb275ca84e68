/** `StringUtil::split`: the pieces of a string between occurrences of a pattern. */
module StringUtil {
  import opened MachineInt

  /** `p` occurs in `t` at position `i`. */
  predicate At(t: string, p: string, i: int) {
    0 <= i && i + |p| <= |t| && t[i..i + |p|] == p
  }

  predicate Contains(t: string, p: string) {
    exists i :: 0 <= i <= |t| && At(t, p, i)
  }

  /** `str.find(pattern, i)`: the first occurrence at or after `i`. */
  function Find(t: string, p: string, i: nat): (r: Option<nat>)
    ensures r.Some? ==> i <= r.value && r.value + |p| <= |t|
    decreases |t| - i
  {
    if i + |p| > |t| then None
    else if At(t, p, i) then Some(i)
    else if i == |t| then None
    else Find(t, p, i + 1)
  }

  /** What is found is an occurrence, and nothing before it is; where nothing is
      found there is no occurrence. */
  lemma {:induction false} FindIsFirst(t: string, p: string, i: nat)
    ensures Find(t, p, i).Some? ==> At(t, p, Find(t, p, i).value)
    ensures Find(t, p, i).Some? ==> forall j :: i <= j < Find(t, p, i).value ==> !At(t, p, j)
    ensures Find(t, p, i) == None ==> forall j :: i <= j ==> !At(t, p, j)
    decreases |t| - i
  {
    if i < |t| {
      FindIsFirst(t, p, i + 1);
    }
  }

  lemma NothingLater(t: string, p: string, i: nat)
    requires i < |t| && Find(t, p, i) == None
    ensures Find(t, p, i + 1) == None
  {
  }

  /** From `i` on: the text before each occurrence, taking occurrences greedily. */
  function Pieces(t: string, p: string, i: nat): seq<string>
    requires p != "" && i <= |t|
    decreases |t| - i
  {
    match Find(t, p, i)
    case None => []
    case Some(k) => [t[i..k]] + Pieces(t, p, k + |p|)
  }

  /** From `i` on: what follows the last occurrence taken. */
  function Remainder(t: string, p: string, i: nat): string
    requires p != "" && i <= |t|
    decreases |t| - i
  {
    match Find(t, p, i)
    case None => t[i..]
    case Some(k) => Remainder(t, p, k + |p|)
  }

  function Split(s: string, p: string): seq<string>
    requires p != ""
  {
    Pieces(s + p, p, 0)
  }

  /** What `split` drops from the end of the string and the appended pattern. */
  function LeftOver(s: string, p: string): string
    requires p != ""
  {
    Remainder(s + p, p, 0)
  }

  /** One turn of the loop that finds an occurrence. */
  lemma TakePiece(done: seq<string>, t: string, p: string, i: nat, k: nat, all: seq<string>)
    requires p != "" && i <= |t| && Find(t, p, i) == Some(k)
    requires done + Pieces(t, p, i) == all
    ensures (done + [t[i..k]]) + Pieces(t, p, k + |p|) == all
  {
    Regroup(done, t[i..k], Pieces(t, p, k + |p|));
  }

  lemma Regroup(done: seq<string>, piece: string, rest: seq<string>)
    ensures done + ([piece] + rest) == (done + [piece]) + rest
  {
  }

  /** One that does not. */
  lemma NoPieceLater(t: string, p: string, i: nat)
    requires p != "" && i < |t| && Find(t, p, i) == None
    ensures Pieces(t, p, i + 1) == Pieces(t, p, i)
  {
    NothingLater(t, p, i);
  }

  /** Before the first turn and after the last. */
  lemma LoopEnds(done: seq<string>, t: string, p: string)
    requires p != ""
    ensures [] + Pieces(t, p, 0) == Pieces(t, p, 0) && done + Pieces(t, p, |t|) == done
  {
  }

  /** `split(str, pattern)`. */
  method SplitString(s: string, pattern: string) returns (result: seq<string>)
    requires pattern != "" && |s| + |pattern| < TWO_31
    ensures result == Split(s, pattern)
  {
    var str := s + pattern;
    var size := |str|;
    result := [];
    ghost var all := Split(s, pattern);
    LoopEnds(result, str, pattern);
    var i := 0;
    while i < size
      invariant 0 <= i <= size == |str|
      invariant result + Pieces(str, pattern, i) == all
    {
      var pos := Find(str, pattern, i);
      if pos.Some? {
        TakePiece(result, str, pattern, i, pos.value, all);
        result := result + [str[i..pos.value]];
        i := pos.value + |pattern| - 1;
      } else {
        NoPieceLater(str, pattern, i);
      }
      i := i + 1;
    }
    LoopEnds(result, str, pattern);
  }

  class StringVector {
    var items: seq<string>

    constructor ()
      ensures items == []
    {
      items := [];
    }
  }

  /** `split(src, result, pattern)` appends to a vector that is there already. */
  method SplitInto(s: string, result: StringVector, pattern: string)
    requires pattern != "" && |s| + |pattern| < TWO_31
    modifies result
    ensures result.items == old(result.items) + Split(s, pattern)
  {
    var src := s + pattern;
    ghost var all := result.items + Split(s, pattern);
    var i := 0;
    while i < |src|
      invariant 0 <= i <= |src|
      invariant result.items + Pieces(src, pattern, i) == all
    {
      var pos := Find(src, pattern, i);
      if pos.Some? {
        TakePiece(result.items, src, pattern, i, pos.value, all);
        result.items := result.items + [src[i..pos.value]];
        i := pos.value + |pattern| - 1;
      } else {
        NoPieceLater(src, pattern, i);
      }
      i := i + 1;
    }
    LoopEnds(result.items, src, pattern);
  }

  // ---------- Pieces and remainder ----------

  /** Every piece followed by the pattern. */
  function Terminated(ps: seq<string>, p: string): string {
    if ps == [] then "" else ps[0] + p + Terminated(ps[1..], p)
  }

  /** The pieces with the pattern between them. */
  function Join(ps: seq<string>, p: string): string {
    if ps == [] then "" else if |ps| == 1 then ps[0] else ps[0] + p + Join(ps[1..], p)
  }

  lemma {:induction false} PiecesCover(t: string, p: string, i: nat)
    requires p != "" && i <= |t|
    ensures Terminated(Pieces(t, p, i), p) + Remainder(t, p, i) == t[i..]
    decreases |t| - i
  {
    var pos := Find(t, p, i);
    if pos.Some? {
      FindIsFirst(t, p, i);
      PiecesCover(t, p, pos.value + |p|);
      OneMoreCovers(t, p, i, pos.value);
    }
  }

  lemma OneMoreCovers(t: string, p: string, i: nat, k: nat)
    requires p != "" && i <= k && Find(t, p, i) == Some(k) && At(t, p, k)
    requires Terminated(Pieces(t, p, k + |p|), p) + Remainder(t, p, k + |p|) == t[k + |p|..]
    ensures Terminated(Pieces(t, p, i), p) + Remainder(t, p, i) == t[i..]
  {
    var rest := Pieces(t, p, k + |p|);
    TerminatedCons(t[i..k], rest, p);
    CutAround(t, p, i, k, Terminated(rest, p), Remainder(t, p, k + |p|));
  }

  lemma TerminatedCons(piece: string, rest: seq<string>, p: string)
    ensures Terminated([piece] + rest, p) == piece + p + Terminated(rest, p)
  {
    assert ([piece] + rest)[1..] == rest;
  }

  lemma CutAround(t: string, p: string, i: nat, k: nat, mid: string, end: string)
    requires i <= k && At(t, p, k) && mid + end == t[k + |p|..]
    ensures t[i..k] + p + mid + end == t[i..]
  {
    assert t[i..k] + p + mid + end == t[i..k] + p + (mid + end);
    assert t[i..k] + t[k..k + |p|] + t[k + |p|..] == t[i..];
  }

  /** An occurrence inside a part of the text is an occurrence in the text. */
  lemma PartOccurrence(t: string, p: string, i: nat, k: nat, j: nat)
    requires i <= k <= |t| && At(t[i..k], p, j)
    ensures At(t, p, i + j)
  {
    assert forall x {:trigger p[x]} :: 0 <= x < |p| ==> t[i..k][j..j + |p|][x] == t[i + j + x];
    assert t[i + j..i + j + |p|] == p;
  }

  lemma OccurrenceInPart(t: string, p: string, i: nat, a: string, k: nat)
    requires i <= k && k + |p| <= i + |a| <= |t| && t[i..i + |a|] == a && At(t, p, k)
    ensures Contains(a, p)
  {
    assert forall x {:trigger p[x]} :: 0 <= x < |p| ==> t[k..k + |p|][x] == t[i..i + |a|][k - i + x];
    assert a[k - i..k - i + |p|] == p;
    assert At(a, p, k - i);
  }

  /** A part of the text that starts no occurrence contains none. */
  lemma CleanPart(t: string, p: string, i: nat, k: nat)
    requires p != "" && i <= k <= |t| && (forall j :: i <= j < k ==> !At(t, p, j))
    ensures !Contains(t[i..k], p)
  {
    if Contains(t[i..k], p) {
      var j :| 0 <= j <= k - i && At(t[i..k], p, j);
      PartOccurrence(t, p, i, k, j);
    }
  }

  ghost predicate AllClean(ps: seq<string>, p: string) {
    forall piece :: piece in ps ==> !Contains(piece, p)
  }

  lemma {:induction false} PiecesClean(t: string, p: string, i: nat)
    requires p != "" && i <= |t|
    ensures AllClean(Pieces(t, p, i), p)
    ensures !Contains(Remainder(t, p, i), p)
    decreases |t| - i
  {
    var pos := Find(t, p, i);
    FindIsFirst(t, p, i);
    if pos.Some? {
      PiecesClean(t, p, pos.value + |p|);
      CleanPart(t, p, i, pos.value);
    } else {
      CleanPart(t, p, i, |t|);
      assert t[i..|t|] == t[i..];
    }
  }

  /** A text that ends with the pattern leaves a remainder shorter than it. */
  lemma {:induction false} RemainderShort(t: string, p: string, i: nat)
    requires p != "" && i <= |t| && |p| <= |t| && At(t, p, |t| - |p|)
    ensures |Remainder(t, p, i)| < |p|
    decreases |t| - i
  {
    FindIsFirst(t, p, i);
    if Find(t, p, i).Some? {
      RemainderShort(t, p, Find(t, p, i).value + |p|);
    }
  }

  lemma {:induction false} TerminatedIsJoin(ps: seq<string>, p: string)
    requires ps != []
    ensures Terminated(ps, p) == Join(ps, p) + p
    decreases |ps|
  {
    if |ps| == 1 {
      assert Terminated(ps[1..], p) == "";
    } else {
      TerminatedIsJoin(ps[1..], p);
      assert ps[0] + p + (Join(ps[1..], p) + p) == ps[0] + p + Join(ps[1..], p) + p;
    }
  }

  lemma EndsWithPattern(s: string, p: string)
    ensures At(s + p, p, |s|)
  {
    assert (s + p)[|s|..|s| + |p|] == p;
  }

  /** The pieces, none of which contains the pattern, each followed by the pattern,
      make up the string followed by the pattern, but for an end shorter than it. */
  lemma SplitCovers(s: string, p: string)
    requires p != ""
    ensures Terminated(Split(s, p), p) + LeftOver(s, p) == s + p
    ensures |LeftOver(s, p)| < |p|
    ensures AllClean(Split(s, p), p) && !Contains(LeftOver(s, p), p)
    ensures Split(s, p) != []
  {
    var t := s + p;
    EndsWithPattern(s, p);
    PiecesCover(t, p, 0);
    PiecesClean(t, p, 0);
    RemainderShort(t, p, 0);
  }

  /** Joining gives the string back exactly when nothing is left over. */
  lemma JoinsBackExactlyWhen(s: string, p: string)
    requires p != ""
    ensures Join(Split(s, p), p) == s <==> LeftOver(s, p) == ""
  {
    SplitCovers(s, p);
    TerminatedIsJoin(Split(s, p), p);
    var joined, left := Join(Split(s, p), p), LeftOver(s, p);
    assert joined + p + left == s + p;
    if left == "" {
      assert (joined + p)[..|joined|] == joined && (s + p)[..|s|] == s;
    }
  }

  // ---------- Overlapping patterns ----------

  /** The first `b` characters of the pattern are also its last. */
  predicate Border(p: string, b: nat) {
    0 < b < |p| && p[..b] == p[|p| - b..]
  }

  ghost predicate Borderless(p: string) {
    forall b :: !Border(p, b)
  }

  /** Two overlapping occurrences expose a border. */
  lemma OverlapIsBorder(t: string, p: string, i: int, j: int)
    requires At(t, p, i) && At(t, p, j) && i < j < i + |p|
    ensures Border(p, |p| - (j - i))
  {
    var d := j - i;
    forall x | 0 <= x < |p| - d
      ensures p[x] == p[d + x]
    {
      assert t[j..j + |p|][x] == t[i..i + |p|][d + x];
    }
  }

  lemma LastPiece(t: string, p: string, i: nat, k: nat)
    requires p != "" && i <= |t| && Find(t, p, i) == Some(k) && Find(t, p, k + |p|) == None
    ensures |Remainder(t, p, i)| == |t| - (k + |p|)
  {
  }

  /** A remainder begins where an occurrence ends. */
  lemma {:induction false} RemainderFollowsMatch(t: string, p: string, i: nat)
    requires p != "" && i <= |t| && Find(t, p, i).Some?
    ensures At(t, p, |t| - |Remainder(t, p, i)| - |p|)
    decreases |t| - i
  {
    var k := Find(t, p, i).value;
    if Find(t, p, k + |p|).Some? {
      RemainderFollowsMatch(t, p, k + |p|);
    } else {
      FindIsFirst(t, p, i);
      LastPiece(t, p, i, k);
    }
  }

  lemma BorderlessLeavesNothing(s: string, p: string)
    requires p != "" && Borderless(p)
    ensures LeftOver(s, p) == ""
  {
    var t := s + p;
    EndsWithPattern(s, p);
    FindIsFirst(t, p, 0);
    SplitCovers(s, p);
    RemainderFollowsMatch(t, p, 0);
    var left := LeftOver(s, p);
    if left != "" {
      OverlapIsBorder(t, p, |t| - |left| - |p|, |s|);
    }
  }

  /** With a border there is a string that splitting and joining does not restore. */
  lemma BorderLosesText(p: string, b: nat) returns (s: string)
    requires Border(p, b)
    ensures Join(Split(s, p), p) != s
  {
    s := p[..|p| - b];
    var t := s + p;
    assert t[..|p|] == p[..|p| - b] + p[..b];
    assert p == p[..|p| - b] + p[|p| - b..];
    assert At(t, p, 0);
    assert Find(t, p, 0) == Some(0);
    assert Find(t, p, |p|) == None;
    assert Remainder(t, p, |p|) == t[|p|..];
    assert LeftOver(s, p) == t[|p|..];
    JoinsBackExactlyWhen(s, p);
  }

  /** Splitting and joining restores every string exactly for the patterns none of
      whose proper beginnings is also an end. */
  lemma SplitJoinExactlyWhen(p: string)
    requires p != ""
    ensures (forall s :: Join(Split(s, p), p) == s) <==> Borderless(p)
  {
    if Borderless(p) {
      forall s
        ensures Join(Split(s, p), p) == s
      {
        BorderlessLeavesNothing(s, p);
        JoinsBackExactlyWhen(s, p);
      }
    } else {
      var b: nat :| Border(p, b);
      var s := BorderLosesText(p, b);
    }
  }

  // ---------- The other direction ----------

  /** A clean text followed by a borderless pattern is cut right there. */
  lemma FindAfterClean(t: string, p: string, i: nat, a: string)
    requires p != "" && Borderless(p) && !Contains(a, p)
    requires i + |a| <= |t| && t[i..i + |a|] == a && At(t, p, i + |a|)
    ensures Find(t, p, i) == Some(i + |a|)
  {
    FindIsFirst(t, p, i);
    var k := Find(t, p, i).value;
    if k < i + |a| {
      if k + |p| <= i + |a| {
        OccurrenceInPart(t, p, i, a, k);
      } else {
        OverlapIsBorder(t, p, k, i + |a|);
      }
    }
  }

  lemma FirstOf(t: string, i: nat, a: string, p: string, rest: string)
    requires i <= |t| && t[i..] == a + p + rest
    ensures |t| == i + |a| + |p| + |rest|
    ensures t[i..i + |a|] == a && At(t, p, i + |a|) && t[i + |a| + |p|..] == rest
  {
    var u := t[i..];
    assert u[..|a|] == a && u[|a|..|a| + |p|] == p && u[|a| + |p|..] == rest;
    assert u[..|a|] == t[i..i + |a|];
    assert u[|a|..|a| + |p|] == t[i + |a|..i + |a| + |p|];
    assert u[|a| + |p|..] == t[i + |a| + |p|..];
  }

  lemma PiecesFrom(t: string, p: string, i: nat, a: string, rest: seq<string>)
    requires p != "" && Find(t, p, i) == Some(i + |a|) && t[i..i + |a|] == a
    requires Pieces(t, p, i + |a| + |p|) == rest
    ensures Pieces(t, p, i) == [a] + rest
  {
  }

  lemma {:induction false} PiecesOfTerminated(t: string, p: string, i: nat, ps: seq<string>)
    requires p != "" && Borderless(p) && AllClean(ps, p)
    requires i <= |t| && t[i..] == Terminated(ps, p)
    ensures Pieces(t, p, i) == ps
    decreases |ps|
  {
    if ps == [] {
    } else {
      var a, rest := ps[0], Terminated(ps[1..], p);
      assert a in ps;
      FirstOf(t, i, a, p, rest);
      FindAfterClean(t, p, i, a);
      PiecesOfTerminated(t, p, i + |a| + |p|, ps[1..]);
      PiecesFrom(t, p, i, a, ps[1..]);
      assert [a] + ps[1..] == ps;
    }
  }

  /** For such patterns splitting also undoes joining, for any pieces that do not
      contain the pattern. */
  lemma JoinSplit(ps: seq<string>, p: string)
    requires p != "" && Borderless(p) && ps != [] && AllClean(ps, p)
    ensures Split(Join(ps, p), p) == ps
  {
    TerminatedIsJoin(ps, p);
    var t := Join(ps, p) + p;
    assert t[0..] == t;
    PiecesOfTerminated(t, p, 0, ps);
  }
}
