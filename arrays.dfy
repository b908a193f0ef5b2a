/**
 * The two ECMAScript array operations the catalog views are built from:
 * `Array.prototype.filter` and `Array.prototype.slice`, on sequences.
 */
module ArrayOps {

  /** `s.filter(p)`: the elements satisfying `p`, in their original order. */
  function Filter<T>(s: seq<T>, p: T -> bool): (r: seq<T>)
    ensures |r| <= |s|
    ensures forall k :: 0 <= k < |r| ==> r[k] in s && p(r[k])
    ensures forall k :: 0 <= k < |s| && p(s[k]) ==> s[k] in r
  {
    if s == [] then []
    else if p(s[0]) then [s[0]] + Filter(s[1..], p)
    else Filter(s[1..], p)
  }

  /** `r[k]` is the element of `s` at position `idx[k]`. */
  ghost predicate Picks<T>(s: seq<T>, r: seq<T>, idx: seq<nat>)
  {
    |idx| == |r| && forall k :: 0 <= k < |idx| ==> idx[k] < |s| && r[k] == s[idx[k]]
  }

  ghost predicate StrictlyIncreasing(idx: seq<nat>)
  {
    forall k, l :: 0 <= k < l < |idx| ==> idx[k] < idx[l]
  }

  /** `idx` holds exactly the positions of `s` whose element satisfies `p`. */
  ghost predicate MatchingPositions<T>(s: seq<T>, p: T -> bool, idx: seq<nat>)
  {
    forall j :: 0 <= j < |s| ==> (p(s[j]) <==> j in idx)
  }

  /**
   * `idx` lists, in strictly increasing order, exactly the positions of `s`
   * whose element satisfies `p`, and `r` holds the elements at those positions.
   */
  ghost predicate IsSelection<T>(s: seq<T>, p: T -> bool, r: seq<T>, idx: seq<nat>)
  {
    Picks(s, r, idx) && StrictlyIncreasing(idx) && MatchingPositions(s, p, idx)
  }

  function Shift(idx: seq<nat>): (r: seq<nat>)
    ensures |r| == |idx| && forall k :: 0 <= k < |idx| ==> r[k] == idx[k] + 1
  {
    seq(|idx|, k requires 0 <= k < |idx| => idx[k] + 1)
  }

  lemma ShiftMembership(idx: seq<nat>, j: int)
    ensures j in Shift(idx) <==> j >= 1 && j - 1 in idx
  {
    var shifted := Shift(idx);
    if j in shifted {
      var k :| 0 <= k < |shifted| && shifted[k] == j;
      assert idx[k] == j - 1;
    }
    if j >= 1 && j - 1 in idx {
      var k :| 0 <= k < |idx| && idx[k] == j - 1;
      assert shifted[k] == j;
    }
  }

  lemma PicksCons<T>(s: seq<T>, tail: seq<T>, rest: seq<nat>, keep: bool)
    requires s != [] && Picks(s[1..], tail, rest)
    ensures keep ==> Picks(s, [s[0]] + tail, [0] + Shift(rest))
    ensures !keep ==> Picks(s, tail, Shift(rest))
  {
    var shifted := Shift(rest);
    forall k | 0 <= k < |rest| ensures shifted[k] < |s| && tail[k] == s[shifted[k]] {
      assert s[shifted[k]] == s[1..][rest[k]];
    }
    if keep {
      var idx, r := [0] + shifted, [s[0]] + tail;
      forall k | 0 < k < |idx| ensures idx[k] < |s| && r[k] == s[idx[k]] {
        assert idx[k] == shifted[k - 1] && r[k] == tail[k - 1];
      }
    }
  }

  lemma IncreasingCons(rest: seq<nat>)
    requires StrictlyIncreasing(rest)
    ensures StrictlyIncreasing(Shift(rest)) && StrictlyIncreasing([0] + Shift(rest))
  {
    var idx := [0] + Shift(rest);
    forall k, l | 0 <= k < l < |idx| ensures idx[k] < idx[l] {
      if k > 0 {
        assert idx[k] == rest[k - 1] + 1 && idx[l] == rest[l - 1] + 1;
      } else {
        assert idx[l] == rest[l - 1] + 1;
      }
    }
  }

  lemma MatchingCons<T>(s: seq<T>, p: T -> bool, rest: seq<nat>)
    requires s != [] && MatchingPositions(s[1..], p, rest)
    ensures p(s[0]) ==> MatchingPositions(s, p, [0] + Shift(rest))
    ensures !p(s[0]) ==> MatchingPositions(s, p, Shift(rest))
  {
    var shifted := Shift(rest);
    forall j | 1 <= j < |s| ensures p(s[j]) <==> j in shifted {
      ShiftMembership(rest, j);
      assert s[j] == s[1..][j - 1];
    }
    ShiftMembership(rest, 0);
  }

  /** `Filter` keeps every matching element, drops every other one, and keeps their order. */
  lemma {:induction false} FilterSelects<T>(s: seq<T>, p: T -> bool) returns (idx: seq<nat>)
    ensures IsSelection(s, p, Filter(s, p), idx)
  {
    if s == [] {
      idx := [];
    } else {
      var rest := FilterSelects(s[1..], p);
      PicksCons(s, Filter(s[1..], p), rest, p(s[0]));
      IncreasingCons(rest);
      MatchingCons(s, p, rest);
      idx := if p(s[0]) then [0] + Shift(rest) else Shift(rest);
    }
  }

  /** The index `i` as `slice` resolves it: negative counts from the end; clamped to `[0, len]`. */
  function SliceIndex(i: int, len: nat): (k: nat)
    ensures k <= len
    ensures 0 <= i <= len ==> k == i
    ensures i > len ==> k == len
  {
    if i < 0 then (if len + i < 0 then 0 else len + i)
    else if i < len then i else len
  }

  /** `s.slice(start, end)` */
  function Slice<T>(s: seq<T>, start: int, end: int): (r: seq<T>)
    ensures 0 <= start <= end ==> r == s[SliceIndex(start, |s|)..SliceIndex(end, |s|)]
    ensures 0 <= start && start >= |s| ==> r == []
  {
    var a, b := SliceIndex(start, |s|), SliceIndex(end, |s|);
    if a < b then s[a..b] else []
  }
}
