/**
 The emoji table generator's code point spans (internal/emoji/gen/main.go):
 sorted and merged in place, then split into 16-bit and 32-bit tables.
*/
module Spans {

  datatype Span = Span(lo: int, hi: int)

  ghost predicate Covers(s: seq<Span>, x: int) {
    exists i :: 0 <= i < |s| && s[i].lo <= x <= s[i].hi
  }

  predicate SortedByLo(s: seq<Span>) {
    forall i, j :: 0 <= i < j < |s| ==> s[i].lo <= s[j].lo
  }

  predicate WellFormed(s: seq<Span>) {
    forall i :: 0 <= i < |s| ==> s[i].lo <= s[i].hi
  }

  /** Sorted, disjoint and not even adjacent: no two spans could be one. */
  predicate Normal(s: seq<Span>) {
    WellFormed(s) && forall i, j :: 0 <= i < j < |s| ==> s[i].hi + 1 < s[j].lo
  }

  lemma CoversPlus(s: seq<Span>, sp: Span, x: int)
    ensures Covers(s + [sp], x) <==> Covers(s, x) || sp.lo <= x <= sp.hi
  {
    var t := s + [sp];
    assert t[|s|] == sp;
    assert forall i :: 0 <= i < |s| ==> t[i] == s[i];
  }

  lemma CoversSameElements(s: seq<Span>, t: seq<Span>, x: int)
    requires multiset(s) == multiset(t)
    ensures Covers(s, x) <==> Covers(t, x)
  {
    assert forall sp :: sp in s <==> sp in multiset(s);
    assert forall sp :: sp in t <==> sp in multiset(t);
    if Covers(s, x) {
      var i :| 0 <= i < |s| && s[i].lo <= x <= s[i].hi;
      assert s[i] in t;
    }
    if Covers(t, x) {
      var i :| 0 <= i < |t| && t[i].lo <= x <= t[i].hi;
      assert t[i] in s;
    }
  }

  // ---- A set of code points has one normal form ----

  lemma NormalTail(s: seq<Span>, t: seq<Span>)
    requires Normal(s) && Normal(t) && s != [] && t != [] && s[0] == t[0]
    requires forall x :: Covers(s, x) <==> Covers(t, x)
    ensures Normal(s[1..]) && Normal(t[1..])
    ensures forall x :: Covers(s[1..], x) <==> Covers(t[1..], x)
  {
    forall x ensures Covers(s[1..], x) <==> Covers(s, x) && x > s[0].hi {
      CoversTail(s, x);
    }
    forall x ensures Covers(t[1..], x) <==> Covers(t, x) && x > t[0].hi {
      CoversTail(t, x);
    }
  }

  lemma CoversTail(s: seq<Span>, x: int)
    requires Normal(s) && s != []
    ensures Covers(s[1..], x) <==> Covers(s, x) && x > s[0].hi
  {
    if i :| 0 <= i < |s[1..]| && s[1..][i].lo <= x <= s[1..][i].hi {
      assert s[i + 1].lo <= x;
    }
    if i :| 0 <= i < |s| && s[i].lo <= x <= s[i].hi && x > s[0].hi {
      assert s[1..][i - 1] == s[i];
    }
  }

  lemma FirstSpan(s: seq<Span>, t: seq<Span>)
    requires Normal(s) && Normal(t) && s != [] && t != []
    requires forall x :: Covers(s, x) ==> Covers(t, x)
    ensures t[0].lo <= s[0].lo
    ensures t[0].lo == s[0].lo ==> s[0].hi <= t[0].hi
  {
    assert Covers(s, s[0].lo);
    if t[0].lo == s[0].lo && t[0].hi < s[0].hi {
      assert Covers(s, t[0].hi + 1);
    }
  }

  /** Two normal forms of the same set of code points are equal. */
  lemma {:induction false} NormalIsUnique(s: seq<Span>, t: seq<Span>)
    requires Normal(s) && Normal(t)
    requires forall x :: Covers(s, x) <==> Covers(t, x)
    ensures s == t
    decreases |s|
  {
    if s == [] {
      assert t != [] ==> Covers(t, t[0].lo);
    } else {
      assert Covers(s, s[0].lo);
      FirstSpan(s, t);
      FirstSpan(t, s);
      NormalTail(s, t);
      NormalIsUnique(s[1..], t[1..]);
      assert s == [s[0]] + s[1..] && t == [t[0]] + t[1..];
    }
  }

  // ---- In place ----

  method Exchange(a: array<Span>, i: nat, j: nat)
    requires i <= j < a.Length
    modifies a
    ensures a[i] == old(a[j]) && a[j] == old(a[i])
    ensures forall k :: 0 <= k < a.Length && k != i && k != j ==> a[k] == old(a[k])
    ensures multiset(a[..]) == multiset(old(a[..]))
  {
    a[i], a[j] := a[j], a[i];
  }

  method Least(a: array<Span>, i: nat) returns (least: nat)
    requires i < a.Length
    ensures i <= least < a.Length && forall k :: i <= k < a.Length ==> a[least].lo <= a[k].lo
  {
    least := i;
    for k := i + 1 to a.Length
      invariant i <= least < a.Length
      invariant forall j :: i <= j < k ==> a[least].lo <= a[j].lo
    {
      if a[k].lo < a[least].lo {
        least := k;
      }
    }
  }

  /** sort.Slice by lo: some sorted rearrangement. */
  method SortByLo(a: array<Span>)
    modifies a
    ensures SortedByLo(a[..]) && multiset(a[..]) == multiset(old(a[..]))
  {
    for i := 0 to a.Length
      invariant multiset(a[..]) == multiset(old(a[..]))
      invariant forall j, k :: 0 <= j < i && j < k < a.Length ==> a[j].lo <= a[k].lo
    {
      var least := Least(a, i);
      Exchange(a, i, least);
    }
  }

  /** last stretched over a span that overlaps or touches its end. */
  function Extended(last: Span, sp: Span): (longer: Span) {
    Span(last.lo, if sp.hi > last.hi then sp.hi else last.hi)
  }

  lemma ExtendedCovers(front: seq<Span>, last: Span, sp: Span, x: int)
    requires last.lo <= sp.lo <= last.hi + 1
    ensures Covers(front + [Extended(last, sp)], x) <==> Covers(front + [last], x) || sp.lo <= x <= sp.hi
  {
    CoversPlus(front, last, x);
    CoversPlus(front, Extended(last, sp), x);
  }

  /** The merged spans once one more is read. */
  function Absorbed(merged: seq<Span>, sp: Span): (more: seq<Span>) {
    var last := |merged| - 1;
    if merged != [] && merged[last].hi + 1 >= sp.lo then merged[..last] + [Extended(merged[last], sp)] else merged + [sp]
  }

  /** merged covers what the first i spans of s do, begins no span after the next
      one does, and is in normal form if s is well formed. */
  ghost predicate MergedUpTo(merged: seq<Span>, s: seq<Span>, i: nat)
    requires i <= |s|
  {
    && (forall x :: Covers(merged, x) <==> Covers(s[..i], x))
    && (forall k :: 0 <= k < |merged| && i < |s| ==> merged[k].lo <= s[i].lo)
    && (WellFormed(s) ==> Normal(merged))
  }

  lemma AbsorbedCovers(merged: seq<Span>, s: seq<Span>, i: nat, x: int)
    requires i < |s| && MergedUpTo(merged, s, i)
    ensures Covers(Absorbed(merged, s[i]), x) <==> Covers(s[..i + 1], x)
  {
    var sp, last := s[i], |merged| - 1;
    assert s[..i + 1] == s[..i] + [sp];
    CoversPlus(s[..i], sp, x);
    CoversPlus(merged, sp, x);
    if merged != [] && merged[last].hi + 1 >= sp.lo {
      assert merged == merged[..last] + [merged[last]];
      ExtendedCovers(merged[..last], merged[last], sp, x);
    }
  }

  lemma AbsorbsNext(merged: seq<Span>, s: seq<Span>, i: nat)
    requires i < |s| && SortedByLo(s) && MergedUpTo(merged, s, i)
    ensures MergedUpTo(Absorbed(merged, s[i]), s, i + 1)
  {
    forall x ensures Covers(Absorbed(merged, s[i]), x) <==> Covers(s[..i + 1], x) {
      AbsorbedCovers(merged, s, i, x);
    }
  }

  /** The merge loop: reads each span of the array while writing the merged
      ones over its front. */
  method MergeInPlace(a: array<Span>) returns (n: nat)
    requires SortedByLo(a[..])
    modifies a
    ensures n <= a.Length
    ensures forall x :: Covers(a[..n], x) <==> Covers(old(a[..]), x)
    ensures WellFormed(old(a[..])) ==> Normal(a[..n])
  {
    n := 0;
    ghost var s := a[..];
    for i := 0 to a.Length
      invariant n <= i
      invariant forall k :: i <= k < a.Length ==> a[k] == s[k]
      invariant MergedUpTo(a[..n], s, i)
    {
      var sp := a[i];
      ghost var merged := a[..n];
      AbsorbsNext(merged, s, i);
      if n > 0 && a[n - 1].hi + 1 >= sp.lo {
        if sp.hi > a[n - 1].hi {
          a[n - 1] := Span(a[n - 1].lo, sp.hi);
        }
      } else {
        a[n] := sp;
        n := n + 1;
      }
      assert a[..n] == Absorbed(merged, sp);
    }
    assert s[..a.Length] == s;
  }

  /** parseData's last step for one property: sort, then merge in place. */
  method Normalize(a: array<Span>) returns (n: nat)
    modifies a
    ensures n <= a.Length
    ensures forall x :: Covers(a[..n], x) <==> Covers(old(a[..]), x)
    ensures WellFormed(old(a[..])) ==> Normal(a[..n])
    ensures WellFormed(old(a[..])) ==>
              forall t :: Normal(t) && (forall x :: Covers(t, x) <==> Covers(old(a[..]), x)) ==> a[..n] == t
  {
    ghost var s := a[..];
    SortByLo(a);
    forall x ensures Covers(a[..], x) <==> Covers(s, x) {
      CoversSameElements(a[..], s, x);
    }
    SameElementsWellFormed(s, a[..]);
    n := MergeInPlace(a);
    ghost var merged := a[..n];
    if WellFormed(s) {
      forall t | Normal(t) && (forall x :: Covers(t, x) <==> Covers(s, x)) ensures merged == t {
        NormalIsUnique(merged, t);
      }
    }
  }

  lemma SameElementsWellFormed(s: seq<Span>, t: seq<Span>)
    requires multiset(s) == multiset(t)
    ensures WellFormed(s) ==> WellFormed(t)
  {
    forall i | 0 <= i < |t| ensures t[i] in s {
      assert t[i] in multiset(t);
    }
  }

  const PLANE := 0x10000

  /** r16 and r32 are the halves of the first i spans, and end before the next. */
  ghost predicate SplitUpTo(r16: seq<Span>, r32: seq<Span>, spans: seq<Span>, i: nat)
    requires i <= |spans|
  {
    && (forall x :: Covers(r16, x) <==> Covers(spans[..i], x) && x < PLANE)
    && (forall x :: Covers(r32, x) <==> Covers(spans[..i], x) && x >= PLANE)
    && Normal(r16) && Normal(r32)
    && (forall k :: 0 <= k < |r16| ==> r16[k].hi < PLANE && (i < |spans| ==> r16[k].hi + 1 < spans[i].lo))
    && (forall k :: 0 <= k < |r32| ==> r32[k].lo >= PLANE && (i < |spans| ==> r32[k].hi + 1 < spans[i].lo))
  }

  /** What a span puts into the half below PLANE, and into the other. */
  function Below(sp: Span): (low: seq<Span>) {
    if sp.hi < PLANE then [sp] else if sp.lo >= PLANE then [] else [Span(sp.lo, PLANE - 1)]
  }

  function FromPlane(sp: Span): (high: seq<Span>) {
    if sp.hi < PLANE then [] else if sp.lo >= PLANE then [sp] else [Span(PLANE, sp.hi)]
  }

  lemma HalvesCover(r: seq<Span>, sp: Span, x: int)
    requires sp.lo <= sp.hi
    ensures Covers(r + Below(sp), x) <==> Covers(r, x) || (sp.lo <= x <= sp.hi && x < PLANE)
    ensures Covers(r + FromPlane(sp), x) <==> Covers(r, x) || (sp.lo <= x <= sp.hi && x >= PLANE)
  {
    assert r + [] == r;
    CoversPlus(r, sp, x);
    CoversPlus(r, Span(sp.lo, PLANE - 1), x);
    CoversPlus(r, Span(PLANE, sp.hi), x);
  }

  lemma SplitsNext(r16: seq<Span>, r32: seq<Span>, spans: seq<Span>, i: nat)
    requires i < |spans| && Normal(spans) && SplitUpTo(r16, r32, spans, i)
    ensures SplitUpTo(r16 + Below(spans[i]), r32 + FromPlane(spans[i]), spans, i + 1)
  {
    var sp := spans[i];
    assert spans[..i + 1] == spans[..i] + [sp];
    forall x
      ensures Covers(r16 + Below(sp), x) <==> Covers(spans[..i + 1], x) && x < PLANE
      ensures Covers(r32 + FromPlane(sp), x) <==> Covers(spans[..i + 1], x) && x >= PLANE
    {
      CoversPlus(spans[..i], sp, x);
      HalvesCover(r16, sp, x);
      HalvesCover(r32, sp, x);
    }
  }

  /** writeTable: the spans below 0x10000 and the spans from it on. */
  method Split(spans: seq<Span>) returns (r16: seq<Span>, r32: seq<Span>)
    requires Normal(spans)
    ensures forall x :: Covers(r16, x) <==> Covers(spans, x) && x < 0x10000
    ensures forall x :: Covers(r32, x) <==> Covers(spans, x) && x >= 0x10000
    ensures Normal(r16) && Normal(r32)
    ensures forall sp :: sp in r16 ==> sp.hi < 0x10000
    ensures forall sp :: sp in r32 ==> sp.lo >= 0x10000
  {
    r16, r32 := [], [];
    for i := 0 to |spans|
      invariant SplitUpTo(r16, r32, spans, i)
    {
      var sp := spans[i];
      SplitsNext(r16, r32, spans, i);
      ghost var low, high := r16 + Below(sp), r32 + FromPlane(sp);
      if sp.hi < PLANE {
        r16 := r16 + [sp];
      } else if sp.lo >= PLANE {
        r32 := r32 + [sp];
      } else {
        r16 := r16 + [Span(sp.lo, PLANE - 1)];
        r32 := r32 + [Span(PLANE, sp.hi)];
      }
      assert r16 == low && r32 == high;
    }
    assert spans[..|spans|] == spans;
  }
}
