/**
 Effective reactions (internal/handlers/reactions.go): each reactor's latest
 reaction on a subject, grouped by emoji. Addresses are already lower-cased.
*/
module Reactions {
  import opened Basics

  datatype Row = Row(subject: nat, msgId: nat, from: string, time: int, hash: seq<nat>, emoji: string)

  datatype Reaction = Reaction(emoji: string, from: seq<string>)

  // ---- Which row supersedes which ----

  /** bytes.Compare(a, b) > 0 */
  predicate HashAbove(a: seq<nat>, b: seq<nat>)
    decreases |a|
  {
    a != [] && (b == [] || a[0] > b[0] || (a[0] == b[0] && HashAbove(a[1..], b[1..])))
  }

  predicate Newer(a: Row, b: Row) {
    if a.time != b.time then a.time > b.time else HashAbove(a.hash, b.hash)
  }

  /** The order of display: time, then message id. */
  predicate Before(a: Row, b: Row) {
    a.time < b.time || (a.time == b.time && a.msgId < b.msgId)
  }

  lemma {:induction false} HashAboveIsOrder(a: seq<nat>, b: seq<nat>, c: seq<nat>)
    ensures !HashAbove(a, a)
    ensures HashAbove(a, b) && HashAbove(b, c) ==> HashAbove(a, c)
    ensures HashAbove(a, b) ==> !HashAbove(b, a)
    ensures a != b ==> HashAbove(a, b) || HashAbove(b, a)
    decreases |a|
  {
    if a != [] {
      HashAboveIsOrder(a[1..], if b == [] then [] else b[1..], if c == [] then [] else c[1..]);
      if b != [] {
        assert a == [a[0]] + a[1..] && b == [b[0]] + b[1..];
      }
    }
  }

  lemma NewerIsOrder(a: Row, b: Row, c: Row)
    ensures !Newer(a, a)
    ensures Newer(a, b) && Newer(b, c) ==> Newer(a, c)
    ensures !Newer(a, b) && !Newer(b, c) ==> !Newer(a, c)
    ensures !Newer(a, b) && !Newer(b, a) <==> a.time == b.time && a.hash == b.hash
  {
    HashAboveIsOrder(a.hash, b.hash, c.hash);
    HashAboveIsOrder(b.hash, a.hash, c.hash);
    HashAboveIsOrder(a.hash, c.hash, b.hash);
    HashAboveIsOrder(c.hash, b.hash, a.hash);
  }

  // ---- The row the scans keep ----

  predicate By(r: Row, subject: nat, from: string) {
    r.subject == subject && r.from == from
  }

  /** One turn of a scan: the kept row gives way only to a newer one. */
  function Keep(current: Option<Row>, r: Row): (kept: Option<Row>) {
    if current.None? || Newer(r, current.value) then Some(r) else current
  }

  /** What scanning rows from the front keeps for one reactor on one subject. */
  function Winner(rows: seq<Row>, subject: nat, from: string): (kept: Option<Row>)
    decreases |rows|
  {
    if rows == [] then None
    else
      var before := Winner(rows[..|rows| - 1], subject, from);
      var r := rows[|rows| - 1];
      if By(r, subject, from) then Keep(before, r) else before
  }

  lemma WinnerNext(rows: seq<Row>, r: Row, subject: nat, from: string)
    ensures Winner(rows + [r], subject, from)
            == if By(r, subject, from) then Keep(Winner(rows, subject, from), r) else Winner(rows, subject, from)
  {
    assert (rows + [r])[..|rows|] == rows;
  }

  /** The kept row is one of the reactor's that nothing supersedes; and if the
      first row is such a one, it is kept. */
  lemma {:induction false} WinnerIsLatest(rows: seq<Row>, subject: nat, from: string)
    ensures Winner(rows, subject, from).None? <==> forall r :: r in rows ==> !By(r, subject, from)
    ensures var w := Winner(rows, subject, from);
            w.Some? ==> w.value in rows && By(w.value, subject, from)
                        && forall r :: r in rows && By(r, subject, from) ==> !Newer(r, w.value)
    ensures rows != [] && By(rows[0], subject, from) && (forall r :: r in rows && By(r, subject, from) ==> !Newer(r, rows[0]))
            ==> Winner(rows, subject, from) == Some(rows[0])
    decreases |rows|
  {
    if rows != [] {
      var front, r := rows[..|rows| - 1], rows[|rows| - 1];
      assert rows == front + [r];
      WinnerIsLatest(front, subject, from);
      forall x, y ensures Newer(x, y) && !Newer(r, x) ==> !Newer(r, y) || Newer(x, y)
        ensures !Newer(x, y) && Newer(r, y) ==> !Newer(x, r)
      {
        NewerIsOrder(x, r, y);
        NewerIsOrder(r, y, x);
        NewerIsOrder(x, y, r);
        NewerIsOrder(r, x, y);
      }
      NewerIsOrder(r, r, r);
    }
  }

  /** a is beyond b where they first differ, or goes on after all of b. */
  ghost predicate FirstDifferenceAbove(a: seq<nat>, b: seq<nat>) {
    exists i :: 0 <= i <= |b| && i < |a| && a[..i] == b[..i] && (i < |b| ==> a[i] > b[i])
  }

  lemma {:induction false} HashAboveIs(a: seq<nat>, b: seq<nat>)
    ensures HashAbove(a, b) <==> FirstDifferenceAbove(a, b)
    decreases |a|
  {
    if a != [] && b != [] {
      HashAboveIs(a[1..], b[1..]);
      if HashAbove(a[1..], b[1..]) && a[0] == b[0] {
        var i :| 0 <= i <= |b[1..]| && i < |a[1..]| && a[1..][..i] == b[1..][..i] && (i < |b[1..]| ==> a[1..][i] > b[1..][i]);
        SamePrefix(a, b, i + 1);
      }
      if FirstDifferenceAbove(a, b) {
        var i :| 0 <= i <= |b| && i < |a| && a[..i] == b[..i] && (i < |b| ==> a[i] > b[i]);
        if i > 0 {
          SamePrefix(a, b, i);
        }
      }
    } else if a != [] {
      assert a[..0] == b[..0];
    }
  }

  lemma SamePrefix(a: seq<nat>, b: seq<nat>, i: nat)
    requires 0 < i <= |a| && i <= |b|
    ensures a[..i] == b[..i] <==> a[0] == b[0] && a[1..][..i - 1] == b[1..][..i - 1]
  {
    assert a[..i] == [a[0]] + a[1..][..i - 1] && b[..i] == [b[0]] + b[1..][..i - 1];
  }

  /** A reactor's row is kept if each other one of its is earlier, or as late with
      a lower hash: where two rows' hashes first differ, the greater one wins. */
  lemma LatestIsKept(rows: seq<Row>, w: Row)
    requires w in rows
    requires forall r :: r in rows && r.subject == w.subject && r.from == w.from && r != w ==>
               r.time < w.time || (r.time == w.time && FirstDifferenceAbove(w.hash, r.hash))
    ensures Winner(rows, w.subject, w.from) == Some(w) && Shown(rows, w.subject, w.from) == w.emoji
  {
    WinnerIsLatest(rows, w.subject, w.from);
    var kept := Winner(rows, w.subject, w.from).value;
    HashAboveIs(w.hash, kept.hash);
  }

  /** Two different rows of the reactor's that nothing supersedes. */
  ghost predicate TopTie(rows: seq<Row>, subject: nat, from: string) {
    exists a, b :: a in rows && b in rows && a != b && Unbeaten(rows, a, subject, from) && Unbeaten(rows, b, subject, from)
  }

  ghost predicate Unbeaten(rows: seq<Row>, a: Row, subject: nat, from: string) {
    By(a, subject, from) && forall r :: r in rows && By(r, subject, from) ==> !Newer(r, a)
  }

  lemma SameElements(rows: seq<Row>, other: seq<Row>)
    requires multiset(rows) == multiset(other)
    ensures forall r :: r in rows <==> r in other
  {
    assert forall r :: r in rows <==> r in multiset(rows);
    assert forall r :: r in other <==> r in multiset(other);
  }

  /** Without a tie on time and hash at the top, the order of the rows does not matter. */
  lemma WinnerIgnoresOrder(rows: seq<Row>, other: seq<Row>, subject: nat, from: string)
    requires multiset(rows) == multiset(other) && !TopTie(rows, subject, from)
    ensures Winner(rows, subject, from) == Winner(other, subject, from)
  {
    SameElements(rows, other);
    WinnerIsLatest(rows, subject, from);
    WinnerIsLatest(other, subject, from);
    var a, b := Winner(rows, subject, from), Winner(other, subject, from);
    if a.Some? && b.Some? {
      assert Unbeaten(rows, a.value, subject, from) && Unbeaten(rows, b.value, subject, from);
    }
  }

  /** The emoji a reactor's effective reaction shows, or "" for none. */
  function Shown(rows: seq<Row>, subject: nat, from: string): (emoji: string) {
    var w := Winner(rows, subject, from);
    if w.None? then "" else w.value.emoji
  }

  /** Every row of the reactor's that nothing supersedes carries one emoji. */
  ghost predicate OneEmoji(rows: seq<Row>, subject: nat, from: string) {
    forall a, b :: a in rows && b in rows && Unbeaten(rows, a, subject, from) && Unbeaten(rows, b, subject, from)
      ==> a.emoji == b.emoji
  }

  ghost predicate ShownSettled(rows: seq<Row>, subject: nat, from: string) {
    forall other :: multiset(other) == multiset(rows) ==> Shown(other, subject, from) == Shown(rows, subject, from)
  }

  /** What a reactor is shown with does not depend on the order of the rows if
      and only if the rows tied at the top carry one emoji: otherwise whichever
      of them comes first decides. */
  lemma ShownSettledIff(rows: seq<Row>, subject: nat, from: string)
    ensures ShownSettled(rows, subject, from) <==> OneEmoji(rows, subject, from)
  {
    if OneEmoji(rows, subject, from) {
      forall other | multiset(other) == multiset(rows) ensures Shown(other, subject, from) == Shown(rows, subject, from) {
        ShownIgnoresOrder(rows, other, subject, from);
      }
    } else {
      var a, b :| a in rows && b in rows && Unbeaten(rows, a, subject, from) && Unbeaten(rows, b, subject, from)
                  && a.emoji != b.emoji;
      var one := ToFront(rows, a);
      var other := ToFront(rows, b);
      SameElements(rows, one);
      SameElements(rows, other);
      WinnerIsLatest(one, subject, from);
      WinnerIsLatest(other, subject, from);
      assert Shown(one, subject, from) != Shown(other, subject, from);
    }
  }

  lemma ShownIgnoresOrder(rows: seq<Row>, other: seq<Row>, subject: nat, from: string)
    requires multiset(other) == multiset(rows) && OneEmoji(rows, subject, from)
    ensures Shown(other, subject, from) == Shown(rows, subject, from)
  {
    SameElements(rows, other);
    WinnerIsLatest(rows, subject, from);
    WinnerIsLatest(other, subject, from);
    var a, b := Winner(rows, subject, from), Winner(other, subject, from);
    if a.Some? && b.Some? {
      assert Unbeaten(rows, a.value, subject, from) && Unbeaten(rows, b.value, subject, from);
    }
  }

  /** Of the rows tied at the top the first is kept. */
  lemma {:induction false} WinnerIsFirst(rows: seq<Row>, subject: nat, from: string) returns (i: nat)
    requires Winner(rows, subject, from).Some?
    ensures i < |rows| && Winner(rows, subject, from).value == rows[i]
    ensures forall j :: 0 <= j < i ==> !Unbeaten(rows, rows[j], subject, from)
    decreases |rows|
  {
    var front, r := rows[..|rows| - 1], rows[|rows| - 1];
    var before := Winner(front, subject, from);
    WinnerIsLatest(front, subject, from);
    WinnerIsLatest(rows, subject, from);
    i := |rows| - 1;
    if By(r, subject, from) && Keep(before, r) == Some(r) && before != Some(r) {
      forall j | 0 <= j < i ensures !Unbeaten(rows, rows[j], subject, from) {
        assert front[j] in front && r in rows;
        if By(front[j], subject, from) {
          NewerIsOrder(r, front[j], before.value);
        }
      }
    } else {
      i := WinnerIsFirst(front, subject, from);
      forall j | 0 <= j < i ensures !Unbeaten(rows, rows[j], subject, from) {
        assert front[j] == rows[j] && forall x :: x in front ==> x in rows;
      }
    }
  }

  /** The order loadReactionRows asks for within one subject: time, then id. */
  predicate Loaded(rows: seq<Row>, subject: nat) {
    forall i, j :: 0 <= i < j < |rows| && rows[i].subject == rows[j].subject == subject ==>
      rows[i].time < rows[j].time || (rows[i].time == rows[j].time && rows[i].msgId < rows[j].msgId)
  }

  /** As the rows are loaded, a tie is settled for the lowest message id. */
  lemma LoadedTieKeepsLowestId(rows: seq<Row>, subject: nat, from: string, r: Row)
    requires Loaded(rows, subject) && r in rows && Unbeaten(rows, r, subject, from)
    ensures Winner(rows, subject, from).Some? && Winner(rows, subject, from).value.msgId <= r.msgId
  {
    WinnerIsLatest(rows, subject, from);
    var i := WinnerIsFirst(rows, subject, from);
    var k :| 0 <= k < |rows| && rows[k] == r;
    NewerIsOrder(r, rows[i], r);
  }

  lemma ToFront(rows: seq<Row>, a: Row) returns (moved: seq<Row>)
    requires a in rows
    ensures multiset(moved) == multiset(rows) && moved != [] && moved[0] == a
  {
    var i :| 0 <= i < |rows| && rows[i] == a;
    moved := [a] + rows[..i] + rows[i + 1..];
    assert rows == rows[..i] + [a] + rows[i + 1..];
  }

  // ---- Order of display ----

  ghost predicate KeysDistinct(rows: set<Row>) {
    forall a, b :: a in rows && b in rows && a != b ==> a.msgId != b.msgId
  }

  predicate IsFirst(rows: set<Row>, a: Row) {
    a in rows && forall b :: b in rows && b != a ==> Before(a, b)
  }

  lemma FirstExists(rows: set<Row>)
    requires rows != {} && KeysDistinct(rows)
    ensures exists a :: IsFirst(rows, a)
  {
    var a :| a in rows;
    if rows == {a} {
      assert IsFirst(rows, a);
    } else {
      FirstExists(rows - {a});
      var b :| IsFirst(rows - {a}, b);
      assert forall x :: x in rows ==> x == a || x in rows - {a};
      assert IsFirst(rows, if Before(a, b) then a else b);
    }
  }

  /** sort.Slice by time, then message id. */
  ghost function Sorted(rows: set<Row>): (r: seq<Row>)
    requires KeysDistinct(rows)
  {
    if rows == {} then []
    else
      FirstExists(rows);
      var a :| IsFirst(rows, a);
      [a] + Sorted(rows - {a})
  }

  lemma {:induction false} SortedIs(rows: set<Row>)
    requires KeysDistinct(rows)
    ensures forall r :: r in Sorted(rows) <==> r in rows
    ensures forall i, j :: 0 <= i < j < |Sorted(rows)| ==> Before(Sorted(rows)[i], Sorted(rows)[j])
  {
    if rows != {} {
      FirstExists(rows);
      var a :| IsFirst(rows, a) && Sorted(rows) == [a] + Sorted(rows - {a});
      SortedIs(rows - {a});
    }
  }

  // ---- Grouping ----

  function IndexOf(groups: seq<Reaction>, emoji: string): (i: nat)
    ensures i <= |groups| && (i < |groups| ==> groups[i].emoji == emoji)
    ensures forall j :: 0 <= j < i ==> groups[j].emoji != emoji
  {
    if groups == [] then 0
    else if groups[0].emoji == emoji then 0
    else 1 + IndexOf(groups[1..], emoji)
  }

  /** One turn of the grouping loop. */
  function Grouped(groups: seq<Reaction>, r: Row): (result: seq<Reaction>) {
    var i := IndexOf(groups, r.emoji);
    if i < |groups| then groups[i := Reaction(r.emoji, groups[i].from + [r.from])]
    else groups + [Reaction(r.emoji, [r.from])]
  }

  function GroupsOf(eff: seq<Row>): (groups: seq<Reaction>)
    decreases |eff|
  {
    if eff == [] then [] else Grouped(GroupsOf(eff[..|eff| - 1]), eff[|eff| - 1])
  }

  /** The reactors of one emoji, in the order of the rows. */
  function Reactors(eff: seq<Row>, emoji: string): (names: seq<string>)
    decreases |eff|
  {
    if eff == [] then []
    else Reactors(eff[..|eff| - 1], emoji) + if eff[|eff| - 1].emoji == emoji then [eff[|eff| - 1].from] else []
  }

  /** The emoji in the order in which they first occur. */
  function FirstSeen(eff: seq<Row>): (names: seq<string>)
    decreases |eff|
  {
    if eff == [] then []
    else
      var before := FirstSeen(eff[..|eff| - 1]);
      before + if eff[|eff| - 1].emoji in before then [] else [eff[|eff| - 1].emoji]
  }

  /** Each emoji that occurs is seen first exactly once. */
  lemma {:induction false} FirstSeenIs(eff: seq<Row>)
    ensures forall i, j :: 0 <= i < j < |FirstSeen(eff)| ==> FirstSeen(eff)[i] != FirstSeen(eff)[j]
    ensures forall e :: e in FirstSeen(eff) <==> exists k :: 0 <= k < |eff| && eff[k].emoji == e
    decreases |eff|
  {
    if eff != [] {
      var front, r := eff[..|eff| - 1], eff[|eff| - 1];
      FirstSeenIs(front);
      assert forall k :: 0 <= k < |front| ==> front[k] == eff[k];
      assert eff[|eff| - 1].emoji == r.emoji;
    }
  }

  lemma {:induction false} NoReactors(eff: seq<Row>, emoji: string)
    requires forall k :: 0 <= k < |eff| ==> eff[k].emoji != emoji
    ensures Reactors(eff, emoji) == []
    decreases |eff|
  {
    if eff != [] {
      NoReactors(eff[..|eff| - 1], emoji);
    }
  }

  /** groups has one group for each emoji, in the order of first occurrence,
      listing all its reactors in the order of the rows. */
  predicate GroupsFor(groups: seq<Reaction>, eff: seq<Row>) {
    && |groups| == |FirstSeen(eff)|
    && forall i :: 0 <= i < |groups| ==> groups[i] == Reaction(FirstSeen(eff)[i], Reactors(eff, FirstSeen(eff)[i]))
  }

  lemma NextReactor(front: seq<Row>, r: Row, emoji: string)
    ensures Reactors(front + [r], emoji) == Reactors(front, emoji) + if emoji == r.emoji then [r.from] else []
  {
    assert (front + [r])[..|front|] == front;
  }

  lemma NextSeen(front: seq<Row>, r: Row)
    ensures FirstSeen(front + [r]) == FirstSeen(front) + if r.emoji in FirstSeen(front) then [] else [r.emoji]
  {
    assert (front + [r])[..|front|] == front;
  }

  /** An emoji seen before: its group grows. */
  lemma GroupGrows(groups: seq<Reaction>, front: seq<Row>, r: Row)
    requires GroupsFor(groups, front) && r.emoji in FirstSeen(front)
    ensures GroupsFor(Grouped(groups, r), front + [r])
  {
    var seen, at := FirstSeen(front), IndexOf(groups, r.emoji);
    FirstSeenIs(front);
    NextSeen(front, r);
    var i :| 0 <= i < |seen| && seen[i] == r.emoji;
    assert groups[i].emoji == r.emoji;
    forall k | 0 <= k < |seen|
      ensures Reactors(front + [r], seen[k]) == Reactors(front, seen[k]) + if k == at then [r.from] else []
    {
      NextReactor(front, r, seen[k]);
      assert groups[k].emoji == seen[k];
    }
  }

  /** A row of another emoji, and one of an emoji not seen before. */
  lemma NewEmoji(front: seq<Row>, r: Row)
    requires r.emoji !in FirstSeen(front)
    ensures FirstSeen(front + [r]) == FirstSeen(front) + [r.emoji]
    ensures Reactors(front + [r], r.emoji) == [r.from]
    ensures forall e :: e in FirstSeen(front) ==> Reactors(front + [r], e) == Reactors(front, e)
  {
    FirstSeenIs(front);
    NextSeen(front, r);
    NoReactors(front, r.emoji);
    NextReactor(front, r, r.emoji);
    forall e | e in FirstSeen(front) ensures Reactors(front + [r], e) == Reactors(front, e) {
      NextReactor(front, r, e);
    }
  }

  lemma NoIndex(groups: seq<Reaction>, r: Row)
    requires forall i :: 0 <= i < |groups| ==> groups[i].emoji != r.emoji
    ensures Grouped(groups, r) == groups + [Reaction(r.emoji, [r.from])]
  {
    assert IndexOf(groups, r.emoji) == |groups|;
  }

  lemma OneGroupMore(groups: seq<Reaction>, front: seq<Row>, r: Row)
    requires GroupsFor(groups, front) && r.emoji !in FirstSeen(front)
    ensures GroupsFor(groups + [Reaction(r.emoji, [r.from])], front + [r])
  {
    var seen, more := FirstSeen(front), groups + [Reaction(r.emoji, [r.from])];
    NewEmoji(front, r);
    forall i | 0 <= i < |more|
      ensures more[i] == Reaction(FirstSeen(front + [r])[i], Reactors(front + [r], FirstSeen(front + [r])[i]))
    {
      assert i < |groups| ==> seen[i] in seen;
    }
  }

  /** A new one: a group is added. */
  lemma GroupAdded(groups: seq<Reaction>, front: seq<Row>, r: Row)
    requires GroupsFor(groups, front) && r.emoji !in FirstSeen(front)
    ensures GroupsFor(Grouped(groups, r), front + [r])
  {
    forall i | 0 <= i < |groups| ensures groups[i].emoji != r.emoji {
      assert FirstSeen(front)[i] in FirstSeen(front);
    }
    NoIndex(groups, r);
    OneGroupMore(groups, front, r);
  }

  lemma GroupedIs(groups: seq<Reaction>, front: seq<Row>, r: Row)
    requires GroupsFor(groups, front)
    ensures GroupsFor(Grouped(groups, r), front + [r])
  {
    if r.emoji in FirstSeen(front) {
      GroupGrows(groups, front, r);
    } else {
      GroupAdded(groups, front, r);
    }
  }

  /** The grouping gives those groups. */
  lemma {:induction false} GroupsAre(eff: seq<Row>)
    ensures GroupsFor(GroupsOf(eff), eff)
    decreases |eff|
  {
    if eff != [] {
      var front, r := eff[..|eff| - 1], eff[|eff| - 1];
      GroupsAre(front);
      GroupedIs(GroupsOf(front), front, r);
      assert front + [r] == eff;
    }
  }

  lemma {:induction false} ReactorsAre(eff: seq<Row>, emoji: string, from: string)
    ensures from in Reactors(eff, emoji) <==> exists k :: 0 <= k < |eff| && eff[k].emoji == emoji && eff[k].from == from
    decreases |eff|
  {
    if eff != [] {
      ReactorsAre(eff[..|eff| - 1], emoji, from);
      assert forall k :: 0 <= k < |eff| - 1 ==> eff[..|eff| - 1][k] == eff[k];
    }
  }

  lemma {:induction false} ReactorsDistinct(eff: seq<Row>, emoji: string)
    requires forall i, j :: 0 <= i < j < |eff| ==> eff[i].from != eff[j].from
    ensures forall i, j :: 0 <= i < j < |Reactors(eff, emoji)| ==> Reactors(eff, emoji)[i] != Reactors(eff, emoji)[j]
    decreases |eff|
  {
    if eff != [] {
      var front := eff[..|eff| - 1];
      ReactorsDistinct(front, emoji);
      ReactorsAre(front, emoji, eff[|eff| - 1].from);
    }
  }

  // ---- The effective reactions on a subject ----

  ghost predicate DistinctIds(rows: seq<Row>) {
    forall a, b :: a in rows && b in rows && a != b ==> a.msgId != b.msgId
  }

  /** The kept rows that are not empty. */
  ghost function Kept(rows: seq<Row>, subject: nat): (r: set<Row>) {
    set r | r in rows && Winner(rows, subject, r.from) == Some(r) && r.emoji != ""
  }

  ghost function Effective(rows: seq<Row>, subject: nat): (groups: seq<Reaction>)
    requires DistinctIds(rows)
  {
    GroupsOf(Sorted(Kept(rows, subject)))
  }

  /** Rows in any order give the same reactions, when nobody's latest two tie. */
  lemma EffectiveIgnoresOrder(rows: seq<Row>, other: seq<Row>, subject: nat)
    requires multiset(rows) == multiset(other) && DistinctIds(rows) && DistinctIds(other)
    requires forall from :: !TopTie(rows, subject, from)
    ensures Effective(rows, subject) == Effective(other, subject)
  {
    SameElements(rows, other);
    forall r | r in rows ensures Winner(rows, subject, r.from) == Winner(other, subject, r.from) {
      WinnerIgnoresOrder(rows, other, subject, r.from);
    }
    assert Kept(rows, subject) == Kept(other, subject);
  }

  /** Groups of distinct emoji, none of them empty, nobody twice in one. */
  predicate WellGrouped(groups: seq<Reaction>) {
    && (forall i, j :: 0 <= i < j < |groups| ==> groups[i].emoji != groups[j].emoji)
    && (forall i :: 0 <= i < |groups| ==> groups[i].from != [])
    && (forall i, k, l :: 0 <= i < |groups| && 0 <= k < l < |groups[i].from| ==> groups[i].from[k] != groups[i].from[l])
  }

  ghost predicate Reacted(eff: seq<Row>, from: string, emoji: string) {
    exists k :: 0 <= k < |eff| && eff[k].emoji == emoji && eff[k].from == from
  }

  lemma GroupsAreWell(eff: seq<Row>)
    requires forall i, j :: 0 <= i < j < |eff| ==> eff[i].from != eff[j].from
    ensures WellGrouped(GroupsOf(eff))
  {
    GroupsAre(eff);
    FirstSeenIs(eff);
    var groups := GroupsOf(eff);
    forall i | 0 <= i < |groups|
      ensures groups[i].from != []
      ensures forall k, l :: 0 <= k < l < |groups[i].from| ==> groups[i].from[k] != groups[i].from[l]
    {
      ReactorsDistinct(eff, groups[i].emoji);
      assert FirstSeen(eff)[i] in FirstSeen(eff);
      var k :| 0 <= k < |eff| && eff[k].emoji == groups[i].emoji;
      ReactorsAre(eff, groups[i].emoji, eff[k].from);
    }
  }

  /** from is listed under emoji. */
  predicate ListedUnder(groups: seq<Reaction>, from: string, emoji: string) {
    exists i :: 0 <= i < |groups| && groups[i].emoji == emoji && from in groups[i].from
  }

  lemma ListedIs(eff: seq<Row>, from: string, emoji: string)
    ensures ListedUnder(GroupsOf(eff), from, emoji) <==> Reacted(eff, from, emoji)
  {
    GroupsAre(eff);
    FirstSeenIs(eff);
    ReactorsAre(eff, emoji, from);
    if Reacted(eff, from, emoji) {
      assert emoji in FirstSeen(eff);
      var i :| 0 <= i < |FirstSeen(eff)| && FirstSeen(eff)[i] == emoji;
      assert GroupsOf(eff)[i].emoji == emoji;
    }
  }

  /** A reactor whose latest reaction is not empty is listed exactly once, under
      that emoji; any other address is not listed at all. */
  lemma ListedOnce(rows: seq<Row>, subject: nat, from: string, emoji: string)
    requires DistinctIds(rows)
    ensures WellGrouped(Effective(rows, subject))
    ensures ListedUnder(Effective(rows, subject), from, emoji) <==> Shown(rows, subject, from) == emoji != ""
  {
    var kept := Kept(rows, subject);
    var eff := Sorted(kept);
    SortedIs(kept);
    forall i, j | 0 <= i < j < |eff| ensures eff[i].from != eff[j].from {
      assert eff[i] in kept && eff[j] in kept;
    }
    GroupsAreWell(eff);
    ListedIs(eff, from, emoji);
    WinnerIsLatest(rows, subject, from);
    if Reacted(eff, from, emoji) {
      var k :| 0 <= k < |eff| && eff[k].emoji == emoji && eff[k].from == from;
      assert eff[k] in kept;
    }
    if Shown(rows, subject, from) == emoji != "" {
      var w := Winner(rows, subject, from).value;
      assert w in kept && w in eff;
      var k :| 0 <= k < |eff| && eff[k] == w;
    }
  }

  ghost predicate SameListing(one: seq<Reaction>, other: seq<Reaction>) {
    forall from, emoji :: ListedUnder(one, from, emoji) <==> ListedUnder(other, from, emoji)
  }

  ghost predicate ListingSettled(rows: seq<Row>, subject: nat)
    requires DistinctIds(rows)
  {
    forall other :: multiset(other) == multiset(rows) && DistinctIds(other) ==>
      SameListing(Effective(rows, subject), Effective(other, subject))
  }

  ghost predicate SameShown(rows: seq<Row>, other: seq<Row>, subject: nat) {
    forall from :: Shown(rows, subject, from) == Shown(other, subject, from)
  }

  lemma SameListingIff(rows: seq<Row>, other: seq<Row>, subject: nat)
    requires DistinctIds(rows) && DistinctIds(other)
    ensures SameListing(Effective(rows, subject), Effective(other, subject))
            <==> SameShown(rows, other, subject)
  {
    var one, two := Effective(rows, subject), Effective(other, subject);
    forall from, emoji
      ensures ListedUnder(one, from, emoji) <==> Shown(rows, subject, from) == emoji != ""
      ensures ListedUnder(two, from, emoji) <==> Shown(other, subject, from) == emoji != ""
    {
      ListedOnce(rows, subject, from, emoji);
      ListedOnce(other, subject, from, emoji);
    }
    if SameListing(one, two) {
      forall from ensures Shown(rows, subject, from) == Shown(other, subject, from) {
        assert ListedUnder(one, from, Shown(rows, subject, from)) <==> ListedUnder(two, from, Shown(rows, subject, from));
        assert ListedUnder(one, from, Shown(other, subject, from)) <==> ListedUnder(two, from, Shown(other, subject, from));
      }
    }
  }

  /** Who is listed under which emoji is the same for every order of the rows if
      and only if no reactor's latest reactions tie with different emoji. */
  lemma ListingSettledIff(rows: seq<Row>, subject: nat)
    requires DistinctIds(rows)
    ensures ListingSettled(rows, subject) <==> forall from :: OneEmoji(rows, subject, from)
  {
    forall other | multiset(other) == multiset(rows)
      ensures DistinctIds(other)
      ensures SameListing(Effective(rows, subject), Effective(other, subject)) <==> SameShown(rows, other, subject)
    {
      SameElements(rows, other);
      SameListingIff(rows, other, subject);
    }
    if ListingSettled(rows, subject) {
      forall from ensures OneEmoji(rows, subject, from) {
        forall other | multiset(other) == multiset(rows)
          ensures Shown(other, subject, from) == Shown(rows, subject, from)
        {
          assert SameShown(rows, other, subject);
        }
        ShownSettledIff(rows, subject, from);
      }
    }
    if forall from :: OneEmoji(rows, subject, from) {
      forall other | multiset(other) == multiset(rows) ensures SameShown(rows, other, subject) {
        forall from ensures Shown(rows, subject, from) == Shown(other, subject, from) {
          ShownIgnoresOrder(rows, other, subject, from);
        }
      }
    }
  }

  // ---- The order of what is listed ----

  lemma {:induction false} ReactorsInOrder(eff: seq<Row>, emoji: string, k: nat, l: nat) returns (p: nat, q: nat)
    requires k < l < |Reactors(eff, emoji)|
    ensures p < q < |eff| && eff[p].emoji == emoji == eff[q].emoji
    ensures eff[p].from == Reactors(eff, emoji)[k] && eff[q].from == Reactors(eff, emoji)[l]
    decreases |eff|
  {
    var front, r := eff[..|eff| - 1], eff[|eff| - 1];
    var listed := Reactors(front, emoji);
    if l < |listed| {
      p, q := ReactorsInOrder(front, emoji, k, l);
    } else {
      q := |eff| - 1;
      ReactorsAre(front, emoji, listed[k]);
      p :| 0 <= p < |front| && front[p].emoji == emoji && front[p].from == listed[k];
    }
  }

  /** The first reactor listed under an emoji is the first row's that has it. */
  lemma {:induction false} FirstReactor(eff: seq<Row>, emoji: string) returns (p: nat)
    requires Reactors(eff, emoji) != []
    ensures p < |eff| && eff[p].emoji == emoji && eff[p].from == Reactors(eff, emoji)[0]
    ensures forall q :: 0 <= q < |eff| && eff[q].emoji == emoji ==> p <= q
    decreases |eff|
  {
    var front := eff[..|eff| - 1];
    assert forall q :: 0 <= q < |front| ==> front[q] == eff[q];
    if Reactors(front, emoji) == [] {
      p := |eff| - 1;
      forall q | 0 <= q < p && eff[q].emoji == emoji ensures false {
        ReactorsAre(front, emoji, front[q].from);
      }
    } else {
      p := FirstReactor(front, emoji);
    }
  }

  /** Of two emoji the one seen first has a row before every row of the other. */
  lemma {:induction false} FirstSeenInOrder(eff: seq<Row>, i: nat, j: nat) returns (p: nat)
    requires i < j < |FirstSeen(eff)|
    ensures p < |eff| && eff[p].emoji == FirstSeen(eff)[i]
    ensures forall q :: 0 <= q < |eff| && eff[q].emoji == FirstSeen(eff)[j] ==> p < q
    decreases |eff|
  {
    var front := eff[..|eff| - 1];
    var seen := FirstSeen(front);
    assert forall q :: 0 <= q < |front| ==> front[q] == eff[q];
    FirstSeenIs(front);
    if j < |seen| {
      p := FirstSeenInOrder(front, i, j);
    } else {
      assert seen[i] in seen;
      p :| 0 <= p < |front| && front[p].emoji == seen[i];
    }
  }

  /** f's and g's kept rows are in the order of display. */
  predicate KeptBefore(rows: seq<Row>, subject: nat, f: string, g: string) {
    var a, b := Winner(rows, subject, f), Winner(rows, subject, g);
    && a.Some? && b.Some?
    && (a.value.time < b.value.time || (a.value.time == b.value.time && a.value.msgId < b.value.msgId))
  }

  lemma EffIsKept(rows: seq<Row>, subject: nat) returns (eff: seq<Row>)
    requires DistinctIds(rows)
    ensures Effective(rows, subject) == GroupsOf(eff)
    ensures forall p, q :: 0 <= p < q < |eff| ==> Before(eff[p], eff[q])
    ensures forall p :: 0 <= p < |eff| ==> Winner(rows, subject, eff[p].from) == Some(eff[p])
  {
    eff := Sorted(Kept(rows, subject));
    SortedIs(Kept(rows, subject));
    forall p | 0 <= p < |eff| ensures Winner(rows, subject, eff[p].from) == Some(eff[p]) {
      assert eff[p] in Kept(rows, subject);
    }
  }

  /** Within a group the reactors stand in the order of their kept rows. */
  lemma ReactorsStandInOrder(rows: seq<Row>, subject: nat, i: nat, k: nat, l: nat)
    requires DistinctIds(rows) && i < |Effective(rows, subject)| && k < l < |Effective(rows, subject)[i].from|
    ensures KeptBefore(rows, subject, Effective(rows, subject)[i].from[k], Effective(rows, subject)[i].from[l])
  {
    var eff := EffIsKept(rows, subject);
    GroupsAre(eff);
    var p, q := ReactorsInOrder(eff, FirstSeen(eff)[i], k, l);
    assert Before(eff[p], eff[q]);
  }

  /** Groups stand in the order of their first effective reactions: the first
      reactor of one reacted before every reactor of a later one. */
  lemma GroupsStandInOrder(rows: seq<Row>, subject: nat, i: nat, j: nat, k: nat)
    requires DistinctIds(rows) && i < j < |Effective(rows, subject)| && k < |Effective(rows, subject)[j].from|
    ensures Effective(rows, subject)[i].from != []
    ensures KeptBefore(rows, subject, Effective(rows, subject)[i].from[0], Effective(rows, subject)[j].from[k])
  {
    var eff := EffIsKept(rows, subject);
    GroupsAre(eff);
    var one, other := FirstSeen(eff)[i], FirstSeen(eff)[j];
    var p := FirstSeenInOrder(eff, i, j);
    ReactorsAre(eff, one, eff[p].from);
    var first := FirstReactor(eff, one);
    var g := Reactors(eff, other)[k];
    ReactorsAre(eff, other, g);
    var q :| 0 <= q < |eff| && eff[q].emoji == other && eff[q].from == g;
    assert first <= p < q;
    assert Before(eff[first], eff[q]);
  }

  // ---- The reduction, as it runs ----

  /** The kept rows of the reactors of one subject. */
  ghost predicate Reduces(reactors: map<string, Row>, rows: seq<Row>, subject: nat) {
    forall from :: if from in reactors then Winner(rows, subject, from) == Some(reactors[from])
                   else Winner(rows, subject, from) == None
  }

  /** The first loop: for each subject, each reactor's kept row. */
  method Reduce(rows: seq<Row>) returns (bySubject: map<nat, map<string, Row>>)
    ensures forall subject :: Reduces(if subject in bySubject then bySubject[subject] else map[], rows, subject)
  {
    bySubject := map[];
    for i := 0 to |rows|
      invariant forall subject :: Reduces(if subject in bySubject then bySubject[subject] else map[], rows[..i], subject)
    {
      var r := rows[i];
      assert rows[..i + 1] == rows[..i] + [r];
      forall subject, from
        ensures Winner(rows[..i + 1], subject, from)
                == if By(r, subject, from) then Keep(Winner(rows[..i], subject, from), r)
                   else Winner(rows[..i], subject, from)
      {
        WinnerNext(rows[..i], r, subject, from);
      }
      var reactors := if r.subject in bySubject then bySubject[r.subject] else map[];
      ghost var had := reactors;
      assert Reduces(had, rows[..i], r.subject);
      if r.from !in reactors || Newer(r, reactors[r.from]) {
        reactors := reactors[r.from := r];
      }
      assert Reduces(reactors, rows[..i + 1], r.subject);
      bySubject := bySubject[r.subject := reactors];
    }
    assert rows[..|rows|] == rows;
  }

  /** The sort, and the order it settles whatever order the map gave. */
  method SortRows(rows: set<Row>) returns (s: seq<Row>)
    requires KeysDistinct(rows)
    ensures s == Sorted(rows)
  {
    s := [];
    var rest := rows;
    while rest != {}
      invariant rest <= rows && s + Sorted(rest) == Sorted(rows)
    {
      FirstExists(rest);
      var a :| IsFirst(rest, a);
      FirstIsSorted(rest, a);
      assert s + Sorted(rest) == s + [a] + Sorted(rest - {a});
      s := s + [a];
      rest := rest - {a};
    }
  }

  lemma FirstIsSorted(rows: set<Row>, a: Row)
    requires KeysDistinct(rows) && IsFirst(rows, a)
    ensures Sorted(rows) == [a] + Sorted(rows - {a})
  {
    var b :| IsFirst(rows, b) && Sorted(rows) == [b] + Sorted(rows - {b});
  }

  method GroupRows(eff: seq<Row>) returns (groups: seq<Reaction>)
    ensures groups == GroupsOf(eff)
  {
    groups := [];
    for i := 0 to |eff|
      invariant groups == GroupsOf(eff[..i])
    {
      assert eff[..i + 1][..i] == eff[..i];
      ghost var before := groups;
      var at := IndexOf(groups, eff[i].emoji);
      if at == |groups| {
        groups := groups + [Reaction(eff[i].emoji, [])];
      }
      groups := groups[at := Reaction(groups[at].emoji, groups[at].from + [eff[i].from])];
      assert [] + [eff[i].from] == [eff[i].from];
      assert groups == Grouped(before, eff[i]);
    }
    assert eff[..|eff|] == eff;
  }

  /** effectiveReactions: the reactors and subjects are visited in whatever
      order the maps give them. */
  method EffectiveReactions(rows: seq<Row>) returns (result: map<nat, seq<Reaction>>)
    requires DistinctIds(rows)
    ensures forall subject :: if subject in result then result[subject] == Effective(rows, subject) != []
                              else Effective(rows, subject) == []
  {
    var bySubject := Reduce(rows);
    result := map[];
    var rest := bySubject.Keys;
    while rest != {}
      invariant rest <= bySubject.Keys
      invariant forall subject :: subject in bySubject && subject !in rest ==>
                  if subject in result then result[subject] == Effective(rows, subject) != []
                  else Effective(rows, subject) == []
      invariant result.Keys <= bySubject.Keys - rest
    {
      var subject :| subject in rest;
      rest := rest - {subject};
      var reactors := bySubject[subject];
      assert Reduces(reactors, rows, subject);
      var eff := set from | from in reactors && reactors[from].emoji != "" :: reactors[from];
      KeptIsValues(rows, subject, reactors);
      var sorted := SortRows(eff);
      var groups := GroupRows(sorted);
      if |groups| > 0 {
        result := result[subject := groups];
      }
    }
    forall subject | subject !in bySubject ensures Effective(rows, subject) == [] {
      assert Reduces(map[], rows, subject);
      KeptIsValues(rows, subject, map[]);
    }
  }

  lemma KeptIsValues(rows: seq<Row>, subject: nat, reactors: map<string, Row>)
    requires Reduces(reactors, rows, subject)
    ensures Kept(rows, subject) == set from | from in reactors && reactors[from].emoji != "" :: reactors[from]
  {
    forall from | from in reactors ensures reactors[from] in rows && reactors[from].from == from {
      WinnerIsLatest(rows, subject, from);
    }
  }

  // ---- React ----

  /** React's own scan of the caller's rows, and whether it then sends nothing. */
  method ScanMine(mine: seq<Row>, subject: nat, from: string, want: string) returns (current: Option<Row>, idle: bool)
    requires forall r :: r in mine ==> By(r, subject, from)
    ensures current == Winner(mine, subject, from)
    ensures idle <==> Shown(mine, subject, from) == want
  {
    current := None;
    for i := 0 to |mine|
      invariant current == Winner(mine[..i], subject, from)
    {
      assert mine[..i + 1] == mine[..i] + [mine[i]];
      WinnerNext(mine[..i], mine[i], subject, from);
      if current.None? || Newer(mine[i], current.value) {
        current := Some(mine[i]);
      }
    }
    assert mine[..|mine|] == mine;
    idle := (current.Some? && current.value.emoji == want) || (current.None? && want == "");
  }

  function Mine(rows: seq<Row>, subject: nat, from: string): (r: seq<Row>)
    decreases |rows|
  {
    if rows == [] then []
    else Mine(rows[..|rows| - 1], subject, from) + if By(rows[|rows| - 1], subject, from) then [rows[|rows| - 1]] else []
  }

  /** Loading only the caller's rows picks the same row as loading everybody's. */
  lemma {:induction false} MineDecides(rows: seq<Row>, subject: nat, from: string)
    ensures Winner(Mine(rows, subject, from), subject, from) == Winner(rows, subject, from)
    ensures forall r :: r in Mine(rows, subject, from) ==> By(r, subject, from)
    decreases |rows|
  {
    if rows != [] {
      var front, r := rows[..|rows| - 1], rows[|rows| - 1];
      MineDecides(front, subject, from);
      if By(r, subject, from) {
        WinnerNext(Mine(front, subject, from), r, subject, from);
      } else {
        assert Mine(rows, subject, from) == Mine(front, subject, from);
      }
    }
  }

  /** Sending the wanted reaction with a later time than all of the caller's
      makes it the one shown, wherever the new row is loaded among the others. */
  lemma SendingShows(rows: seq<Row>, sent: Row, other: seq<Row>)
    requires multiset(other) == multiset(rows + [sent])
    requires forall r :: r in rows && By(r, sent.subject, sent.from) ==> r.time < sent.time
    ensures Shown(other, sent.subject, sent.from) == sent.emoji
  {
    SameElements(rows + [sent], other);
    assert (rows + [sent])[|rows|] == sent;
    assert sent in other;
    WinnerIsLatest(other, sent.subject, sent.from);
  }

  // ---- Who a reaction is sent to ----

  /** Where a first stands among participants. */
  ghost predicate FirstAt<A(!new)>(participants: seq<A>, a: A, p: int) {
    0 <= p < |participants| && participants[p] == a && a !in participants[..p]
  }

  /** a's first place is before b's. */
  ghost predicate StandsBefore<A(!new)>(participants: seq<A>, a: A, b: A) {
    exists p, q :: p < q && FirstAt(participants, a, p) && FirstAt(participants, b, q)
  }

  /** reactionRecipients: the participants in message order, each once, without
      the reactor. */
  method ReactionRecipients<A(==, !new)>(participants: seq<A>, reactor: A) returns (out: seq<A>)
    ensures forall a :: a in out <==> a in participants && a != reactor
    ensures forall i, j :: 0 <= i < j < |out| ==> out[i] != out[j] && StandsBefore(participants, out[i], out[j])
  {
    out := [];
    var seen := {reactor};
    for i := 0 to |participants|
      invariant forall a :: a in seen <==> a == reactor || a in participants[..i]
      invariant forall a :: a in out <==> a in seen && a != reactor
      invariant forall k, l :: 0 <= k < l < |out| ==> out[k] != out[l] && StandsBefore(participants, out[k], out[l])
    {
      assert participants[..i + 1] == participants[..i] + [participants[i]];
      var next := participants[i];
      if next !in seen {
        forall k | 0 <= k < |out| ensures StandsBefore(participants, out[k], next) {
          FirstPlace(participants[..i], out[k]);
          var p :| FirstAt(participants[..i], out[k], p);
          assert participants[..i][..p] == participants[..p];
          assert FirstAt(participants, out[k], p) && FirstAt(participants, next, i);
        }
        seen := seen + {next};
        out := out + [next];
      }
    }
    assert participants[..|participants|] == participants;
  }

  lemma FirstPlace<A(!new)>(participants: seq<A>, a: A)
    requires a in participants
    ensures exists p :: FirstAt(participants, a, p)
    decreases |participants|
  {
    var last := |participants| - 1;
    if a in participants[..last] {
      FirstPlace(participants[..last], a);
      var p :| FirstAt(participants[..last], a, p);
      assert participants[..last][..p] == participants[..p];
      assert FirstAt(participants, a, p);
    } else {
      assert FirstAt(participants, a, last);
    }
  }
}
