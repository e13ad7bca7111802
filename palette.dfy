/** The saved-colours list of the hexbot page: the pure list computations behind
    the Save and Remove buttons. A colour is the string the colour service
    returned; equality is exact string equality, as with a JavaScript Set and
    the `!==` of a filter. */
module Palette {

  type Colour = string

  /** No colour occurs twice. */
  predicate NoDuplicates(s: seq<Colour>) {
    forall i, j :: 0 <= i < j < |s| ==> s[i] != s[j]
  }

  /** The index of the first occurrence of `x` in `s`, or `|s|` when `x`
      does not occur. */
  function FirstIndex(s: seq<Colour>, x: Colour): (i: nat)
    ensures i <= |s| && x !in s[..i]
    ensures i < |s| <==> x in s
    ensures i < |s| ==> s[i] == x
  {
    if s == [] then 0
    else if s[0] == x then 0
    else
      var k := FirstIndex(s[1..], x);
      assert s[..k + 1] == [s[0]] + s[1..][..k];
      assert s == [s[0]] + s[1..];
      k + 1
  }

  /** The colours of `r` appear in the order of their first occurrences in `s`. */
  predicate InFirstOccurrenceOrder(r: seq<Colour>, s: seq<Colour>) {
    forall i, j :: 0 <= i < j < |r| ==> FirstIndex(s, r[i]) < FirstIndex(s, r[j])
  }

  /** `r` keeps some of the elements of `s`, in their relative order. */
  predicate IsSubsequence(r: seq<Colour>, s: seq<Colour>)
    decreases |s|
  {
    if r == [] then true
    else if s == [] then false
    else if r[0] == s[0] then IsSubsequence(r[1..], s[1..])
    else IsSubsequence(r, s[1..])
  }

  /** `Set.prototype.add` on an insertion-ordered set held as a sequence:
      a colour already present leaves the set as it is, a new one goes last. */
  function Insert(members: seq<Colour>, x: Colour): (r: seq<Colour>)
    ensures forall y :: y in r <==> y in members || y == x
    ensures NoDuplicates(members) ==> NoDuplicates(r)
  {
    if x in members then members else members + [x]
  }

  /** `Array.from(new Set(s))`: the set is built by adding the elements of `s`
      one by one from the left, then read back in insertion order. */
  function Distinct(s: seq<Colour>): (r: seq<Colour>)
    ensures NoDuplicates(r)
    ensures forall x :: x in r <==> x in s
    ensures |r| <= |s|
  {
    if s == [] then [] else Insert(Distinct(s[..|s| - 1]), s[|s| - 1])
  }

  /** The Save handler's new list: the current colour appended, then
      `Array.from(new Set(...))` (src/App.js line 41). */
  function SaveColour(saved: seq<Colour>, c: Colour): (r: seq<Colour>)
    ensures NoDuplicates(r)
    ensures forall x :: x in r <==> x in saved || x == c
    ensures |r| <= |saved| + 1
  {
    Distinct(saved + [c])
  }

  /** The Remove handler's new list: `saved.filter(d => d !== c)`
      (src/App.js line 45). */
  function RemoveColour(saved: seq<Colour>, c: Colour): (r: seq<Colour>)
    ensures c !in r
    ensures forall x :: x != c ==> (x in r <==> x in saved)
    ensures forall x :: multiset(r)[x] == if x == c then 0 else multiset(saved)[x]
  {
    if saved == [] then []
    else
      var rest := RemoveColour(saved[1..], c);
      assert saved == [saved[0]] + saved[1..];
      if saved[0] == c then rest else [saved[0]] + rest
  }

  // ---------------------------------------------------------------------------
  // Distinct against its reference description

  /** An index holding `x` with no `x` before it is the first index of `x`. */
  lemma FirstIndexUnique(s: seq<Colour>, x: Colour, i: nat)
    requires i < |s| && s[i] == x && x !in s[..i]
    ensures FirstIndex(s, x) == i
  {
  }

  lemma FirstIndexOfSnoc(p: seq<Colour>, x: Colour, y: Colour)
    requires y in p + [x]
    ensures y in p ==> FirstIndex(p + [x], y) == FirstIndex(p, y)
    ensures y !in p ==> FirstIndex(p + [x], y) == |p|
  {
    var s := p + [x];
    if y in p {
      var k := FirstIndex(p, y);
      assert s[..k] == p[..k];
      FirstIndexUnique(s, y, k);
    } else {
      assert s[..|p|] == p;
      FirstIndexUnique(s, y, |p|);
    }
  }

  /** `Distinct` lists the colours in the order they were first seen. */
  lemma {:induction false} DistinctInFirstOccurrenceOrder(s: seq<Colour>)
    ensures InFirstOccurrenceOrder(Distinct(s), s)
  {
    if s != [] {
      var p, x := s[..|s| - 1], s[|s| - 1];
      assert s == p + [x];
      var d := Distinct(p);
      DistinctInFirstOccurrenceOrder(p);
      var r := Distinct(s);
      forall i, j | 0 <= i < j < |r|
        ensures FirstIndex(s, r[i]) < FirstIndex(s, r[j])
      {
        FirstIndexOfSnoc(p, x, r[i]);
        FirstIndexOfSnoc(p, x, r[j]);
        if x in p {
          assert r == d;
        } else {
          assert r == d + [x];
          if j < |d| {
            assert r[i] == d[i] && r[j] == d[j];
          } else {
            assert r[i] == d[i] && d[i] in p && r[j] == x && x !in p;
          }
        }
      }
    }
  }

  /** Removing a common first element from two duplicate-free sequences with
      the same colours leaves two sequences with the same colours. */
  lemma TailsSameMembers(r1: seq<Colour>, r2: seq<Colour>)
    requires NoDuplicates(r1) && NoDuplicates(r2)
    requires forall x :: x in r1 <==> x in r2
    requires r1 != [] && r2 != [] && r1[0] == r2[0]
    ensures forall x :: x in r1[1..] <==> x in r2[1..]
  {
    forall x | x in r1[1..] ensures x in r2[1..] {
      var a :| 0 <= a < |r1| - 1 && r1[1..][a] == x;
      assert r1[a + 1] == x && r1[0] != x;
      assert x in r2;
      var b :| 0 <= b < |r2| && r2[b] == x;
      assert b > 0 && r2[1..][b - 1] == x;
    }
    forall x | x in r2[1..] ensures x in r1[1..] {
      var b :| 0 <= b < |r2| - 1 && r2[1..][b] == x;
      assert r2[b + 1] == x && r2[0] != x;
      assert x in r1;
      var a :| 0 <= a < |r1| && r1[a] == x;
      assert a > 0 && r1[1..][a - 1] == x;
    }
  }

  /** The first element of a sequence in first-occurrence order is the
      member first seen in `s`. */
  lemma HeadFirstSeen(r: seq<Colour>, s: seq<Colour>, y: Colour)
    requires r != [] && y in r
    requires InFirstOccurrenceOrder(r, s)
    ensures FirstIndex(s, r[0]) <= FirstIndex(s, y)
  {
  }

  lemma TailNoDuplicates(r: seq<Colour>)
    requires r != [] && NoDuplicates(r)
    ensures NoDuplicates(r[1..])
  {
  }

  lemma TailKeepsOrder(r: seq<Colour>, s: seq<Colour>)
    requires r != [] && InFirstOccurrenceOrder(r, s)
    ensures InFirstOccurrenceOrder(r[1..], s)
  {
  }

  /** Two duplicate-free sequences with the same colours, both in the order of
      first occurrence in `s`, are equal. */
  lemma {:induction false} FirstOccurrenceOrderUnique(r1: seq<Colour>, r2: seq<Colour>, s: seq<Colour>)
    requires NoDuplicates(r1) && NoDuplicates(r2)
    requires forall x :: x in r1 <==> x in r2
    requires forall x :: x in r1 ==> x in s
    requires InFirstOccurrenceOrder(r1, s) && InFirstOccurrenceOrder(r2, s)
    ensures r1 == r2
    decreases |r1|
  {
    assert r2 != [] ==> r2[0] in r2;
    if r1 != [] {
      assert r1[0] in r2;
      HeadFirstSeen(r1, s, r2[0]);
      HeadFirstSeen(r2, s, r1[0]);
      assert r1[0] == r2[0];
      TailsSameMembers(r1, r2);
      var t1, t2 := r1[1..], r2[1..];
      TailNoDuplicates(r1);
      TailNoDuplicates(r2);
      TailKeepsOrder(r1, s);
      TailKeepsOrder(r2, s);
      FirstOccurrenceOrderUnique(t1, t2, s);
      assert r1 == [r1[0]] + t1 && r2 == [r2[0]] + t2;
    }
  }

  /** `Distinct(s)` is exactly the duplicate-free list of the colours of `s`
      in the order of their first occurrences, and nothing else is. */
  lemma DistinctCharacterised(s: seq<Colour>, r: seq<Colour>)
    ensures r == Distinct(s) <==>
      NoDuplicates(r) && (forall x :: x in r <==> x in s) && InFirstOccurrenceOrder(r, s)
  {
    DistinctInFirstOccurrenceOrder(s);
    if NoDuplicates(r) && (forall x :: x in r <==> x in s) && InFirstOccurrenceOrder(r, s) {
      FirstOccurrenceOrderUnique(r, Distinct(s), s);
    }
  }

  /** A duplicate-free list passes through the set unchanged. */
  lemma {:induction false} DistinctOfDuplicateFree(s: seq<Colour>)
    requires NoDuplicates(s)
    ensures Distinct(s) == s
  {
    if s != [] {
      var p, x := s[..|s| - 1], s[|s| - 1];
      assert NoDuplicates(p);
      DistinctOfDuplicateFree(p);
      forall i | 0 <= i < |p| ensures p[i] != x {
        assert s[i] != s[|s| - 1];
      }
      assert s == p + [x];
    }
  }

  // ---------------------------------------------------------------------------
  // Save

  /** Save keeps the distinct colours of the old list in their first-seen order
      and appends the colour only when it was not there. */
  lemma SaveAppendsToDistinct(saved: seq<Colour>, c: Colour)
    ensures SaveColour(saved, c) == if c in saved then Distinct(saved) else Distinct(saved) + [c]
  {
  }

  /** Saving a colour already in a duplicate-free list changes nothing. */
  lemma SavePresent(saved: seq<Colour>, c: Colour)
    requires NoDuplicates(saved) && c in saved
    ensures SaveColour(saved, c) == saved
  {
    SaveAppendsToDistinct(saved, c);
    DistinctOfDuplicateFree(saved);
  }

  /** Saving a new colour to a duplicate-free list appends it at the end. */
  lemma SaveAbsent(saved: seq<Colour>, c: Colour)
    requires NoDuplicates(saved) && c !in saved
    ensures SaveColour(saved, c) == saved + [c]
  {
    SaveAppendsToDistinct(saved, c);
    DistinctOfDuplicateFree(saved);
  }

  /** Saving the same colour twice is the same as saving it once. */
  lemma SaveIdempotent(saved: seq<Colour>, c: Colour)
    ensures SaveColour(SaveColour(saved, c), c) == SaveColour(saved, c)
  {
    SavePresent(SaveColour(saved, c), c);
  }

  // ---------------------------------------------------------------------------
  // Remove

  /** Remove keeps the other colours in their original relative order. */
  lemma {:induction false} RemoveKeepsOrder(saved: seq<Colour>, c: Colour)
    ensures IsSubsequence(RemoveColour(saved, c), saved)
  {
    if saved != [] {
      RemoveKeepsOrder(saved[1..], c);
      var rest := RemoveColour(saved[1..], c);
      if saved[0] != c {
        assert ([saved[0]] + rest)[1..] == rest;
      } else {
        SubsequenceDropHead(rest, saved);
      }
    }
  }

  lemma SubsequenceDropHead(r: seq<Colour>, s: seq<Colour>)
    requires s != [] && IsSubsequence(r, s[1..])
    ensures IsSubsequence(r, s)
    decreases |s|, 0
  {
    if r != [] && r[0] == s[0] {
      SubsequenceTail(r, s[1..]);
    }
  }

  lemma SubsequenceTail(r: seq<Colour>, s: seq<Colour>)
    requires r != [] && IsSubsequence(r, s)
    ensures IsSubsequence(r[1..], s)
    decreases |s|, 1
  {
  }

  /** Removing a colour that is not saved leaves the list as it is. */
  lemma {:induction false} RemoveAbsent(saved: seq<Colour>, c: Colour)
    requires c !in saved
    ensures RemoveColour(saved, c) == saved
  {
    if saved != [] {
      RemoveAbsent(saved[1..], c);
      assert saved == [saved[0]] + saved[1..];
    }
  }

  /** Remove keeps a duplicate-free list duplicate-free. */
  lemma {:induction false} RemovePreservesNoDuplicates(saved: seq<Colour>, c: Colour)
    requires NoDuplicates(saved)
    ensures NoDuplicates(RemoveColour(saved, c))
  {
    if saved != [] {
      assert NoDuplicates(saved[1..]);
      RemovePreservesNoDuplicates(saved[1..], c);
      var rest := RemoveColour(saved[1..], c);
      if saved[0] != c {
        assert saved[0] !in saved[1..];
        assert saved[0] !in rest;
      }
    }
  }

  /** Starting from an empty list, saving two different colours and then
      removing the first leaves only the second. */
  lemma SaveSaveRemove(c1: Colour, c2: Colour)
    requires c1 != c2
    ensures RemoveColour(SaveColour(SaveColour([], c1), c2), c1) == [c2]
  {
    SaveAbsent([], c1);
    SaveAbsent([c1], c2);
    assert [c1] + [c2] == [c1, c2] && [c1, c2][1..] == [c2];
    RemoveAbsent([c2], c1);
  }
}
