/**
 Restacking of X windows (declarative/xwayland/xcbwindow.cpp) over the order
 ConfigureWindow gives them, section 9 of the X Window System Protocol.
 */
module Restack {
  import opened Sequences

  type WindowId = nat

  /** A stack of siblings, top first. */
  type Stack = seq<WindowId>

  function Without(s: Stack, w: WindowId): Stack {
    if s == [] then []
    else if s[|s| - 1] == w then Without(s[..|s| - 1], w)
    else Without(s[..|s| - 1], w) + [s[|s| - 1]]
  }

  /** The windows of s that are not in ws, in their order. */
  function Minus(s: Stack, ws: seq<WindowId>): Stack {
    if ws == [] then s else Without(Minus(s, ws[..|ws| - 1]), ws[|ws| - 1])
  }

  /** ws with only the last occurrence of each window kept. */
  function KeepLast(ws: seq<WindowId>): seq<WindowId> {
    if ws == [] then [] else Without(KeepLast(ws[..|ws| - 1]), ws[|ws| - 1]) + [ws[|ws| - 1]]
  }

  /** s with w put right below the first occurrence of `sibling`. */
  function InsertBelow(s: Stack, w: WindowId, sibling: WindowId): Stack {
    if s == [] then []
    else if s[0] == sibling then [sibling, w] + s[1..]
    else [s[0]] + InsertBelow(s[1..], w, sibling)
  }

  /** Stack mode Above, no sibling; a window that does not exist is an error without effect. */
  function Raise(s: Stack, w: WindowId): Stack {
    if w in s then [w] + Without(s, w) else s
  }

  /** Stack mode Below with a sibling; a bad window or sibling is an error without effect. */
  function PlaceBelow(s: Stack, w: WindowId, sibling: WindowId): Stack {
    if w !in s || sibling !in s || w == sibling then s else InsertBelow(Without(s, w), w, sibling)
  }

  /** The requests of restackWindows up to the i-th window of the list. */
  function Restacked(s: Stack, ws: seq<WindowId>, i: nat): Stack
    requires i <= |ws|
  {
    if i <= 1 then s else PlaceBelow(Restacked(s, ws, i - 1), ws[i - 1], ws[i - 2])
  }

  // ----- Removing -----

  lemma {:induction false} WithoutMembers(s: Stack, w: WindowId)
    ensures forall x :: x in Without(s, w) <==> x in s && x != w
  {
    if s != [] {
      WithoutMembers(s[..|s| - 1], w);
      assert s == s[..|s| - 1] + [s[|s| - 1]];
    }
  }

  lemma {:induction false} MinusMembers(s: Stack, ws: seq<WindowId>)
    ensures forall x :: x in Minus(s, ws) <==> x in s && x !in ws
  {
    if ws != [] {
      MinusMembers(s, ws[..|ws| - 1]);
      WithoutMembers(Minus(s, ws[..|ws| - 1]), ws[|ws| - 1]);
      assert ws == ws[..|ws| - 1] + [ws[|ws| - 1]];
    }
  }

  lemma {:induction false} KeepLastMembers(ws: seq<WindowId>)
    ensures forall x :: x in KeepLast(ws) <==> x in ws
  {
    if ws != [] {
      KeepLastMembers(ws[..|ws| - 1]);
      WithoutMembers(KeepLast(ws[..|ws| - 1]), ws[|ws| - 1]);
      assert ws == ws[..|ws| - 1] + [ws[|ws| - 1]];
    }
  }

  lemma {:induction false} WithoutConcat(a: Stack, b: Stack, w: WindowId)
    ensures Without(a + b, w) == Without(a, w) + Without(b, w)
  {
    if b == [] {
      assert a + b == a;
    } else {
      assert (a + b)[..|a + b| - 1] == a + b[..|b| - 1];
      WithoutConcat(a, b[..|b| - 1], w);
    }
  }

  lemma {:induction false} WithoutAbsent(s: Stack, w: WindowId)
    requires w !in s
    ensures Without(s, w) == s
  {
    if s != [] {
      WithoutAbsent(s[..|s| - 1], w);
    }
  }

  lemma {:induction false} WithoutCount(s: Stack, w: WindowId)
    ensures multiset(Without(s, w)) == multiset(s)[w := 0]
  {
    if s != [] {
      WithoutCount(s[..|s| - 1], w);
      assert s == s[..|s| - 1] + [s[|s| - 1]];
    }
  }

  lemma {:induction false} MinusAbsent(s: Stack, ws: seq<WindowId>)
    requires forall x :: x in s ==> x !in ws
    ensures Minus(s, ws) == s
  {
    if ws != [] {
      MinusAbsent(s, ws[..|ws| - 1]);
      WithoutAbsent(s, ws[|ws| - 1]);
    }
  }

  lemma {:induction false} NoDupWithout(s: Stack, w: WindowId)
    requires NoDup(s)
    ensures NoDup(Without(s, w))
  {
    if s != [] {
      NoDupPrefix(s);
      NoDupWithout(s[..|s| - 1], w);
      WithoutMembers(s[..|s| - 1], w);
      if s[|s| - 1] != w {
        NoDupAppend(Without(s[..|s| - 1], w), s[|s| - 1]);
      }
    }
  }

  /** A list without repetition keeps all of itself. */
  lemma {:induction false} KeepLastOfDistinct(ws: seq<WindowId>)
    requires NoDup(ws)
    ensures KeepLast(ws) == ws
  {
    if ws != [] {
      KeepLastOfDistinct(ws[..|ws| - 1]);
      WithoutAbsent(ws[..|ws| - 1], ws[|ws| - 1]);
    }
  }

  lemma {:induction false} KeepLastIsDistinct(ws: seq<WindowId>)
    ensures NoDup(KeepLast(ws))
  {
    if ws != [] {
      KeepLastIsDistinct(ws[..|ws| - 1]);
      NoDupWithout(KeepLast(ws[..|ws| - 1]), ws[|ws| - 1]);
      WithoutMembers(KeepLast(ws[..|ws| - 1]), ws[|ws| - 1]);
      NoDupAppend(Without(KeepLast(ws[..|ws| - 1]), ws[|ws| - 1]), ws[|ws| - 1]);
    }
  }

  // ----- Placing -----

  lemma {:induction false} InsertBelowAt(front: Stack, rear: Stack, w: WindowId, sibling: WindowId)
    requires sibling !in front
    ensures InsertBelow(front + [sibling] + rear, w, sibling) == front + [sibling, w] + rear
  {
    var s := front + [sibling] + rear;
    if front == [] {
      assert s[1..] == rear;
    } else {
      assert s[1..] == front[1..] + [sibling] + rear;
      InsertBelowAt(front[1..], rear, w, sibling);
    }
  }

  lemma WithoutBlock(upper: Stack, head: Stack, sibling: WindowId, lower: Stack, w: WindowId)
    requires w != sibling
    ensures Without(upper + head + [sibling] + lower, w)
            == Without(upper, w) + Without(head, w) + [sibling] + Without(lower, w)
  {
    WithoutConcat(upper + head + [sibling], lower, w);
    WithoutConcat(upper + head, [sibling], w);
    WithoutConcat(upper, head, w);
    WithoutAbsent([sibling], w);
  }

  /** Placing a window below the last one of a block moves it to the end of the block. */
  lemma PlaceBelowBlock(upper: Stack, head: Stack, sibling: WindowId, lower: Stack, w: WindowId)
    requires sibling !in upper && sibling !in head && w != sibling && w in upper + head + [sibling] + lower
    ensures PlaceBelow(upper + head + [sibling] + lower, w, sibling)
            == Without(upper, w) + Without(head, w) + [sibling, w] + Without(lower, w)
  {
    WithoutBlock(upper, head, sibling, lower, w);
    WithoutMembers(upper, w);
    WithoutMembers(head, w);
    InsertBelowAt(Without(upper, w) + Without(head, w), Without(lower, w), w, sibling);
  }

  /** Upper rest, block and lower rest after the first i requests. */
  function Gathered(upper: Stack, lower: Stack, ws: seq<WindowId>): Stack {
    Minus(upper, ws) + KeepLast(ws) + Minus(lower, ws)
  }

  lemma GatheredFirst(upper: Stack, first: WindowId, lower: Stack)
    requires first !in upper && first !in lower
    ensures Gathered(upper, lower, [first]) == upper + [first] + lower
  {
    assert KeepLast([first]) == [first];
    MinusAbsent(upper, [first]);
    MinusAbsent(lower, [first]);
  }

  lemma GatheredUnfold(upper: Stack, lower: Stack, ws: seq<WindowId>, w: WindowId)
    ensures Gathered(upper, lower, ws + [w])
            == Without(Minus(upper, ws), w) + (Without(KeepLast(ws), w) + [w]) + Without(Minus(lower, ws), w)
  {
    assert (ws + [w])[..|ws|] == ws;
  }

  lemma WithoutLast(head: Stack, last: WindowId)
    requires last !in head
    ensures Without(head + [last], last) == head
  {
    WithoutAbsent(head, last);
    assert (head + [last])[..|head|] == head;
  }

  /** A window already at the end of the block stays where it is. */
  lemma SameAgain(upper: Stack, head: Stack, last: WindowId, lower: Stack)
    requires last !in upper && last !in head && last !in lower
    ensures Without(upper, last) + (Without(head + [last], last) + [last]) + Without(lower, last)
            == upper + (head + [last]) + lower
  {
    WithoutAbsent(upper, last);
    WithoutLast(head, last);
    WithoutAbsent(lower, last);
  }

  lemma GatheredStep(upper: Stack, lower: Stack, ws: seq<WindowId>, w: WindowId)
    requires ws != [] && w in Gathered(upper, lower, ws)
    ensures PlaceBelow(Gathered(upper, lower, ws), w, ws[|ws| - 1]) == Gathered(upper, lower, ws + [w])
  {
    var last := ws[|ws| - 1];
    var head := Without(KeepLast(ws[..|ws| - 1]), last);
    assert KeepLast(ws) == head + [last];
    WithoutMembers(KeepLast(ws[..|ws| - 1]), last);
    MinusMembers(upper, ws);
    MinusMembers(lower, ws);
    assert last in ws;
    GatheredUnfold(upper, lower, ws, w);
    BlockStep(Minus(upper, ws), head, last, Minus(lower, ws), w);
  }

  lemma BlockStep(a: Stack, head: Stack, last: WindowId, b: Stack, w: WindowId)
    requires last !in a && last !in head && last !in b && w in a + (head + [last]) + b
    ensures PlaceBelow(a + (head + [last]) + b, w, last)
            == Without(a, w) + (Without(head + [last], w) + [w]) + Without(b, w)
  {
    if w == last {
      SameAgain(a, head, last, b);
    } else {
      assert a + (head + [last]) + b == a + head + [last] + b;
      PlaceBelowBlock(a, head, last, b, w);
      BlockMoved(a, head, last, b, w);
    }
  }

  lemma InGathered(upper: Stack, lower: Stack, ws: seq<WindowId>, w: WindowId)
    requires w in ws || w in upper || w in lower
    ensures w in Gathered(upper, lower, ws)
  {
    MinusMembers(upper, ws);
    KeepLastMembers(ws);
    MinusMembers(lower, ws);
  }

  lemma BlockMoved(a: Stack, head: Stack, last: WindowId, b: Stack, w: WindowId)
    requires w != last
    ensures Without(a, w) + Without(head, w) + [last, w] + Without(b, w)
            == Without(a, w) + (Without(head + [last], w) + [w]) + Without(b, w)
  {
    assert (head + [last])[..|head|] == head;
  }

  /**
   Restacking gathers the listed windows right below where the first one was,
   in list order, and leaves the others above and below as they were.
   */
  lemma {:induction false} RestackedGathers(upper: Stack, first: WindowId, lower: Stack, ws: seq<WindowId>, i: nat)
    requires first !in upper && first !in lower
    requires 1 <= i <= |ws| && ws[0] == first
    requires forall k :: 0 <= k < |ws| ==> ws[k] == first || ws[k] in upper || ws[k] in lower
    ensures Restacked(upper + [first] + lower, ws, i) == Gathered(upper, lower, ws[..i])
    decreases i
  {
    if i == 1 {
      assert ws[..1] == [first];
      GatheredFirst(upper, first, lower);
    } else {
      var j := i - 1;
      RestackedGathers(upper, first, lower, ws, j);
      GatherNext(upper + [first] + lower, upper, lower, ws, j);
    }
  }

  /** One more request moves one more window into the block. */
  lemma GatherNext(s: Stack, upper: Stack, lower: Stack, ws: seq<WindowId>, j: nat)
    requires 0 < j < |ws| && Restacked(s, ws, j) == Gathered(upper, lower, ws[..j])
    requires ws[j] == ws[0] || ws[j] in upper || ws[j] in lower
    ensures Restacked(s, ws, j + 1) == Gathered(upper, lower, ws[..j + 1])
  {
    var before, w := ws[..j], ws[j];
    assert before[0] == ws[0] && before[|before| - 1] == ws[j - 1];
    InGathered(upper, lower, before, w);
    GatheredStep(upper, lower, before, w);
    PrefixExtend(ws, j + 1);
  }

  lemma {:induction false} InsertBelowCount(s: Stack, w: WindowId, sibling: WindowId)
    requires sibling in s
    ensures multiset(InsertBelow(s, w, sibling)) == multiset(s) + multiset{w}
  {
    assert s == [s[0]] + s[1..];
    if s[0] != sibling {
      InsertBelowCount(s[1..], w, sibling);
    }
  }

  lemma PlaceBelowPermutes(s: Stack, w: WindowId, sibling: WindowId)
    requires NoDup(s)
    ensures multiset(PlaceBelow(s, w, sibling)) == multiset(s)
  {
    if w in s && sibling in s && w != sibling {
      WithoutCount(s, w);
      WithoutMembers(s, w);
      NoDupCount(s, w);
      InsertBelowCount(Without(s, w), w, sibling);
    }
  }

  /** Having no duplicates is a property of the multiset alone. */
  lemma {:induction false} NoDupOfSame(s: Stack, r: Stack)
    requires NoDup(s) && multiset(r) == multiset(s)
    ensures NoDup(r)
  {
    forall i, j | 0 <= i < j < |r| ensures r[i] != r[j] {
      assert r == r[..i] + [r[i]] + r[i + 1..j] + [r[j]] + r[j + 1..];
      NoDupCount(s, r[i]);
    }
  }

  lemma {:induction false} NoDupCount(s: Stack, w: WindowId)
    requires NoDup(s)
    ensures multiset(s)[w] == if w in s then 1 else 0
  {
    if s != [] {
      NoDupCount(s[..|s| - 1], w);
      assert s == s[..|s| - 1] + [s[|s| - 1]];
    }
  }

  /** Whatever the list, no window is lost or doubled. */
  lemma {:induction false} RestackedPermutes(s: Stack, ws: seq<WindowId>, i: nat)
    requires NoDup(s) && i <= |ws|
    ensures multiset(Restacked(s, ws, i)) == multiset(s)
  {
    if i > 1 {
      RestackedPermutes(s, ws, i - 1);
      NoDupOfSame(s, Restacked(s, ws, i - 1));
      PlaceBelowPermutes(Restacked(s, ws, i - 1), ws[i - 1], ws[i - 2]);
    }
  }

  /** What is a member of a stack stays one, and no other becomes one. */
  lemma {:induction false} RestackedMembers(s: Stack, ws: seq<WindowId>, i: nat, x: WindowId)
    requires NoDup(s) && i <= |ws|
    ensures x in Restacked(s, ws, i) <==> x in s
  {
    RestackedPermutes(s, ws, i);
    assert x in Restacked(s, ws, i) <==> x in multiset(Restacked(s, ws, i));
  }

  /** A window that is not in the stack divides the list: what precedes and what follows it are restacked on their own. */
  lemma {:induction false} StrangerDivides(s: Stack, ws: seq<WindowId>, x: WindowId, vs: seq<WindowId>, i: nat)
    requires NoDup(s) && x !in s && i <= |vs|
    ensures Restacked(s, ws + [x] + vs, |ws| + 1 + i) == Restacked(Restacked(s, ws, |ws|), vs, i)
  {
    var all := ws + [x] + vs;
    if i == 0 {
      SameList(s, ws, all, |ws|);
      RestackedMembers(s, ws, |ws|, x);
      assert all[|ws|] == x;
    } else {
      StrangerDivides(s, ws, x, vs, i - 1);
      assert all[|ws| + i] == vs[i - 1];
      if i == 1 {
        RestackedMembers(s, ws, |ws|, x);
        assert all[|ws|] == x;
      } else {
        assert all[|ws| + i - 1] == vs[i - 2];
      }
    }
  }

  lemma {:induction false} SameList(s: Stack, ws: seq<WindowId>, vs: seq<WindowId>, i: nat)
    requires i <= |ws| <= |vs| && forall k :: 0 <= k < |ws| ==> vs[k] == ws[k]
    ensures Restacked(s, vs, i) == Restacked(s, ws, i)
  {
    if i > 1 {
      SameList(s, ws, vs, i - 1);
    }
  }

  lemma RaisePermutes(s: Stack, w: WindowId)
    requires NoDup(s)
    ensures multiset(Raise(s, w)) == multiset(s) && NoDup(Raise(s, w))
  {
    if w in s {
      WithoutCount(s, w);
      NoDupCount(s, w);
      NoDupWithout(s, w);
    }
  }

  /** Restacking with raise puts the list on top; the others keep their order below it. */
  lemma RaisedOnTop(s: Stack, ws: seq<WindowId>)
    requires ws != [] && forall w :: w in ws ==> w in s
    ensures Restacked(Raise(s, ws[0]), ws, |ws|) == KeepLast(ws) + Minus(s, ws)
  {
    var rest := Without(s, ws[0]);
    assert [] + [ws[0]] + rest == Raise(s, ws[0]);
    WithoutMembers(s, ws[0]);
    forall k | 0 <= k < |ws| ensures ws[k] == ws[0] || ws[k] in rest {
      assert ws[k] in ws;
    }
    RestackedGathers([], ws[0], rest, ws, |ws|);
    assert ws[..|ws|] == ws;
    MinusAbsent([], ws);
    MinusFirst(s, ws);
    assert [] + KeepLast(ws) == KeepLast(ws);
  }

  lemma {:induction false} MinusFirst(s: Stack, ws: seq<WindowId>)
    requires ws != []
    ensures Minus(Without(s, ws[0]), ws) == Minus(s, ws)
  {
    if |ws| == 1 {
      assert ws[..0] == [];
      WithoutMembers(s, ws[0]);
      WithoutAbsent(Without(s, ws[0]), ws[0]);
    } else {
      MinusFirst(s, ws[..|ws| - 1]);
    }
  }

  /** The X server's stacking order of one parent's children. */
  class XServer {
    var stack: Stack

    constructor (stack: Stack)
      ensures this.stack == stack
    {
      this.stack := stack;
    }

    method RestackWindows(windows: seq<WindowId>)
      modifies this
      ensures stack == Restacked(old(stack), windows, |windows|)
    {
      if |windows| < 2 {
        return;
      }
      var i := 1;
      while i < |windows|
        invariant 1 <= i <= |windows|
        invariant stack == Restacked(old(stack), windows, i)
      {
        stack := PlaceBelow(stack, windows[i], windows[i - 1]);
        i := i + 1;
      }
    }

    method RestackWindowsWithRaise(windows: seq<WindowId>)
      requires NoDup(stack)
      modifies this
      ensures NoDup(stack) && multiset(stack) == multiset(old(stack))
      ensures (forall w :: w in windows ==> w in old(stack)) ==> stack == KeepLast(windows) + Minus(old(stack), windows)
      ensures (forall w :: w in windows ==> w in old(stack)) && NoDup(windows) ==>
                stack == windows + Minus(old(stack), windows)
    {
      if windows == [] {
        return;
      }
      ghost var s := stack;
      stack := Raise(stack, windows[0]);
      RestackWindows(windows);
      RaisePermutes(s, windows[0]);
      RestackedPermutes(Raise(s, windows[0]), windows, |windows|);
      NoDupOfSame(s, stack);
      if forall w :: w in windows ==> w in s {
        RaisedOnTop(s, windows);
        if NoDup(windows) {
          KeepLastOfDistinct(windows);
        }
      }
    }
  }
}
