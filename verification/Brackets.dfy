/**
  Balanced words over brackets, as a grammar, and the two ways in which cpplint recognises them: by counting,
  for one kind of bracket in either direction, and with a stack, for several kinds.
 */
module Brackets {
  /** Opening brackets, each with the one that closes it. */
  type Kinds = map<char, char>

  predicate Proper(kinds: Kinds) {
    forall c :: c in kinds ==> kinds[c] !in kinds
  }

  predicate Closing(kinds: Kinds, c: char) {
    exists o :: o in kinds && kinds[o] == c
  }

  /** Words in which every bracket is matched: empty, a plain character and a word, or a bracketed word and a word. */
  ghost predicate Balanced(w: string, kinds: Kinds)
    decreases |w|
  {
    || w == ""
    || (w[0] !in kinds && !Closing(kinds, w[0]) && Balanced(w[1..], kinds))
    || (w[0] in kinds && exists k :: ClosesFirst(w, k, kinds))
  }

  /** The bracket in front is closed at `k`. */
  ghost predicate ClosesFirst(w: string, k: int, kinds: Kinds)
    decreases |w|, 0
  {
    0 < k < |w| && w[0] in kinds && w[k] == kinds[w[0]] && Balanced(w[1..k], kinds) && Balanced(w[k + 1..], kinds)
  }

  // ---------------------------------------------------------------- counting

  function Step(c: char, s: char, e: char): int {
    if c == s then 1 else if c == e then -1 else 0
  }

  /** How many more brackets open than close. */
  function Balance(w: string, s: char, e: char): int {
    if w == "" then 0 else Step(w[0], s, e) + Balance(w[1..], s, e)
  }

  lemma {:induction false} BalanceConcat(a: string, b: string, s: char, e: char)
    ensures Balance(a + b, s, e) == Balance(a, s, e) + Balance(b, s, e)
  {
    if a == "" {
      assert a + b == b;
    } else {
      assert (a + b)[1..] == a[1..] + b;
      BalanceConcat(a[1..], b, s, e);
    }
  }

  /** The balance of a part of the text. */
  function Net(t: string, i: int, j: int, s: char, e: char): int {
    if 0 <= i <= j <= |t| then Balance(t[i..j], s, e) else 0
  }

  lemma NetSplit(t: string, i: nat, j: nat, k: nat, s: char, e: char)
    requires i <= j <= k <= |t|
    ensures Net(t, i, k, s, e) == Net(t, i, j, s, e) + Net(t, j, k, s, e)
  {
    assert t[i..k] == t[i..j] + t[j..k];
    BalanceConcat(t[i..j], t[j..k], s, e);
  }

  lemma NetOne(t: string, i: nat, s: char, e: char)
    requires i < |t|
    ensures Net(t, i, i + 1, s, e) == Step(t[i], s, e)
  {
    var one := t[i..i + 1];
    assert one[0] == t[i] && one[1..] == "";
    assert Balance(one, s, e) == Step(one[0], s, e) + Balance(one[1..], s, e);
  }

  /** Scanning forward from `p`: the count comes back to zero at `q`, and not before. */
  ghost predicate FirstClose(t: string, p: nat, q: nat, s: char, e: char) {
    && p < q < |t| && t[p] == s && t[q] == e
    && Net(t, p, q + 1, s, e) == 0 && forall k :: p < k <= q ==> Net(t, p, k, s, e) != 0
  }

  /** Scanning backward from `q`: the count comes back to zero at `p`, and not before. */
  ghost predicate LastOpen(t: string, p: nat, q: nat, s: char, e: char) {
    && p < q < |t| && t[p] == s && t[q] == e
    && Net(t, p, q + 1, s, e) == 0 && NotOpenBefore(t, p, q + 1, s, e)
  }

  ghost predicate NotOpenBefore(t: string, p: int, end: int, s: char, e: char) {
    forall k :: p < k < end ==> Net(t, k, end, s, e) != 0
  }

  /** Both scans find the same pairs: each undoes the other. */
  lemma ScansInvert(t: string, p: nat, q: nat, s: char, e: char)
    ensures FirstClose(t, p, q, s, e) <==> LastOpen(t, p, q, s, e)
  {
    hide Net;
    if p < q < |t| && Net(t, p, q + 1, s, e) == 0 {
      var end := q + 1;
      forall k | p < k < end ensures Net(t, p, k, s, e) + Net(t, k, end, s, e) == 0 {
        NetSplit(t, p, k, end, s, e);
      }
    }
  }

  lemma OnlyOne(t: string, p: nat, q: nat, p': nat, q': nat, s: char, e: char)
    requires FirstClose(t, p, q, s, e) && FirstClose(t, p', q', s, e)
    ensures p == p' <==> q == q'
  {
    ScansInvert(t, p, q, s, e);
    ScansInvert(t, p', q', s, e);
    hide Net;
    assert p == p' && q < q' ==> Net(t, p, q + 1, s, e) != 0;
    assert p == p' && q' < q ==> Net(t, p, q' + 1, s, e) != 0;
    assert q == q' && p < p' ==> Net(t, p', q + 1, s, e) != 0;
    assert q == q' && p' < p ==> Net(t, p, q + 1, s, e) != 0;
  }

  /** No end of the word goes below zero, and the whole comes to zero. */
  ghost predicate NeverBelow(w: string, s: char, e: char) {
    Balance(w, s, e) == 0 && forall k :: 0 <= k <= |w| ==> Net(w, 0, k, s, e) >= 0
  }

  lemma EmptyNeverBelow(s: char, e: char)
    ensures NeverBelow("", s, e)
  {
    forall k | 0 <= k <= |""| ensures Net("", 0, k, s, e) == 0 {
      assert ""[0..k] == "";
    }
  }

  lemma {:induction false} BalancedNeverBelow(w: string, s: char, e: char)
    requires s != e && Balanced(w, map[s := e])
    ensures NeverBelow(w, s, e)
    decreases |w|
  {
    var kinds := map[s := e];
    if w == "" {
      EmptyNeverBelow(s, e);
    } else if w[0] !in kinds && !Closing(kinds, w[0]) && Balanced(w[1..], kinds) {
      PlainStep(w[0], s, e);
      NetOne(w, 0, s, e);
      NetEmpty(w, s, e);
      BalancedNeverBelow(w[1..], s, e);
      NeverBelowBehind(w, 1, s, e);
    } else {
      var k :| ClosesFirst(w, k, kinds);
      BalancedNeverBelow(w[1..k], s, e);
      BalancedNeverBelow(w[k + 1..], s, e);
      BracketedNeverBelow(w, k, s, e);
      NeverBelowBehind(w, k + 1, s, e);
    }
  }

  lemma PlainStep(c: char, s: char, e: char)
    requires s != e
    ensures c !in map[s := e] && !Closing(map[s := e], c) <==> Step(c, s, e) == 0
  {
    var kinds := map[s := e];
    assert s in kinds && kinds[s] == e;
  }

  /** The part of the text that `w` is. */
  lemma NetWithin(t: string, i: nat, n: nat, a: nat, b: nat, s: char, e: char)
    requires i <= n <= |t| && i + a <= i + b <= n
    ensures Net(t[i..n], a, b, s, e) == Net(t, i + a, i + b, s, e)
  {
    var u := t[i..n];
    assert forall k :: 0 <= k < b - a ==> u[a..b][k] == t[i + a..i + b][k];
    assert u[a..b] == t[i + a..i + b];
  }

  lemma BracketedNeverBelow(w: string, k: nat, s: char, e: char)
    requires s != e && 0 < k < |w| && w[0] == s && w[k] == e && NeverBelow(w[1..k], s, e)
    ensures Net(w, 0, k + 1, s, e) == 0 && forall j :: 0 <= j <= k + 1 ==> Net(w, 0, j, s, e) >= 0
  {
    hide Net, Balance;
    var inner := w[1..k];
    NetOne(w, 0, s, e);
    NetOne(w, k, s, e);
    NetEmpty(w, s, e);
    NetWhole(inner, s, e);
    forall j | 0 < j <= k ensures Net(w, 0, j, s, e) == 1 + Net(inner, 0, j - 1, s, e) {
      NetSplit(w, 0, 1, j, s, e);
      NetWithin(w, 1, k, 0, j - 1, s, e);
    }
    NetSplit(w, 0, k, k + 1, s, e);
  }

  lemma NetEmpty(w: string, s: char, e: char)
    ensures Net(w, 0, 0, s, e) == 0
  {
  }

  lemma NetWhole(w: string, s: char, e: char)
    ensures Net(w, 0, |w|, s, e) == Balance(w, s, e)
  {
    assert w[0..|w|] == w;
  }

  lemma NeverBelowBehind(w: string, n: nat, s: char, e: char)
    requires n <= |w| && Net(w, 0, n, s, e) == 0 && NeverBelow(w[n..], s, e)
    requires forall j :: 0 <= j <= n ==> Net(w, 0, j, s, e) >= 0
    ensures NeverBelow(w, s, e)
  {
    hide Net, Balance;
    assert w[n..] == w[n..|w|];
    forall j | n <= j <= |w| ensures Net(w, 0, j, s, e) == Net(w[n..], 0, j - n, s, e) {
      NetSplit(w, 0, n, j, s, e);
      NetWithin(w, n, |w|, 0, j - n, s, e);
    }
    NetWhole(w, s, e);
    NetWhole(w[n..], s, e);
  }

  lemma NeverBelowRest(w: string, n: nat, s: char, e: char)
    requires n <= |w| && Net(w, 0, n, s, e) == 0 && NeverBelow(w, s, e)
    ensures NeverBelow(w[n..], s, e)
  {
    hide Net, Balance;
    assert w[n..] == w[n..|w|];
    forall j | 0 <= j <= |w| - n ensures Net(w[n..], 0, j, s, e) == Net(w, 0, n + j, s, e) {
      NetSplit(w, 0, n, n + j, s, e);
      NetWithin(w, n, |w|, 0, j, s, e);
    }
    NetWhole(w, s, e);
    NetWhole(w[n..], s, e);
  }

  lemma NeverBelowInside(w: string, k: nat, s: char, e: char)
    requires s != e && 0 < k < |w| && w[0] == s && Net(w, 0, k + 1, s, e) == 0
    requires forall j :: 0 < j <= k ==> Net(w, 0, j, s, e) > 0
    ensures w[k] == e && NeverBelow(w[1..k], s, e)
  {
    hide Net, Balance;
    var inner := w[1..k];
    NetOne(w, 0, s, e);
    NetOne(w, k, s, e);
    NetSplit(w, 0, k, k + 1, s, e);
    forall j | 0 <= j < k ensures Net(inner, 0, j, s, e) == Net(w, 0, j + 1, s, e) - 1 {
      NetSplit(w, 0, 1, j + 1, s, e);
      NetWithin(w, 1, k, 0, j, s, e);
    }
    NetWhole(inner, s, e);
  }

  /** The first place behind `from` where the count is zero. */
  lemma FirstZero(w: string, from: nat, s: char, e: char) returns (z: nat)
    requires from <= |w| && Net(w, 0, |w|, s, e) == 0
    ensures from <= z <= |w| && Net(w, 0, z, s, e) == 0 && forall j :: from <= j < z ==> Net(w, 0, j, s, e) != 0
  {
    hide Net;
    z := from;
    while Net(w, 0, z, s, e) != 0
      invariant from <= z <= |w| && forall j :: from <= j < z ==> Net(w, 0, j, s, e) != 0
      decreases |w| - z
    {
      z := z + 1;
    }
  }

  lemma {:induction false} NeverBelowBalanced(w: string, s: char, e: char)
    requires s != e && NeverBelow(w, s, e)
    ensures Balanced(w, map[s := e])
    decreases |w|
  {
    hide Net, Balance, Closing;
    if w != "" {
      PlainStep(w[0], s, e);
      NetOne(w, 0, s, e);
      NetWhole(w, s, e);
      if w[0] == s {
        var z := FirstZero(w, 1, s, e);
        NeverBelowInside(w, z - 1, s, e);
        NeverBelowRest(w, z, s, e);
        NeverBelowBalanced(w[1..z - 1], s, e);
        NeverBelowBalanced(w[z..], s, e);
        assert ClosesFirst(w, z - 1, map[s := e]);
      } else {
        NeverBelowRest(w, 1, s, e);
        NeverBelowBalanced(w[1..], s, e);
      }
    }
  }

  lemma {:induction false} StaysOpen(t: string, p: nat, k: nat, s: char, e: char)
    requires p < k <= |t| && t[p] == s && s != e
    requires forall j :: p < j <= k ==> Net(t, p, j, s, e) != 0
    ensures Net(t, p, k, s, e) > 0
  {
    hide Net;
    if k == p + 1 {
      NetOne(t, p, s, e);
    } else {
      StaysOpen(t, p, k - 1, s, e);
      NetSplit(t, p, k - 1, k, s, e);
      NetOne(t, k - 1, s, e);
    }
  }

  /** The counting scans find exactly the bracketed balanced words. */
  lemma FirstCloseIsBalanced(t: string, p: nat, q: nat, s: char, e: char)
    requires s != e && p < q < |t|
    ensures FirstClose(t, p, q, s, e) <==> t[p] == s && t[q] == e && Balanced(t[p + 1..q], map[s := e])
  {
    hide Net, Balance, Balanced;
    var w := t[p..q + 1];
    Inner(t, p, q);
    forall j | p <= j <= q + 1 ensures Net(w, 0, j - p, s, e) == Net(t, p, j, s, e) {
      NetWithin(t, p, q + 1, 0, j - p, s, e);
    }
    if FirstClose(t, p, q, s, e) {
      forall j | p < j <= q ensures Net(t, p, j, s, e) > 0 {
        StaysOpen(t, p, j, s, e);
      }
      forall j | 0 < j <= q - p ensures Net(w, 0, j, s, e) > 0 {
        NetWithin(t, p, q + 1, 0, j, s, e);
        assert Net(t, p, p + j, s, e) > 0;
      }
      NeverBelowInside(w, q - p, s, e);
      NeverBelowBalanced(t[p + 1..q], s, e);
    }
    if t[p] == s && t[q] == e && Balanced(t[p + 1..q], map[s := e]) {
      BalancedNeverBelow(t[p + 1..q], s, e);
      BracketOpen(w, q - p, s, e);
    }
  }

  lemma Inner(t: string, p: nat, q: nat)
    requires p < q < |t|
    ensures t[p..q + 1][1..q - p] == t[p + 1..q]
  {
    var v, inner := t[p..q + 1][1..q - p], t[p + 1..q];
    assert forall k :: 0 <= k < |inner| ==> v[k] == inner[k];
  }

  lemma BracketOpen(w: string, k: nat, s: char, e: char)
    requires s != e && 0 < k < |w| && w[0] == s && w[k] == e && NeverBelow(w[1..k], s, e)
    ensures Net(w, 0, k + 1, s, e) == 0 && forall j :: 0 < j <= k ==> Net(w, 0, j, s, e) > 0
  {
    hide Net, Balance;
    var inner := w[1..k];
    BracketedNeverBelow(w, k, s, e);
    NetOne(w, 0, s, e);
    forall j | 0 < j <= k ensures Net(w, 0, j, s, e) == 1 + Net(inner, 0, j - 1, s, e) {
      NetSplit(w, 0, 1, j, s, e);
      NetWithin(w, 1, k, 0, j - 1, s, e);
    }
  }

  // ---------------------------------------------------------------- the stack

  /**
    How far a text is scanned until the stack of expected closing brackets, top last, is empty; none if a
    closing bracket is not the expected one or the text ends first.
   */
  function Scan(t: string, stack: string, kinds: Kinds): (n: int)
    ensures -1 <= n <= |t|
  {
    if stack == "" then 0
    else if t == "" then -1
    else
      var top := stack[|stack| - 1];
      if t[0] == top then Past(Scan(t[1..], stack[..|stack| - 1], kinds))
      else if IsClosing(kinds, t[0]) then -1
      else if t[0] in kinds then Past(Scan(t[1..], stack + [kinds[t[0]]], kinds))
      else Past(Scan(t[1..], stack, kinds))
  }

  function Past(n: int): int {
    if n < 0 then n else n + 1
  }

  predicate IsClosing(kinds: Kinds, c: char) {
    c in kinds.Values
  }

  lemma ClosingIs(kinds: Kinds, c: char)
    ensures IsClosing(kinds, c) <==> Closing(kinds, c)
  {
  }

  /** The stack has closing brackets in it, which open nothing. */
  predicate Expecting(stack: string, kinds: Kinds) {
    Proper(kinds) && forall i :: 0 <= i < |stack| ==> IsClosing(kinds, stack[i])
  }

  /** A balanced word leaves the stack as it was. */
  lemma {:induction false} ScanBalanced(w: string, rest: string, stack: string, kinds: Kinds)
    requires stack != "" && Expecting(stack, kinds) && Balanced(w, kinds)
    ensures Scan(w + rest, stack, kinds) == if Scan(rest, stack, kinds) < 0 then -1 else |w| + Scan(rest, stack, kinds)
    decreases |w|
  {
    if w == "" {
      assert w + rest == rest;
    } else {
      assert (w + rest)[1..] == w[1..] + rest;
      ClosingIs(kinds, w[0]);
      if w[0] !in kinds && !Closing(kinds, w[0]) && Balanced(w[1..], kinds) {
        ScanBalanced(w[1..], rest, stack, kinds);
      } else {
        var k :| ClosesFirst(w, k, kinds);
        var close := kinds[w[0]];
        assert close in kinds.Values;
        var later := [close] + (w[k + 1..] + rest);
        assert w[1..] + rest == w[1..k] + later;
        ScanBalanced(w[1..k], later, stack + [close], kinds);
        assert later[1..] == w[k + 1..] + rest && (stack + [close])[..|stack|] == stack;
        ScanBalanced(w[k + 1..], rest, stack, kinds);
      }
    }
  }

  /** The text is one balanced word for every expected bracket, each with that bracket behind it. */
  ghost predicate Unwinds(w: string, stack: string, kinds: Kinds)
    decreases |stack|
  {
    if stack == "" then w == "" else exists k :: UnwindsAt(w, k, stack, kinds)
  }

  ghost predicate UnwindsAt(w: string, k: int, stack: string, kinds: Kinds)
    requires stack != ""
    decreases |stack|, 0
  {
    && 0 <= k < |w| && w[k] == stack[|stack| - 1] && Balanced(w[..k], kinds)
    && Unwinds(w[k + 1..], stack[..|stack| - 1], kinds)
  }

  lemma {:induction false} ScanUnwinds(t: string, stack: string, kinds: Kinds)
    requires Expecting(stack, kinds) && Scan(t, stack, kinds) >= 0
    ensures Unwinds(t[..Scan(t, stack, kinds)], stack, kinds)
    decreases |t|
  {
    if stack != "" {
      var n, top := Scan(t, stack, kinds), stack[|stack| - 1];
      var w, pop := t[..n], stack[..|stack| - 1];
      assert t[1..][..n - 1] == w[1..];
      ClosingIs(kinds, t[0]);
      if t[0] == top {
        ScanUnwinds(t[1..], pop, kinds);
        assert UnwindsAt(w, 0, stack, kinds);
      } else if t[0] in kinds {
        var close := kinds[t[0]];
        assert close in kinds.Values;
        ScanUnwinds(t[1..], stack + [close], kinds);
        BracketUnwinds(w, stack, close, kinds);
      } else {
        ScanUnwinds(t[1..], stack, kinds);
        PlainUnwinds(w, stack, kinds);
      }
    }
  }

  lemma PlainUnwinds(w: string, stack: string, kinds: Kinds)
    requires stack != "" && w != "" && Unwinds(w[1..], stack, kinds) && w[0] !in kinds && !Closing(kinds, w[0])
    ensures Unwinds(w, stack, kinds)
  {
    var k :| UnwindsAt(w[1..], k, stack, kinds);
    assert w[..k + 1][1..] == w[1..][..k];
    assert w[1..][k + 1..] == w[k + 2..];
    assert UnwindsAt(w, k + 1, stack, kinds);
  }

  lemma PopPushed(stack: string, close: char)
    ensures (stack + [close])[..|stack + [close]| - 1] == stack && (stack + [close])[|stack + [close]| - 1] == close
  {
  }

  lemma BracketUnwinds(w: string, stack: string, close: char, kinds: Kinds)
    requires stack != "" && w != "" && w[0] in kinds && close == kinds[w[0]] && Unwinds(w[1..], stack + [close], kinds)
    ensures Unwinds(w, stack, kinds)
  {
    hide Closing, Balanced;
    PopPushed(stack, close);
    var k :| UnwindsAt(w[1..], k, stack + [close], kinds);
    var rest := w[k + 2..];
    assert w[1..][k + 1..] == rest;
    assert Unwinds(rest, stack, kinds);
    var m :| UnwindsAt(rest, m, stack, kinds);
    var at := k + 2 + m;
    assert rest[m + 1..] == w[at + 1..];
    HeadCloses(w, k, m, kinds);
    assert UnwindsAt(w, at, stack, kinds);
  }

  lemma HeadCloses(w: string, k: nat, m: nat, kinds: Kinds)
    requires k + 2 + m <= |w| && w[0] in kinds && w[k + 1] == kinds[w[0]]
    requires Balanced(w[1..][..k], kinds) && Balanced(w[k + 2..][..m], kinds)
    ensures Balanced(w[..k + 2 + m], kinds)
  {
    var head := w[..k + 2 + m];
    assert head[1..k + 1] == w[1..][..k];
    assert head[k + 2..] == w[k + 2..][..m];
    assert ClosesFirst(head, k + 1, kinds);
  }

  /** `w` stands behind the opening bracket in front of `start`, balanced, and the bracket that closes it follows. */
  ghost predicate Inside(t: string, start: nat, w: string, kinds: Kinds) {
    && 0 < start && start + |w| < |t| && t[start - 1] in kinds
    && t[start..start + |w|] == w && t[start + |w|] == kinds[t[start - 1]] && Balanced(w, kinds)
  }

  lemma ScanOne(t: string, close: char, kinds: Kinds)
    requires t != "" && t[0] == close
    ensures Scan(t, [close], kinds) == 1
  {
    assert [close][..0] == "";
  }

  lemma UnwindsOne(w: string, close: char, kinds: Kinds)
    requires Unwinds(w, [close], kinds)
    ensures w != "" && w[|w| - 1] == close && Balanced(w[..|w| - 1], kinds)
  {
    var k :| UnwindsAt(w, k, [close], kinds);
    assert [close][..0] == "";
    assert Unwinds(w[k + 1..], "", kinds);
    assert w[..k] == w[..|w| - 1];
  }

  /** The stack machine accepts exactly the balanced words in front of their closing bracket. */
  lemma ScanFindsInside(t: string, start: nat, w: string, kinds: Kinds)
    requires 0 < start && start + |w| < |t| && t[start..start + |w|] == w && t[start - 1] in kinds && Proper(kinds)
    ensures Inside(t, start, w, kinds) <==> Scan(t[start..], [kinds[t[start - 1]]], kinds) == |w| + 1
  {
    hide Scan, Unwinds, Balanced;
    var close, rest := kinds[t[start - 1]], t[start + |w|..];
    assert close in kinds.Values;
    assert t[start..] == w + rest;
    if Inside(t, start, w, kinds) {
      ScanBalanced(w, rest, [close], kinds);
      ScanOne(rest, close, kinds);
    }
    if Scan(t[start..], [close], kinds) == |w| + 1 {
      ScanUnwinds(t[start..], [close], kinds);
      UnwindsOne((w + rest)[..|w| + 1], close, kinds);
      assert (w + rest)[..|w| + 1][..|w|] == w;
    }
  }
}
