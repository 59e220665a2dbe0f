/**
  The slots a tree node stands for. A tree of order n manages Pow2(n - 1) slots of the size of
  the alignment; node b at depth d spans Pow2(n - d) of them.
*/
module BuddySpan {
  import opened Arith
  import opened BuddyLayout
  import opened BuddyStatus

  /** The number of slots of node `b`. */
  ghost function Span(n: nat, b: nat): (s: nat)
    requires Node(n, b)
    ensures s >= 1
  {
    DepthRange(n, b);
    var e: nat :| e == n - Depth(b);
    Pow2(e)
  }

  /** The first slot of node `b`. */
  ghost function Lo(n: nat, b: nat): (l: nat)
    requires Node(n, b)
  {
    var d: nat :| d == Depth(b) - 1;
    Times(Span(n, b), b - Pow2(d))
  }

  /** The slot behind the last slot of node `b`. */
  ghost function Hi(n: nat, b: nat): (h: nat)
    requires Node(n, b)
  {
    Lo(n, b) + Span(n, b)
  }

  /** The children halve the span of a node. */
  lemma {:induction false} ChildSpans(n: nat, i: nat, l: nat, r: nat)
    requires Node(n, i) && Depth(i) < n && l == 2 * i && r == 2 * i + 1
    ensures Node(n, l) && Node(n, r)
    ensures Lo(n, l) == Lo(n, i) && Hi(n, l) == Lo(n, r) && Hi(n, r) == Hi(n, i)
    ensures Span(n, i) == 2 * Span(n, l) == 2 * Span(n, r)
  {
    ChildNodes(n, i);
    DepthRange(n, i);
    var p, s := Pow2(Depth(i) - 1), Span(n, l);
    assert Pow2(n - Depth(i)) == 2 * Pow2(n - Depth(i) - 1);
    assert Pow2(Depth(i)) == 2 * p;
    TimesTwice(s, i - p);
  }

  lemma {:induction false} TimesTwice(s: nat, k: nat)
    ensures Times(2 * s, k) == Times(s, 2 * k)
    ensures Times(s, 2 * k + 1) == Times(s, 2 * k) + s
    decreases k
  {
    if k > 0 {
      TimesTwice(s, k - 1);
    }
  }

  lemma {:induction false} RootSpan(n: nat)
    requires n >= 1
    ensures Node(n, 1) && Lo(n, 1) == 0 && Hi(n, 1) == Pow2(n - 1)
  {
    FirstNodeSpan(n, 1, 1);
  }

  lemma {:induction false} FirstNodeSpan(n: nat, d: nat, b: nat)
    requires 1 <= d <= n && b == Pow2(d - 1)
    ensures Node(n, b) && Lo(n, b) == 0 && Hi(n, b) == Pow2(n - d)
  {
    DepthUnique(b, d);
    DepthNode(n, b);
    LoOfFirst(n, b);
  }

  /** The first node of a row starts at slot 0. */
  lemma {:induction false} LoOfFirst(n: nat, b: nat)
    requires Node(n, b) && b == Pow2(Depth(b) - 1)
    ensures Lo(n, b) == 0
  {
  }

  /** A node below another spans part of its slots. */
  lemma {:induction false} UnderSpan(n: nat, a: nat, d: nat)
    requires Node(n, a) && Node(n, d) && Under(a, d)
    ensures Lo(n, a) <= Lo(n, d) < Hi(n, d) <= Hi(n, a)
    decreases d
  {
    if a != d {
      ParentNode(n, d);
      UnderSpan(n, a, d / 2);
      ChildSpans(n, d / 2, 2 * (d / 2), 2 * (d / 2) + 1);
    }
  }

  /** Nodes on different paths span disjoint slots. */
  lemma {:induction false} ApartSpan(n: nat, a: nat, b: nat)
    requires Node(n, a) && Node(n, b) && !Under(a, b) && !Under(b, a)
    ensures Hi(n, a) <= Lo(n, b) || Hi(n, b) <= Lo(n, a)
    decreases a + b
  {
    if Depth(a) >= Depth(b) {
      ApartSpanDeeper(n, a, b);
    } else {
      ApartSpanDeeper(n, b, a);
    }
  }

  lemma {:induction false} ApartSpanDeeper(n: nat, a: nat, b: nat)
    requires Node(n, a) && Node(n, b) && !Under(a, b) && !Under(b, a) && Depth(a) >= Depth(b)
    ensures Hi(n, a) <= Lo(n, b) || Hi(n, b) <= Lo(n, a)
    decreases a + b, 0
  {
    assert a > 1 by {
      if a == 1 {
        UnderRoot(b);
      }
    }
    ParentNode(n, a);
    var p := a / 2;
    ChildSpans(n, p, 2 * p, 2 * p + 1);
    assert !Under(b, p);
    if Under(p, b) {
      UnderDepth(p, b);
      UnderChild(p, b);
      var sibling := if a == 2 * p then 2 * p + 1 else 2 * p;
      ChildNodes(n, p);
      UnderDepth(sibling, b);
    } else {
      ApartSpan(n, p, b);
    }
  }

  /** Nodes that share a slot lie on one path. */
  lemma {:induction false} SharedSlot(n: nat, a: nat, b: nat, x: nat)
    requires Node(n, a) && Node(n, b) && Lo(n, a) <= x < Hi(n, a) && Lo(n, b) <= x < Hi(n, b)
    ensures Under(a, b) || Under(b, a)
  {
    if !Under(a, b) && !Under(b, a) {
      ApartSpan(n, a, b);
    }
  }

  /** The leaf for slot `x`. */
  lemma {:induction false} LeafSpan(n: nat, x: nat)
    requires n >= 1 && x < Pow2(n - 1)
    ensures Node(n, Pow2(n - 1) + x) && Depth(Pow2(n - 1) + x) == n
    ensures Lo(n, Pow2(n - 1) + x) == x && Hi(n, Pow2(n - 1) + x) == x + 1
  {
    DepthUnique(Pow2(n - 1) + x, n);
    TimesIsProduct(1, x);
  }
}
