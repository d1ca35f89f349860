/** Cardinality facts about finite sets, used to count pillars, tasks and the
    occupied cells of the grid. */
module Counting {

  /** The image of a set under a function. */
  ghost function Image<A, B>(s: set<A>, f: A -> B): set<B>
  {
    set x | x in s :: f(x)
  }

  /** An injective function does not shrink a set. */
  lemma {:induction false} InjectiveImageCard<A, B>(s: set<A>, f: A -> B)
    requires forall x, y | x in s && y in s && f(x) == f(y) :: x == y
    ensures |Image(s, f)| == |s|
  {
    if s != {} {
      var x :| x in s;
      InjectiveImageCard(s - {x}, f);
      assert Image(s, f) == Image(s - {x}, f) + {f(x)};
    }
  }

  /** A subset is no larger than its superset. */
  lemma {:induction false} SubsetCard<A>(s: set<A>, t: set<A>)
    requires s <= t
    ensures |s| <= |t|
  {
    if s != {} {
      var x :| x in s;
      SubsetCard(s - {x}, t - {x});
    }
  }

  /** A sequence without repeated elements has as many distinct elements as entries. */
  lemma {:induction false} DistinctCard<A>(xs: seq<A>)
    requires forall i, j | 0 <= i < j < |xs| :: xs[i] != xs[j]
    ensures |set x | x in xs| == |xs|
  {
    if xs != [] {
      DistinctCard(xs[1..]);
      assert (set x | x in xs) == (set x | x in xs[1..]) + {xs[0]};
      assert xs[0] !in xs[1..] by {
        forall k | 0 <= k < |xs[1..]| ensures xs[1..][k] != xs[0] {
          assert xs[1..][k] == xs[k + 1];
        }
      }
    }
  }

  /** The image of the product of two sets under a function of two arguments. */
  ghost function Pairs<A, B, C>(xs: set<A>, ys: set<B>, f: (A, B) -> C): set<C>
  {
    set a, b | a in xs && b in ys :: f(a, b)
  }

  /** One row of a product: the second arguments paired with a fixed first one. */
  ghost function Row<A, B, C>(f: (A, B) -> C, a: A): B -> C
  {
    b => f(a, b)
  }

  /** A product is the product without one row, plus that row. */
  lemma PairsSplit<A, B, C>(xs: set<A>, ys: set<B>, f: (A, B) -> C, a0: A)
    requires a0 in xs
    ensures Pairs(xs, ys, f) == Pairs(xs - {a0}, ys, f) + Image(ys, Row(f, a0))
  {
    var others, row := Pairs(xs - {a0}, ys, f), Image(ys, Row(f, a0));
    forall c | c in Pairs(xs, ys, f) ensures c in others + row {
      var a, b :| a in xs && b in ys && c == f(a, b);
      if a == a0 { assert c == Row(f, a0)(b); } else { assert a in xs - {a0}; }
    }
    forall c | c in others + row ensures c in Pairs(xs, ys, f) {
      if c in row { var b :| b in ys && Row(f, a0)(b) == c; assert c == f(a0, b); }
    }
  }

  /** Under an injective function, a row is as large as the second set and
      shares nothing with the other rows. */
  lemma RowCard<A, B, C>(xs: set<A>, ys: set<B>, f: (A, B) -> C, a0: A)
    requires a0 in xs
    requires forall a1, b1, a2, b2 | a1 in xs && a2 in xs && b1 in ys && b2 in ys && f(a1, b1) == f(a2, b2) ::
      a1 == a2 && b1 == b2
    ensures |Image(ys, Row(f, a0))| == |ys|
    ensures Pairs(xs - {a0}, ys, f) * Image(ys, Row(f, a0)) == {}
  {
    InjectiveImageCard(ys, Row(f, a0));
    forall a, b, b' | a in xs - {a0} && b in ys && b' in ys ensures f(a, b) != Row(f, a0)(b') {
      assert a != a0;
    }
  }

  /** An injective function of two arguments maps the product of two sets onto
      a set as large as the product. */
  lemma {:induction false} PairsCard<A, B, C>(xs: set<A>, ys: set<B>, f: (A, B) -> C)
    requires forall a1, b1, a2, b2 | a1 in xs && a2 in xs && b1 in ys && b2 in ys && f(a1, b1) == f(a2, b2) ::
      a1 == a2 && b1 == b2
    ensures |Pairs(xs, ys, f)| == |xs| * |ys|
  {
    if xs != {} {
      var a0 :| a0 in xs;
      var rest := xs - {a0};
      PairsCard(rest, ys, f);
      PairsSplit(xs, ys, f, a0);
      RowCard(xs, ys, f, a0);
      assert |Pairs(xs, ys, f)| == |rest| * |ys| + |ys|;
      calc {
        |rest| * |ys| + |ys|;
        (|rest| + 1) * |ys|;
        { assert |xs| == |rest| + 1; }
        |xs| * |ys|;
      }
    } else {
      assert Pairs(xs, ys, f) == {};
    }
  }
}
