/** Sequences of sequences, as produced by batching and block-wise reads, and finite sets. */
module Seqs {

  /** The concatenation of all pieces, in order. */
  function Flatten<T>(ss: seq<seq<T>>): seq<T>
  {
    if ss == [] then [] else Flatten(ss[..|ss| - 1]) + ss[|ss| - 1]
  }

  lemma FlattenAppend<T>(ss: seq<seq<T>>, s: seq<T>)
    ensures Flatten(ss + [s]) == Flatten(ss) + s
  {
    assert (ss + [s])[..|ss|] == ss;
  }

  /** An element of one piece is an element of the concatenation. */
  lemma {:induction false} InFlatten<T>(ss: seq<seq<T>>, k: nat, x: T)
    requires k < |ss| && x in ss[k]
    ensures x in Flatten(ss)
  {
    if k < |ss| - 1 {
      InFlatten(ss[..|ss| - 1], k, x);
    }
  }

  /** Every element of one piece is an element of the concatenation. */
  lemma PieceInFlatten<T>(ss: seq<seq<T>>, k: nat)
    requires k < |ss|
    ensures forall x :: x in ss[k] ==> x in Flatten(ss)
  {
    forall x | x in ss[k]
      ensures x in Flatten(ss)
    {
      InFlatten(ss, k, x);
    }
  }

  /** The pieces up to k + 1 are those up to k followed by piece k. */
  lemma FlattenTakeMore<T>(ss: seq<seq<T>>, k: nat)
    requires k < |ss|
    ensures Flatten(ss[..k + 1]) == Flatten(ss[..k]) + ss[k]
  {
    assert ss[..k + 1] == ss[..k] + [ss[k]];
    FlattenAppend(ss[..k], ss[k]);
  }

  lemma FlattenTakeAll<T>(ss: seq<seq<T>>)
    ensures Flatten(ss[..|ss|]) == Flatten(ss)
  {
    assert ss[..|ss|] == ss;
  }

  /** A subset is no larger than its superset. */
  lemma {:induction false} SubsetCardinality<T>(a: set<T>, b: set<T>)
    requires a <= b
    ensures |a| <= |b|
    decreases a
  {
    if a != {} {
      var x :| x in a;
      SubsetCardinality(a - {x}, b - {x});
    }
  }

  /** What a sequence gained past a prefix is what it gained past a longer prefix, after what that one gained. */
  lemma GainedSplit<T>(a: seq<T>, b: seq<T>, c: seq<T>)
    requires a <= b && b <= c
    ensures c[|a|..] == b[|a|..] + c[|b|..]
  {
  }

  /** Adding to a subset an element of the superset it lacks makes it one larger, and still no larger than the superset. */
  lemma AddToSubset<T>(a: set<T>, b: set<T>, x: T)
    requires a <= b && x in b && x !in a
    ensures a + {x} <= b && |a + {x}| == |a| + 1 && |a + {x}| <= |b|
  {
    SubsetCardinality(a + {x}, b);
  }

  /** One more item joins the pending piece; yielding the piece as a batch keeps the concatenation. */
  lemma PushPending<T>(batches: seq<seq<T>>, pending: seq<T>, base: seq<T>, made: seq<T>, x: T)
    requires Flatten(batches) + pending == base + made
    ensures Flatten(batches) + (pending + [x]) == base + (made + [x])
    ensures Flatten(batches + [pending + [x]]) + [] == base + (made + [x])
  {
    var f := Flatten(batches);
    Associative(f, pending, [x]);
    Associative(base, made, [x]);
    FlattenAppend(batches, pending + [x]);
    assert Flatten(batches + [pending + [x]]) + [] == Flatten(batches + [pending + [x]]);
  }

  lemma Associative<T>(a: seq<T>, b: seq<T>, c: seq<T>)
    ensures (a + b) + c == a + (b + c)
  {
  }

  lemma Regroup<T>(p: seq<T>, q: seq<T>, r: seq<T>, s: seq<T>)
    ensures p + (q + (r + s)) == (p + (q + r)) + s
  {
    Associative(q, r, s);
    Associative(p, q + r, s);
  }

  /** A piece framed by a mark on each side, with a separator between its two parts. */
  lemma Framed<T>(q: T, a: seq<T>, b: T, c: seq<T>)
    ensures var s := [q] + a + [b] + c + [q];
      && |s| == |a| + |c| + 3 && s[0] == q && s[|s| - 1] == q
      && s[1..|a| + 1] == a && s[|a| + 1] == b && s[|a| + 2..|a| + 2 + |c|] == c
  {
  }
}
