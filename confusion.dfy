/** `sklearn.metrics.confusion_matrix(y_true, y_pred)`, the matrix both training scripts write
    into their reports and the chart scripts read back. */
module Confusion {
  import opened Counting

  /** The number of positions whose true label is `a` and whose predicted label is `b`. */
  function PairCount(yt: seq<int>, yp: seq<int>, a: int, b: int): (n: nat)
    requires |yt| == |yp|
    ensures n <= |yt|
  {
    if yt == [] then 0
    else (if yt[0] == a && yp[0] == b then 1 else 0) + PairCount(yt[1..], yp[1..], a, b)
  }

  type Matrix = seq<seq<nat>>

  predicate Square(m: Matrix) {
    forall i :: 0 <= i < |m| ==> |m[i]| == |m|
  }

  /** The labels are the distinct values of both lists, ascending; cell `[i][j]` counts the
      positions whose true label is the `i`-th label and whose prediction is the `j`-th. */
  function ConfusionMatrix(yt: seq<int>, yp: seq<int>): (m: Matrix)
    requires |yt| == |yp|
    ensures Square(m) && |m| == |Keys(yt + yp)|
  {
    var ls := Keys(yt + yp);
    seq(|ls|, i requires 0 <= i < |ls| =>
      seq(|ls|, j requires 0 <= j < |ls| => PairCount(yt, yp, ls[i], ls[j])))
  }

  predicate Binary(ys: seq<int>) {
    forall k :: 0 <= k < |ys| ==> ys[k] == 0 || ys[k] == 1
  }

  /** Every position of 0/1 lists falls in exactly one of the four cells. */
  lemma {:induction false} PairTotal(yt: seq<int>, yp: seq<int>)
    requires |yt| == |yp| && Binary(yt) && Binary(yp)
    ensures PairCount(yt, yp, 0, 0) + PairCount(yt, yp, 0, 1) +
            PairCount(yt, yp, 1, 0) + PairCount(yt, yp, 1, 1) == |yt|
  {
    if yt != [] {
      assert yt[0] == 0 || yt[0] == 1;
      assert yp[0] == 0 || yp[0] == 1;
      PairTotal(yt[1..], yp[1..]);
    }
  }

  lemma Spread(ks: seq<int>)
    requires Ascending(ks)
    ensures |ks| < 3 || ks[2] >= ks[0] + 2
  {
    if |ks| >= 3 {
      assert ks[0] < ks[1] && ks[1] < ks[2];
    }
  }

  /** An ascending sequence of 0s and 1s that holds both is exactly [0, 1]. */
  lemma BinaryKeys(ks: seq<int>)
    requires Ascending(ks) && forall x :: x in ks ==> x == 0 || x == 1
    requires 0 in ks && 1 in ks
    ensures ks == [0, 1]
  {
    forall i | 0 <= i < |ks| ensures ks[i] == 0 || ks[i] == 1 {
      assert ks[i] in ks;
    }
    Spread(ks);
  }

  /** With 0/1 labels of which both occur, the matrix is `[[TN, FP], [FN, TP]]` and its four
      cells add up to the number of rows. */
  lemma BinaryMatrix(yt: seq<int>, yp: seq<int>)
    requires |yt| == |yp| && Binary(yt) && Binary(yp)
    requires 0 in yt + yp && 1 in yt + yp
    ensures ConfusionMatrix(yt, yp) ==
      [[PairCount(yt, yp, 0, 0), PairCount(yt, yp, 0, 1)],
       [PairCount(yt, yp, 1, 0), PairCount(yt, yp, 1, 1)]]
    ensures var m := ConfusionMatrix(yt, yp); m[0][0] + m[0][1] + m[1][0] + m[1][1] == |yt|
  {
    var ys := yt + yp;
    forall x | x in ys ensures x == 0 || x == 1 {
      var k :| 0 <= k < |ys| && ys[k] == x;
      if k < |yt| { assert ys[k] == yt[k]; } else { assert ys[k] == yp[k - |yt|]; }
    }
    var ls := Keys(ys);
    BinaryKeys(ls);
    var m := ConfusionMatrix(yt, yp);
    assert |m| == 2;
    assert m[0] == [PairCount(yt, yp, 0, 0), PairCount(yt, yp, 0, 1)];
    assert m[1] == [PairCount(yt, yp, 1, 0), PairCount(yt, yp, 1, 1)];
    PairTotal(yt, yp);
  }
}
