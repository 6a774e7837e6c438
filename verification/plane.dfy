/**
 * `Polygon::relationWithPlane`: each vertex yields one tested value, the
 * value is put in a tolerant sign class, the classes are counted, and the
 * counts decide between COINCIDENT, IN_FRONT, BEHIND and SPLIT.
 *
 * The per-vertex value (a dot product computed by geometry code that is not
 * part of this model) is an input here. `RelationWithPlane` is the classifier
 * with one value per vertex, which the tree uses; `RelationWithPlaneAsWritten`
 * is the loop as the source writes it, where the tested value does not depend
 * on the vertex.
 */
module PolygonRelation {
  import opened DataType

  /** The sign class of one vertex. */
  datatype Sign = Positive | Negative | Zero

  /**
   * `value > 0` and `value < 0` are the tolerant comparisons with a built-in
   * zero, so everything in the closed band [-EPSILON, EPSILON] is Zero.
   */
  function SignOf(v: Safe): (s: Sign)
    ensures s == Positive <==> v.value > EPSILON
    ensures s == Negative <==> v.value < -EPSILON
    ensures s == Zero <==> -EPSILON <= v.value <= EPSILON
  {
    if GtNum(v, 0.0) then Positive else if LtNum(v, 0.0) then Negative else Zero
  }

  /** The sign class of each vertex, in vertex order. */
  function Signs(values: seq<Safe>): seq<Sign> {
    seq(|values|, i requires 0 <= i < |values| => SignOf(values[i]))
  }

  /** How many vertices fall in class `c` (counted from the back, as a loop extends it). */
  function Count(s: seq<Sign>, c: Sign): nat {
    if s == [] then 0 else Count(s[..|s| - 1], c) + (if s[|s| - 1] == c then 1 else 0)
  }

  /**
   * The decision made from the three counters. COINCIDENT exactly when every
   * vertex is in the zero band, the empty polygon included.
   */
  function Aggregate(s: seq<Sign>): (r: RelationType)
    ensures r == COINCIDENT <==> forall i :: 0 <= i < |s| ==> s[i] == Zero
  {
    CountAll(s, Zero);
    if Count(s, Zero) == |s| then COINCIDENT
    else if Count(s, Positive) == |s| then IN_FRONT
    else if Count(s, Negative) == |s| then BEHIND
    else SPLIT
  }

  /** The relation of a polygon whose vertices give the tested values `values`. */
  function Relation(values: seq<Safe>): RelationType {
    Aggregate(Signs(values))
  }

  // ---------------------------------------------------------------------
  // The counters

  /** Every vertex increments exactly one counter, so the counters sum to the vertex count. */
  lemma {:induction false} CountsPartition(s: seq<Sign>)
    ensures Count(s, Positive) + Count(s, Negative) + Count(s, Zero) == |s|
  {
    if s != [] {
      CountsPartition(s[..|s| - 1]);
    }
  }

  /** A counter reaches the vertex count exactly when every vertex is in its class. */
  lemma {:induction false} CountAll(s: seq<Sign>, c: Sign)
    ensures Count(s, c) == |s| <==> forall i :: 0 <= i < |s| ==> s[i] == c
  {
    if s != [] {
      var init := s[..|s| - 1];
      CountAll(init, c);
      CountBound(init, c);
      if Count(s, c) == |s| {
        forall i | 0 <= i < |s| ensures s[i] == c {
          if i < |s| - 1 {
            assert s[i] == init[i];
          }
        }
      }
      if forall i :: 0 <= i < |s| ==> s[i] == c {
        forall i | 0 <= i < |init| ensures init[i] == c {
          assert init[i] == s[i];
        }
      }
    }
  }

  lemma {:induction false} CountBound(s: seq<Sign>, c: Sign)
    ensures Count(s, c) <= |s|
  {
    if s != [] {
      CountBound(s[..|s| - 1], c);
    }
  }

  /** A counter is the multiplicity of its class among the vertices. */
  lemma {:induction false} CountIsMultiplicity(s: seq<Sign>, c: Sign)
    ensures Count(s, c) == multiset(s)[c]
  {
    if s != [] {
      var init := s[..|s| - 1];
      CountIsMultiplicity(init, c);
      assert s == init + [s[|s| - 1]];
      assert multiset(s) == multiset(init) + multiset{s[|s| - 1]};
    }
  }

  // ---------------------------------------------------------------------
  // The four-way decision

  /** IN_FRONT exactly when there are vertices and all are strictly positive. */
  lemma AggregateInFront(s: seq<Sign>)
    ensures Aggregate(s) == IN_FRONT <==> |s| > 0 && forall i :: 0 <= i < |s| ==> s[i] == Positive
  {
    CountAll(s, Zero);
    CountAll(s, Positive);
    if |s| > 0 && forall i :: 0 <= i < |s| ==> s[i] == Positive {
      assert s[0] != Zero;
    }
  }

  /** BEHIND exactly when there are vertices and all are strictly negative. */
  lemma AggregateBehind(s: seq<Sign>)
    ensures Aggregate(s) == BEHIND <==> |s| > 0 && forall i :: 0 <= i < |s| ==> s[i] == Negative
  {
    CountAll(s, Zero);
    CountAll(s, Positive);
    CountAll(s, Negative);
    if |s| > 0 && forall i :: 0 <= i < |s| ==> s[i] == Negative {
      assert s[0] != Zero && s[0] != Positive;
    }
  }

  /** SPLIT exactly when two vertices fall in different classes (a zero next to a positive included). */
  lemma AggregateSplit(s: seq<Sign>)
    ensures Aggregate(s) == SPLIT <==> exists i, j :: 0 <= i < |s| && 0 <= j < |s| && s[i] != s[j]
  {
    AggregateInFront(s);
    AggregateBehind(s);
    if Aggregate(s) == SPLIT {
      assert |s| > 0;
      var k :| 0 <= k < |s| && s[k] != s[0];
      assert s[k] != s[0];
    }
  }

  /** The decision depends only on the multiset of sign classes, not on vertex order. */
  lemma AggregateOrderInvariant(s: seq<Sign>, t: seq<Sign>)
    requires multiset(s) == multiset(t)
    ensures Aggregate(s) == Aggregate(t)
  {
    assert |s| == |multiset(s)| == |t|;
    CountIsMultiplicity(s, Zero);
    CountIsMultiplicity(t, Zero);
    CountIsMultiplicity(s, Positive);
    CountIsMultiplicity(t, Positive);
    CountIsMultiplicity(s, Negative);
    CountIsMultiplicity(t, Negative);
  }

  /** Values on the band edge are zero-class, so one of them among positives makes a SPLIT. */
  lemma BandEdgeSplits()
    ensures SignOf(Safe(EPSILON)) == Zero && SignOf(Safe(-EPSILON)) == Zero
    ensures Relation([Safe(1.0), Safe(1.0), Safe(EPSILON)]) == SPLIT
  {
    var s := Signs([Safe(1.0), Safe(1.0), Safe(EPSILON)]);
    assert s[0] == Positive && s[2] == Zero;
    AggregateSplit(s);
  }

  // ---------------------------------------------------------------------
  // The counting loop

  /**
   * One tested value per vertex: count the classes, then decide.
   * The counters are kept equal to the class counts of the vertices seen so far.
   */
  method RelationWithPlane(values: seq<Safe>) returns (r: RelationType)
    ensures r == Relation(values)
  {
    ghost var s := Signs(values);
    var posCnt, negCnt, zCnt := 0, 0, 0;
    var i := 0;
    while i < |values|
      invariant 0 <= i <= |values|
      invariant posCnt == Count(s[..i], Positive)
      invariant negCnt == Count(s[..i], Negative)
      invariant zCnt == Count(s[..i], Zero)
    {
      assert s[..i + 1][..i] == s[..i];
      var normalProduct := values[i];
      if GtNum(normalProduct, 0.0) {
        posCnt := posCnt + 1;
      } else if LtNum(normalProduct, 0.0) {
        negCnt := negCnt + 1;
      } else {
        zCnt := zCnt + 1;
      }
      i := i + 1;
    }
    assert s[..i] == s;
    if zCnt == |values| {
      r := COINCIDENT;
    } else if posCnt == |values| {
      r := IN_FRONT;
    } else if negCnt == |values| {
      r := BEHIND;
    } else {
      r := SPLIT;
    }
  }

  // ---------------------------------------------------------------------
  // The loop as written: one value for every vertex

  /** `n` copies of one sign class. */
  function Repeat(c: Sign, n: nat): (s: seq<Sign>)
    ensures |s| == n && forall i :: 0 <= i < n ==> s[i] == c
  {
    if n == 0 then [] else Repeat(c, n - 1) + [c]
  }

  /**
   * The source's loop visits every vertex but tests the same value
   * `normalProduct` each time, so every vertex falls in the same class.
   */
  method RelationWithPlaneAsWritten<V>(vertices: seq<V>, normalProduct: Safe) returns (r: RelationType)
    ensures r == Aggregate(Repeat(SignOf(normalProduct), |vertices|))
  {
    ghost var s := Repeat(SignOf(normalProduct), |vertices|);
    var posCnt, negCnt, zCnt := 0, 0, 0;
    var i := 0;
    while i < |vertices|
      invariant 0 <= i <= |vertices|
      invariant posCnt == Count(s[..i], Positive)
      invariant negCnt == Count(s[..i], Negative)
      invariant zCnt == Count(s[..i], Zero)
    {
      assert s[..i + 1][..i] == s[..i];
      if GtNum(normalProduct, 0.0) {
        posCnt := posCnt + 1;
      } else if LtNum(normalProduct, 0.0) {
        negCnt := negCnt + 1;
      } else {
        zCnt := zCnt + 1;
      }
      i := i + 1;
    }
    assert s[..i] == s;
    if zCnt == |vertices| {
      r := COINCIDENT;
    } else if posCnt == |vertices| {
      r := IN_FRONT;
    } else if negCnt == |vertices| {
      r := BEHIND;
    } else {
      r := SPLIT;
    }
  }

  /** As written the classifier can never answer SPLIT. */
  lemma AsWrittenNeverSplits(c: Sign, n: nat)
    ensures Aggregate(Repeat(c, n)) != SPLIT
  {
    AggregateSplit(Repeat(c, n));
  }

  /** A triangle straddling the plane: the per-vertex classifier says SPLIT. */
  lemma StraddlingTriangleSplits()
    ensures Relation([Safe(1.0), Safe(-1.0), Safe(1.0)]) == SPLIT
  {
    var s := Signs([Safe(1.0), Safe(-1.0), Safe(1.0)]);
    assert s[0] == Positive && s[1] == Negative;
    AggregateSplit(s);
  }
}
