/** The facts the enum canonicalisation pass computes over the sorted
    sequence of enum values (enums.go:46-67 and main.go:231-250). */
module EnumFlags {
  import opened GoTypes

  /** Some value is 0. */
  predicate HasZero(vs: seq<int64>)
  {
    exists k :: 0 <= k < |vs| && vs[k] == 0
  }

  /** Some value equals the one just before it. */
  predicate HasAdjacentEqual(vs: seq<int64>)
  {
    exists k :: 0 < k < |vs| && vs[k - 1] == vs[k]
  }

  /** Some value equals the one before it and is also greater than that
      previous value plus one, the addition wrapping as in Go. */
  predicate HasWrappedGap(vs: seq<int64>)
  {
    exists k :: 0 < k < |vs| && WrappedGap(vs[k - 1], vs[k])
  }

  /** v equals prev and is greater than prev + 1 with Go's wrapping. */
  predicate WrappedGap(prev: int64, v: int64)
  {
    v == prev && v > AddWrap(prev, 1)
  }

  predicate NonDecreasing(vs: seq<int64>)
  {
    forall i, j :: 0 <= i < j < |vs| ==> vs[i] <= vs[j]
  }

  /** How each fact changes when the scan moves one value further. */
  lemma ZeroStep(vs: seq<int64>, i: nat)
    requires i < |vs|
    ensures HasZero(vs[..i + 1]) == (HasZero(vs[..i]) || vs[i] == 0)
  {
    var p, q := vs[..i], vs[..i + 1];
    assert q[i] == vs[i];
    if HasZero(q) {
      var k :| 0 <= k < |q| && q[k] == 0;
      assert k < i ==> p[k] == 0;
    }
    if HasZero(p) {
      var k :| 0 <= k < |p| && p[k] == 0;
      assert q[k] == 0;
    }
  }

  lemma AdjacentEqualStep(vs: seq<int64>, i: nat)
    requires i < |vs|
    ensures HasAdjacentEqual(vs[..i + 1]) == (HasAdjacentEqual(vs[..i]) || (0 < i && vs[i - 1] == vs[i]))
  {
    var p, q := vs[..i], vs[..i + 1];
    assert q[i] == vs[i] && (0 < i ==> q[i - 1] == vs[i - 1]);
    if HasAdjacentEqual(q) {
      var k :| 0 < k < |q| && q[k - 1] == q[k];
      assert k < i ==> p[k - 1] == p[k];
    }
    if HasAdjacentEqual(p) {
      var k :| 0 < k < |p| && p[k - 1] == p[k];
      assert q[k - 1] == q[k];
    }
  }

  lemma WrappedGapStep(vs: seq<int64>, i: nat)
    requires i < |vs|
    ensures HasWrappedGap(vs[..i + 1]) == (HasWrappedGap(vs[..i]) || (0 < i && WrappedGap(vs[i - 1], vs[i])))
  {
    var p, q := vs[..i], vs[..i + 1];
    if HasWrappedGap(q) {
      var k :| 0 < k < |q| && WrappedGap(q[k - 1], q[k]);
      if k < i {
        assert p[k - 1] == q[k - 1] && p[k] == q[k];
        assert WrappedGap(p[k - 1], p[k]);
      } else {
        assert q[k - 1] == vs[i - 1] && q[k] == vs[i];
      }
    }
    if HasWrappedGap(p) {
      var k :| 0 < k < |p| && WrappedGap(p[k - 1], p[k]);
      assert q[k - 1] == p[k - 1] && q[k] == p[k];
      assert WrappedGap(q[k - 1], q[k]);
    }
    if 0 < i && WrappedGap(vs[i - 1], vs[i]) {
      assert q[i - 1] == vs[i - 1] && q[i] == vs[i];
      assert WrappedGap(q[i - 1], q[i]);
    }
  }

  /** In a non-decreasing sequence, two adjacent equal values exist exactly
      when some value occurs twice. */
  lemma AdjacentEqualIffRepeated(vs: seq<int64>)
    requires NonDecreasing(vs)
    ensures HasAdjacentEqual(vs) <==> exists i, j :: 0 <= i < j < |vs| && vs[i] == vs[j]
  {
    if i, j :| 0 <= i < j < |vs| && vs[i] == vs[j] {
      assert vs[i] <= vs[i + 1] <= vs[j];
      assert vs[i + 1 - 1] == vs[i + 1];
    }
    if HasAdjacentEqual(vs) {
      var k :| 0 < k < |vs| && vs[k - 1] == vs[k];
      assert 0 <= k - 1 < k < |vs| && vs[k - 1] == vs[k];
    }
  }

  /** Under wrapping arithmetic `v == prev && v > prev + 1` holds only when
      both are MaxInt64, whose successor wraps to MinInt64. */
  lemma WrappedGapOnlyAtMax(vs: seq<int64>)
    ensures HasWrappedGap(vs) <==> exists k :: 0 < k < |vs| && vs[k - 1] == MaxInt64 && vs[k] == MaxInt64
  {
    if HasWrappedGap(vs) {
      var k :| 0 < k < |vs| && WrappedGap(vs[k - 1], vs[k]);
    }
    if k :| 0 < k < |vs| && vs[k - 1] == MaxInt64 && vs[k] == MaxInt64 {
      assert AddWrap(MaxInt64, 1) == MinInt64;
      assert WrappedGap(vs[k - 1], vs[k]);
    }
  }

  /** In a non-decreasing sequence the wrapped gap is seen exactly when
      MaxInt64 occurs at least twice. */
  lemma WrappedGapIffMaxRepeated(vs: seq<int64>)
    requires NonDecreasing(vs)
    ensures HasWrappedGap(vs) <==> exists i, j :: 0 <= i < j < |vs| && vs[i] == MaxInt64 && vs[j] == MaxInt64
  {
    WrappedGapOnlyAtMax(vs);
    if i, j :| 0 <= i < j < |vs| && vs[i] == MaxInt64 && vs[j] == MaxInt64 {
      assert vs[i] <= vs[i + 1] <= vs[j];
      assert vs[i + 1 - 1] == MaxInt64 && vs[i + 1] == MaxInt64;
    }
    if k :| 0 < k < |vs| && vs[k - 1] == MaxInt64 && vs[k] == MaxInt64 {
      assert 0 <= k - 1 < k < |vs|;
    }
  }
}
