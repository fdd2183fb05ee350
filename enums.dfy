/** enums.go: an enum collects the constants of one declared type,
    then sorts them and records whether 0 is missing, whether values
    repeat (proto3's allow_alias) and the HasGaps diagnostic. */
module Enums {
  import opened GoTypes
  import opened GoStrings
  import opened Sorting
  import opened EnumFlags

  /** One enum value: its proto name, its parsed value and the constant it
      came from. */
  datatype EnumValue = EnumValue(Name: string, Value: int64, Const: Decl)

  /** The less function Canonicalize hands to sort.Slice: by Value, and by
      Name among equal values. */
  predicate ValueLess(a: EnumValue, b: EnumValue)
  {
    if a.Value == b.Value then Less(a.Name, b.Name) else a.Value < b.Value
  }

  /** Enum values are sorted on the whole value. */
  function Whole(v: EnumValue): EnumValue { v }

  lemma ValueLessIsStrictOrder()
    ensures StrictOrder(ValueLess)
  {
    forall a: EnumValue
      ensures !ValueLess(a, a)
    {
      LessIrreflexive(a.Name);
    }
    forall a: EnumValue, b: EnumValue, c: EnumValue | ValueLess(a, b) && ValueLess(b, c)
      ensures ValueLess(a, c)
    {
      if a.Value == b.Value == c.Value {
        LessTransitive(a.Name, b.Name, c.Name);
      }
    }
  }

  /** Two values neither of which sorts before the other agree on Value and
      Name: the order is total on (Value, Name). */
  lemma SameKey(a: EnumValue, b: EnumValue)
    requires !ValueLess(a, b) && !ValueLess(b, a)
    ensures a.Value == b.Value && a.Name == b.Name
  {
    if a.Value == b.Value && a.Name != b.Name {
      LessTotal(a.Name, b.Name);
    }
  }

  /** The sort.Slice call of Canonicalize. */
  function SortByValue(s: seq<EnumValue>): (r: seq<EnumValue>)
    ensures SortedBy(r, Whole, ValueLess) && multiset(r) == multiset(s)
  {
    ValueLessIsStrictOrder();
    Sort(s, Whole, ValueLess)
  }

  /** The integer values, in order. */
  function ValuesOf(s: seq<EnumValue>): (vs: seq<int64>)
    ensures |vs| == |s|
    ensures forall k :: 0 <= k < |s| ==> vs[k] == s[k].Value
  {
    seq(|s|, k requires 0 <= k < |s| => s[k].Value)
  }

  lemma SortedValuesNonDecreasing(s: seq<EnumValue>)
    requires SortedBy(s, Whole, ValueLess)
    ensures NonDecreasing(ValuesOf(s))
  {
    var vs := ValuesOf(s);
    forall i, j | 0 <= i < j < |vs|
      ensures vs[i] <= vs[j]
    {
      assert !ValueLess(s[j], s[i]);
    }
  }

  /** What Canonicalize promises, from the values and flags before the
      call to those after it: the values are sorted by (Value, Name) and are
      a permutation of the old ones; MissingDefault is recomputed; AllowAlias
      and HasGaps can only be switched on. */
  ghost predicate Canonical(before: seq<EnumValue>, alias0: bool, gaps0: bool,
                            after: seq<EnumValue>, missing: bool, alias: bool, gaps: bool)
  {
    && SortedBy(after, Whole, ValueLess)
    && multiset(after) == multiset(before)
    && missing == !HasZero(ValuesOf(after))
    && alias == (alias0 || HasAdjacentEqual(ValuesOf(after)))
    && gaps == (gaps0 || HasWrappedGap(ValuesOf(after)))
  }

  /** The flags in terms of the values themselves: MissingDefault holds iff
      no value is 0; AllowAlias is its old value or some value repeats;
      HasGaps is its old value or MaxInt64 occurs at least twice. */
  lemma CanonicalFlags(before: seq<EnumValue>, alias0: bool, gaps0: bool,
                       after: seq<EnumValue>, missing: bool, alias: bool, gaps: bool)
    requires Canonical(before, alias0, gaps0, after, missing, alias, gaps)
    ensures missing <==> forall v :: v in before ==> v.Value != 0
    ensures alias <==> alias0 || exists i, j :: 0 <= i < j < |after| && after[i].Value == after[j].Value
    ensures gaps <==> gaps0 || exists i, j :: 0 <= i < j < |after| && after[i].Value == MaxInt64 && after[j].Value == MaxInt64
  {
    var vs := ValuesOf(after);
    SortedValuesNonDecreasing(after);
    AdjacentEqualIffRepeated(vs);
    WrappedGapIffMaxRepeated(vs);
    ZeroIffZeroValue(before, after);
  }

  /** A permutation has a value 0 exactly when the original does. */
  lemma ZeroIffZeroValue(s: seq<EnumValue>, r: seq<EnumValue>)
    requires multiset(r) == multiset(s)
    ensures HasZero(ValuesOf(r)) <==> exists v :: v in s && v.Value == 0
  {
    var vs := ValuesOf(r);
    if HasZero(vs) {
      var k :| 0 <= k < |vs| && vs[k] == 0;
      assert r[k] in multiset(r);
    }
    if v :| v in s && v.Value == 0 {
      assert v in multiset(r);
      var k :| 0 <= k < |r| && r[k] == v;
      assert vs[k] == 0;
    }
  }

  /** In a sorted sequence, every value from the first up to one with the
      first value's (Value, Name) has that same (Value, Name). */
  lemma KeyRun(t: seq<EnumValue>, j: nat)
    requires SortedBy(t, Whole, ValueLess) && j < |t|
    requires t[j].Value == t[0].Value && t[j].Name == t[0].Name
    ensures forall m :: 0 <= m <= j ==> t[m].Value == t[0].Value && t[m].Name == t[0].Name
  {
    forall m | 0 <= m <= j
      ensures t[m].Value == t[0].Value && t[m].Name == t[0].Name
    {
      ValueLessIsStrictOrder();
      assert !ValueLess(t[m], t[0]) && !ValueLess(t[j], t[m]);
      SameKey(t[m], t[0]);
    }
  }

  /** Removing element j from such a run shifts the (Value, Name) pairs
      after position 0 one place to the left. */
  lemma RemoveFromRun(t: seq<EnumValue>, j: nat)
    requires j < |t|
    requires forall m :: 0 <= m <= j ==> t[m].Value == t[0].Value && t[m].Name == t[0].Name
    ensures var t' := t[..j] + t[j + 1..];
            forall k :: 1 <= k < |t| ==> t'[k - 1].Value == t[k].Value && t'[k - 1].Name == t[k].Name
  {
    var t' := t[..j] + t[j + 1..];
    forall k | 1 <= k < |t|
      ensures t'[k - 1].Value == t[k].Value && t'[k - 1].Name == t[k].Name
    {
      if k - 1 < j {
        assert t'[k - 1] == t[k - 1];
      } else {
        assert t'[k - 1] == t[k];
      }
    }
  }

  /** Two sequences sorted by (Value, Name) that are permutations of each
      other list the same (Value, Name) pairs in the same order, even when
      sort.Slice ordered equal pairs from different constants differently. */
  lemma {:induction false} SortedPermutationsAgree(s: seq<EnumValue>, t: seq<EnumValue>)
    requires SortedBy(s, Whole, ValueLess) && SortedBy(t, Whole, ValueLess)
    requires multiset(s) == multiset(t)
    ensures |s| == |t|
    ensures forall k :: 0 <= k < |s| ==> s[k].Value == t[k].Value && s[k].Name == t[k].Name
    decreases |s|
  {
    assert |s| == |multiset(s)| == |multiset(t)| == |t|;
    if s != [] {
      assert s[0] in multiset(t) && t[0] in multiset(s);
      var j :| 0 <= j < |t| && t[j] == s[0];
      var i :| 0 <= i < |s| && s[i] == t[0];
      ValueLessIsStrictOrder();
      assert !ValueLess(t[j], t[0]) && !ValueLess(s[i], s[0]);
      SameKey(s[0], t[0]);
      KeyRun(t, j);
      var t' := t[..j] + t[j + 1..];
      RemoveFromRun(t, j);
      SortedRemove(t, j, Whole, ValueLess);
      RemoveMatching(s, t, j);
      var s' := s[1..];
      SortedPermutationsAgree(s', t');
      forall k | 1 <= k < |s|
        ensures s[k].Value == t[k].Value && s[k].Name == t[k].Name
      {
        assert s[k] == s'[k - 1];
      }
    }
  }

  /** Taking the same element out of two permutations of each other leaves
      permutations of each other. */
  lemma RemoveMatching<T>(s: seq<T>, t: seq<T>, j: nat)
    requires multiset(s) == multiset(t) && s != [] && j < |t| && t[j] == s[0]
    ensures multiset(t[..j] + t[j + 1..]) == multiset(s[1..])
  {
    assert t == t[..j] + [t[j]] + t[j + 1..];
    assert multiset(t) == multiset(t[..j]) + multiset{t[j]} + multiset(t[j + 1..]);
    assert s == [s[0]] + s[1..];
    assert multiset(s) == multiset{s[0]} + multiset(s[1..]);
    var t' := t[..j] + t[j + 1..];
    assert multiset(t') == multiset(t[..j]) + multiset(t[j + 1..]);
    forall z ensures multiset(t')[z] == multiset(s[1..])[z] {
      assert multiset(t)[z] == multiset(t')[z] + multiset{t[j]}[z];
      assert multiset(s)[z] == multiset(s[1..])[z] + multiset{s[0]}[z];
    }
  }

  /** Running Canonicalize a second time lists the same (Name, Value)
      pairs in the same order and leaves every flag as the first run set
      it. */
  lemma CanonicalizeIdempotent(v0: seq<EnumValue>, a0: bool, g0: bool,
                               v1: seq<EnumValue>, m1: bool, a1: bool, g1: bool,
                               v2: seq<EnumValue>, m2: bool, a2: bool, g2: bool)
    requires Canonical(v0, a0, g0, v1, m1, a1, g1)
    requires Canonical(v1, a1, g1, v2, m2, a2, g2)
    ensures |v2| == |v1|
    ensures forall k :: 0 <= k < |v1| ==> v2[k].Name == v1[k].Name && v2[k].Value == v1[k].Value
    ensures m2 == m1 && a2 == a1 && g2 == g1
  {
    SortedPermutationsAgree(v1, v2);
    assert ValuesOf(v1) == ValuesOf(v2);
  }

  /** An enum of proto3 values under construction (enums.go:11-18). */
  class Enum {
    const Name: string
    var Values: seq<EnumValue>
    var AllowAlias: bool
    var MissingDefault: bool
    var HasGaps: bool
    const Object: Decl

    /** A new enum with no values and every flag false. */
    constructor (name: string, obj: Decl)
      ensures Name == name && Object == obj
      ensures Values == [] && !AllowAlias && !MissingDefault && !HasGaps
    {
      Name := name;
      Object := obj;
      Values := [];
      AllowAlias, MissingDefault, HasGaps := false, false, false;
    }

    /** AddValue: parse the constant's value (base detected from its
        prefix, 64 bits); on success append exactly one value, named in
        SCREAMING_SNAKE_CASE, at the end; on failure report the error and
        leave the values as they were. */
    method AddValue(c: Decl, lib: Foreign) returns (result: Option<EnumValue>, err: Option<Error>)
      requires c.constVal.Some?
      modifies this`Values
      ensures lib.parseInt(c.constVal.value, 0).Some? ==>
                && err == None
                && result == Some(EnumValue(lib.toScreamingSnake(c.name), lib.parseInt(c.constVal.value, 0).value, c))
                && Values == old(Values) + [result.value]
      ensures lib.parseInt(c.constVal.value, 0).None? ==>
                err == Some(ParseIntError(c.constVal.value)) && result == None && Values == old(Values)
    {
      var val := lib.parseInt(c.constVal.value, 0);
      if val.Some? {
        var v := EnumValue(lib.toScreamingSnake(c.name), val.value, c);
        Values := Values + [v];
        result, err := Some(v), None;
      } else {
        result, err := None, Some(ParseIntError(c.constVal.value));
      }
    }

    /** Canonicalize: sort the values by (Value, Name), then scan them once
        to set the flags. */
    method Canonicalize()
      modifies this`Values, this`MissingDefault, this`AllowAlias, this`HasGaps
      ensures Canonical(old(Values), old(AllowAlias), old(HasGaps), Values, MissingDefault, AllowAlias, HasGaps)
    {
      Values := SortByValue(Values);
      ScanFlags();
    }

    /** The scan of Canonicalize over the sorted values: MissingDefault is
        set first and cleared at a 0; at two adjacent equal values AllowAlias
        is switched on, and so is HasGaps if the value also exceeds the
        previous one plus one. */
    method ScanFlags()
      modifies this`MissingDefault, this`AllowAlias, this`HasGaps
      ensures MissingDefault == !HasZero(ValuesOf(Values))
      ensures AllowAlias == (old(AllowAlias) || HasAdjacentEqual(ValuesOf(Values)))
      ensures HasGaps == (old(HasGaps) || HasWrappedGap(ValuesOf(Values)))
    {
      MissingDefault := true;

      ghost var vs := ValuesOf(Values);
      assert vs[..0] == [];
      var lastValue: int64 := 0;
      var hasLast := false;
      var i := 0;
      while i < |Values|
        invariant 0 <= i <= |Values|
        invariant MissingDefault == !HasZero(vs[..i])
        invariant AllowAlias == (old(AllowAlias) || HasAdjacentEqual(vs[..i]))
        invariant HasGaps == (old(HasGaps) || HasWrappedGap(vs[..i]))
        invariant hasLast == (i > 0)
        invariant i > 0 ==> lastValue == vs[i - 1]
      {
        var val := Values[i];
        ZeroStep(vs, i);
        AdjacentEqualStep(vs, i);
        WrappedGapStep(vs, i);
        if val.Value == 0 {
          MissingDefault := false;
        }
        if hasLast && val.Value == lastValue {
          AllowAlias := true;
          if val.Value > AddWrap(lastValue, 1) {
            HasGaps := true;
          }
        }
        lastValue := val.Value;
        hasLast := true;
        i := i + 1;
      }
      assert vs[..i] == vs;
    }
  }
}
