/** The Go standard-library string operations the generator relies on
    (strings.LastIndex, strings.Split, strings.TrimLeft, strings.ToLower and
    the `<` operator on strings). A Go string is modelled as a sequence of
    characters, one character per byte, which is exact for the ASCII
    identifiers and type names the generator handles. */
module GoStrings {

  /** strings.LastIndex(s, string(c)): the index of the last occurrence of c
      in s, or -1 when c does not occur. */
  function LastIndex(s: string, c: char): (r: int)
    ensures -1 <= r < |s|
    ensures r >= 0 ==> s[r] == c
    ensures forall k :: r < k < |s| ==> s[k] != c
  {
    if s == [] then -1
    else if s[|s| - 1] == c then |s| - 1
    else LastIndex(s[..|s| - 1], c)
  }

  /** strings.Split(s, string(c)): the pieces of s between occurrences of c. */
  function Split(s: string, c: char): (parts: seq<string>)
    ensures |parts| >= 1
    ensures parts[|parts| - 1] == s[LastIndex(s, c) + 1..]
    decreases |s|
  {
    var i := LastIndex(s, c);
    if i < 0 then [s] else Split(s[..i], c) + [s[i + 1..]]
  }

  /** strings.Join(parts, string(c)), the inverse of Split. */
  function Join(parts: seq<string>, c: char): string
    requires |parts| >= 1
  {
    if |parts| == 1 then parts[0]
    else Join(parts[..|parts| - 1], c) + [c] + parts[|parts| - 1]
  }

  /** The last element of strings.Split(s, string(c)): the text after the
      last c, or all of s when c does not occur. */
  function LastPart(s: string, c: char): (r: string)
    ensures c !in r
    ensures c !in s ==> r == s
    ensures c in s ==> s == s[..LastIndex(s, c)] + [c] + r
  {
    var i := LastIndex(s, c);
    assert c in s ==> i >= 0;
    s[i + 1..]
  }

  /** Splitting and joining again gives back the string, and no piece
      contains the separator. */
  lemma {:induction false} SplitJoin(s: string, c: char)
    ensures Join(Split(s, c), c) == s
    ensures forall k :: 0 <= k < |Split(s, c)| ==> c !in Split(s, c)[k]
    decreases |s|
  {
    var i := LastIndex(s, c);
    if i >= 0 {
      SplitJoin(s[..i], c);
      var front := Split(s[..i], c);
      assert Split(s, c) == front + [s[i + 1..]];
      assert (front + [s[i + 1..]])[..|front|] == front;
      assert s == s[..i] + [c] + s[i + 1..];
      forall k | 0 <= k < |Split(s, c)|
        ensures c !in Split(s, c)[k]
      {
        if k < |front| {
          assert Split(s, c)[k] == front[k];
        } else {
          assert Split(s, c)[k] == s[i + 1..];
        }
      }
    }
  }

  /** In a + [c] + b with no c in b, the last c is the one between them,
      so the text after it is b. */
  lemma LastPartOfJoined(a: string, c: char, b: string)
    requires c !in b
    ensures LastIndex(a + [c] + b, c) == |a|
    ensures LastPart(a + [c] + b, c) == b
    ensures (a + [c] + b)[..|a|] == a
  {
    LastIndexOfJoined(a, c, b);
    assert (a + [c] + b)[|a| + 1..] == b;
  }

  lemma {:induction false} LastIndexOfJoined(a: string, c: char, b: string)
    requires c !in b
    ensures LastIndex(a + [c] + b, c) == |a|
    decreases |b|
  {
    var s := a + [c] + b;
    if b == [] {
      assert s[|s| - 1] == c;
    } else {
      assert s[|s| - 1] == b[|b| - 1];
      assert s[..|s| - 1] == a + [c] + b[..|b| - 1];
      LastIndexOfJoined(a, c, b[..|b| - 1]);
    }
  }

  /** strings.TrimLeft(s, cutset): s without its longest prefix made of
      characters of cutset. */
  function TrimLeft(s: string, cutset: set<char>): (r: string)
    ensures |r| <= |s| && r == s[|s| - |r|..]
    ensures forall k :: 0 <= k < |s| - |r| ==> s[k] in cutset
    ensures r != [] ==> r[0] !in cutset
  {
    if s != [] && s[0] in cutset then TrimLeft(s[1..], cutset) else s
  }

  /** unicode.ToLower restricted to ASCII. */
  function LowerChar(c: char): char
  {
    if 'A' <= c <= 'Z' then (c as int + 32) as char else c
  }

  /** strings.ToLower for ASCII text: every character lower-cased, nothing
      added or removed. */
  function ToLower(s: string): (r: string)
    ensures |r| == |s|
    ensures forall k :: 0 <= k < |s| ==> r[k] == LowerChar(s[k])
  {
    if s == [] then [] else [LowerChar(s[0])] + ToLower(s[1..])
  }

  /** Go's `a < b` on strings: lexicographic comparison, a proper prefix
      coming first. */
  predicate Less(a: string, b: string)
  {
    if a == [] then b != []
    else if b == [] then false
    else if a[0] != b[0] then a[0] < b[0]
    else Less(a[1..], b[1..])
  }

  lemma {:induction false} LessIrreflexive(a: string)
    ensures !Less(a, a)
  {
    if a != [] {
      LessIrreflexive(a[1..]);
    }
  }

  lemma {:induction false} LessTransitive(a: string, b: string, c: string)
    requires Less(a, b) && Less(b, c)
    ensures Less(a, c)
  {
    if a != [] && b != [] && c != [] && a[0] == b[0] && b[0] == c[0] {
      LessTransitive(a[1..], b[1..], c[1..]);
    }
  }

  /** Two different strings are always ordered one way or the other. */
  lemma {:induction false} LessTotal(a: string, b: string)
    requires a != b
    ensures Less(a, b) || Less(b, a)
  {
    if a != [] && b != [] && a[0] == b[0] {
      assert a == [a[0]] + a[1..] && b == [b[0]] + b[1..];
      LessTotal(a[1..], b[1..]);
    }
  }

  lemma {:induction false} LessAsymmetric(a: string, b: string)
    requires Less(a, b)
    ensures !Less(b, a)
  {
    if Less(b, a) {
      LessTransitive(a, b, a);
      LessIrreflexive(a);
    }
  }
}
