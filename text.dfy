/**
 * The Python string handling the survey parser relies on: `str.strip()` with
 * no argument and `str.split(sep)` with an explicit, non-empty separator,
 * with a search `Find` (the semantics of `str.find`, which the parser never
 * calls) as the reference for where `split` cuts. Functions carry only quantifier-free contracts; what they imply
 * about whole ranges of indices is stated by the lemmas after them.
 */
module Text {

  /** The characters `str.isspace()` accepts, and hence those `str.strip()` removes. */
  predicate IsWhitespace(c: char) {
    c == ' ' || ('\t' <= c <= '\r') || ('\U{1C}' <= c <= '\U{1F}')
    || c == '\U{85}' || c == '\U{A0}' || c == '\U{1680}'
    || ('\U{2000}' <= c <= '\U{200A}') || c == '\U{2028}' || c == '\U{2029}'
    || c == '\U{202F}' || c == '\U{205F}' || c == '\U{3000}'
  }

  predicate AllWhitespace(s: string) {
    forall k :: 0 <= k < |s| ==> IsWhitespace(s[k])
  }

  /** Neither end of `s` is whitespace: what `strip()` leaves behind. */
  predicate IsStripped(s: string) {
    s == [] || (!IsWhitespace(s[0]) && !IsWhitespace(s[|s| - 1]))
  }

  /** `s.lstrip()`: a suffix of `s` that does not start with whitespace. */
  function StripLeft(s: string): (r: string)
    ensures |r| <= |s| && r == s[|s| - |r|..]
    ensures r == [] || !IsWhitespace(r[0])
  {
    if |s| > 0 && IsWhitespace(s[0]) then StripLeft(s[1..]) else s
  }

  /** `s.rstrip()`: a prefix of `s` that does not end with whitespace. */
  function StripRight(s: string): (r: string)
    ensures |r| <= |s| && r == s[..|r|]
    ensures r == [] || !IsWhitespace(r[|r| - 1])
  {
    if |s| > 0 && IsWhitespace(s[|s| - 1]) then StripRight(s[..|s| - 1]) else s
  }

  /** `s.strip()`: no whitespace is left at either end. */
  function Strip(s: string): (r: string)
    ensures IsStripped(r)
  {
    StripRight(StripLeft(s))
  }

  /** What `lstrip()` removes is whitespace. */
  lemma {:induction false} StripLeftRemovesWhitespace(s: string)
    ensures AllWhitespace(s[..|s| - |StripLeft(s)|])
    decreases |s|
  {
    if |s| > 0 && IsWhitespace(s[0]) {
      StripLeftRemovesWhitespace(s[1..]);
      var n := |s| - |StripLeft(s)|;
      assert s[..n] == [s[0]] + s[1..][..n - 1];
    }
  }

  /** What `rstrip()` removes is whitespace. */
  lemma {:induction false} StripRightRemovesWhitespace(s: string)
    ensures AllWhitespace(s[|StripRight(s)|..])
    decreases |s|
  {
    if |s| > 0 && IsWhitespace(s[|s| - 1]) {
      var t := s[..|s| - 1];
      StripRightRemovesWhitespace(t);
      assert s[|StripRight(s)|..] == t[|StripRight(t)|..] + [s[|s| - 1]];
    }
  }

  /**
   * What `strip()` removes: the result is a contiguous piece of `s` and
   * everything cut off on either side is whitespace.
   */
  lemma StripIsInfix(s: string)
    ensures var r := Strip(s);
            exists i :: 0 <= i <= |s| - |r| && r == s[i..i + |r|]
                        && AllWhitespace(s[..i]) && AllWhitespace(s[i + |r|..])
  {
    var l := StripLeft(s);
    var r := StripRight(l);
    var i := |s| - |l|;
    StripLeftRemovesWhitespace(s);
    StripRightRemovesWhitespace(l);
    assert l == s[i..] && r == l[..|r|];
    assert r == s[i..i + |r|];
    assert s[i + |r|..] == l[|r|..];
    assert AllWhitespace(s[..i]) && AllWhitespace(s[i + |r|..]);
  }

  lemma {:induction false} StripLeftOfWhitespacePrefix(pre: string, t: string)
    requires AllWhitespace(pre)
    requires t == [] || !IsWhitespace(t[0])
    ensures StripLeft(pre + t) == t
    decreases |pre|
  {
    if pre == [] {
      assert pre + t == t;
    } else {
      assert (pre + t)[1..] == pre[1..] + t;
      StripLeftOfWhitespacePrefix(pre[1..], t);
    }
  }

  lemma {:induction false} StripRightOfWhitespaceSuffix(t: string, post: string)
    requires AllWhitespace(post)
    requires t == [] || !IsWhitespace(t[|t| - 1])
    ensures StripRight(t + post) == t
    decreases |post|
  {
    if post == [] {
      assert t + post == t;
    } else {
      assert (t + post)[..|t + post| - 1] == t + post[..|post| - 1];
      StripRightOfWhitespaceSuffix(t, post[..|post| - 1]);
    }
  }

  /**
   * The decomposition `StripIsInfix` describes is unique: surrounding a
   * stripped text with whitespace and stripping gives that text back.
   */
  lemma StripUnique(pre: string, t: string, post: string)
    requires AllWhitespace(pre) && AllWhitespace(post) && IsStripped(t)
    ensures Strip(pre + t + post) == t
  {
    if t == [] {
      assert pre + t + post == pre + post;
      assert AllWhitespace(pre + post);
      StripLeftOfWhitespacePrefix(pre + post, []);
      assert pre + post + [] == pre + post;
    } else {
      assert pre + t + post == pre + (t + post);
      StripLeftOfWhitespacePrefix(pre, t + post);
      StripRightOfWhitespaceSuffix(t, post);
    }
  }

  /** A text with no whitespace at its ends is its own strip. */
  lemma StrippedIsFixed(t: string)
    requires IsStripped(t)
    ensures Strip(t) == t
  {
    assert [] + t + [] == t;
    StripUnique([], t, []);
  }

  /** Stripping twice is stripping once. */
  lemma StripIdempotent(s: string)
    ensures Strip(Strip(s)) == Strip(s)
  {
    StrippedIsFixed(Strip(s));
  }

  // ---------------------------------------------------------------- finding

  /** `sep` occurs in `s` starting at index `i`. */
  predicate OccursAt(s: string, sep: string, i: int) {
    0 <= i && i + |sep| <= |s| && s[i..i + |sep|] == sep
  }

  predicate Contains(s: string, sep: string) {
    exists i | 0 <= i <= |s| - |sep| :: OccursAt(s, sep, i)
  }

  /** The first index at which `sep` occurs, or -1, as `s.find(sep)` gives it (see `FindIsFirst`). */
  function Find(s: string, sep: string): (r: int)
    requires |sep| > 0
    ensures -1 <= r
    ensures r >= 0 ==> OccursAt(s, sep, r)
    decreases |s|
  {
    if |s| < |sep| then
      -1
    else if s[..|sep|] == sep then
      0
    else
      var k := Find(s[1..], sep);
      if k == -1 then -1
      else
        assert s[k + 1..k + 1 + |sep|] == s[1..][k..k + |sep|];
        k + 1
  }

  lemma OccursAtTail(s: string, sep: string, j: nat)
    requires |s| > 0
    ensures OccursAt(s, sep, j + 1) <==> OccursAt(s[1..], sep, j)
  {
    if j + 1 + |sep| <= |s| {
      assert s[j + 1..j + 1 + |sep|] == s[1..][j..j + |sep|];
    }
  }

  /** `Find` gives the first occurrence: there is none before it, and none at all when it gives -1. */
  lemma {:induction false} FindIsFirst(s: string, sep: string, j: nat)
    requires |sep| > 0
    requires Find(s, sep) == -1 || j < Find(s, sep)
    ensures !OccursAt(s, sep, j)
    decreases |s|
  {
    if |s| < |sep| {
    } else if s[..|sep|] == sep {
    } else if j == 0 {
    } else {
      FindIsFirst(s[1..], sep, j - 1);
      OccursAtTail(s, sep, j - 1);
    }
  }

  /** `Find` gives -1 exactly when the separator does not occur. */
  lemma FindNone(s: string, sep: string)
    requires |sep| > 0
    ensures Find(s, sep) == -1 <==> !Contains(s, sep)
  {
    if Find(s, sep) == -1 {
      forall j | 0 <= j <= |s| - |sep| ensures !OccursAt(s, sep, j) {
        FindIsFirst(s, sep, j);
      }
    }
  }

  /** The text before the first occurrence does not contain the separator. */
  lemma BeforeFirstLacksSeparator(s: string, sep: string)
    requires |sep| > 0 && Find(s, sep) >= 0
    ensures !Contains(s[..Find(s, sep)], sep)
  {
    var i := Find(s, sep);
    forall j | 0 <= j <= i - |sep| ensures !OccursAt(s[..i], sep, j) {
      assert s[..i][j..j + |sep|] == s[j..j + |sep|];
      FindIsFirst(s, sep, j);
    }
  }

  // ---------------------------------------------------------------- splitting

  /** `sep.join(parts)`. */
  function Join(parts: seq<string>, sep: string): string {
    if |parts| == 0 then []
    else if |parts| == 1 then parts[0]
    else parts[0] + sep + Join(parts[1..], sep)
  }

  /** `s.split(sep)`: cut `s` at each occurrence of `sep`, scanning left to right. */
  function Split(s: string, sep: string): (r: seq<string>)
    requires |sep| > 0
    ensures |r| >= 1
    decreases |s|
  {
    if |s| < |sep| then [s]
    else if s[..|sep|] == sep then [[]] + Split(s[|sep|..], sep)
    else
      var rest := Split(s[1..], sep);
      [[s[0]] + rest[0]] + rest[1..]
  }

  /**
   * The first piece of a split is the text before the first occurrence of the
   * separator, and the remaining pieces are the split of the text after it.
   */
  lemma {:induction false} SplitAtFirst(s: string, sep: string)
    requires |sep| > 0
    ensures Find(s, sep) == -1 ==> Split(s, sep) == [s]
    ensures Find(s, sep) >= 0 ==>
              Split(s, sep) == [s[..Find(s, sep)]] + Split(s[Find(s, sep) + |sep|..], sep)
    decreases |s|
  {
    if |s| < |sep| {
    } else if s[..|sep|] == sep {
      assert s[..0] == [];
    } else {
      SplitAtFirstStep(s, sep);
    }
  }

  lemma {:induction false} SplitAtFirstStep(s: string, sep: string)
    requires |sep| > 0 && |s| >= |sep| && s[..|sep|] != sep
    ensures Find(s, sep) == -1 ==> Split(s, sep) == [s]
    ensures Find(s, sep) >= 0 ==>
              Split(s, sep) == [s[..Find(s, sep)]] + Split(s[Find(s, sep) + |sep|..], sep)
    decreases |s|, 0
  {
    var t := s[1..];
    var k := Find(t, sep);
    var rest := Split(t, sep);
    assert Split(s, sep) == [[s[0]] + rest[0]] + rest[1..];
    SplitAtFirst(t, sep);
    if k == -1 {
      assert Find(s, sep) == -1;
      assert [s[0]] + t == s;
    } else {
      assert Find(s, sep) == k + 1;
      assert [s[0]] + t[..k] == s[..k + 1];
      assert t[k + |sep|..] == s[k + 1 + |sep|..];
    }
  }

  /**
   * The first two pieces of a split when the separator occurs: the text
   * before its first occurrence, and the text after it up to the next one.
   */
  lemma SplitFirstTwo(s: string, sep: string)
    requires |sep| > 0 && Find(s, sep) >= 0
    ensures var i := Find(s, sep);
            var rest := s[i + |sep|..];
            var j := Find(rest, sep);
            |Split(s, sep)| >= 2 && Split(s, sep)[0] == s[..i]
            && Split(s, sep)[1] == (if j == -1 then rest else rest[..j])
  {
    var i := Find(s, sep);
    var rest := s[i + |sep|..];
    SplitAtFirst(s, sep);
    SplitAtFirst(rest, sep);
  }

  /** Splitting and re-joining with the same separator gives the text back. */
  lemma {:induction false} JoinSplit(s: string, sep: string)
    requires |sep| > 0
    ensures Join(Split(s, sep), sep) == s
    decreases |s|
  {
    SplitAtFirst(s, sep);
    var i := Find(s, sep);
    if i >= 0 {
      var rest := s[i + |sep|..];
      JoinSplit(rest, sep);
      assert s == s[..i] + sep + rest by {
        assert s[i..i + |sep|] == sep;
        assert s == s[..i] + s[i..i + |sep|] + rest;
      }
    }
  }

  /** No piece of a split contains the separator. */
  lemma {:induction false} SplitPiecesLackSeparator(s: string, sep: string)
    requires |sep| > 0
    ensures forall k :: 0 <= k < |Split(s, sep)| ==> !Contains(Split(s, sep)[k], sep)
    decreases |s|
  {
    SplitAtFirst(s, sep);
    var i := Find(s, sep);
    if i == -1 {
      FindNone(s, sep);
    } else {
      var rest := s[i + |sep|..];
      SplitPiecesLackSeparator(rest, sep);
      BeforeFirstLacksSeparator(s, sep);
      forall k | 0 <= k < |Split(s, sep)| ensures !Contains(Split(s, sep)[k], sep) {
        if k > 0 { assert Split(s, sep)[k] == Split(rest, sep)[k - 1]; }
      }
    }
  }

  /** A split has more than one piece exactly when the separator occurs. */
  lemma SplitIsSingleIff(s: string, sep: string)
    requires |sep| > 0
    ensures |Split(s, sep)| == 1 <==> !Contains(s, sep)
  {
    FindNone(s, sep);
    SplitAtFirst(s, sep);
  }

  /** Joining pieces that lack a one-character separator and splitting again gives the pieces back. */
  lemma {:induction false} SplitJoin(parts: seq<string>, c: char)
    requires |parts| >= 1
    requires forall k :: 0 <= k < |parts| ==> !Contains(parts[k], [c])
    ensures Split(Join(parts, [c]), [c]) == parts
    decreases |parts|
  {
    var s := Join(parts, [c]);
    var p := parts[0];
    SplitAtFirst(s, [c]);
    if |parts| == 1 {
      FindNone(s, [c]);
    } else {
      var rest := Join(parts[1..], [c]);
      assert s == p + [c] + rest;
      FindAfterPiece(p, c, rest);
      assert s[..|p|] == p;
      assert s[|p| + 1..] == rest;
      SplitJoin(parts[1..], c);
    }
  }

  lemma FindAfterPiece(p: string, c: char, rest: string)
    requires !Contains(p, [c])
    ensures Find(p + [c] + rest, [c]) == |p|
  {
    var s := p + [c] + rest;
    var f := Find(s, [c]);
    assert OccursAt(s, [c], |p|) by { assert s[|p|..|p| + 1] == [c]; }
    if f == -1 || |p| < f {
      FindIsFirst(s, [c], |p|);
    }
    if f < |p| {
      assert s[f..f + 1] == p[f..f + 1];
      assert OccursAt(p, [c], f);
    }
  }

  /** A piece of a text without the separator has no separator either. */
  lemma InfixLacks(s: string, sep: string, i: nat, n: nat)
    requires i + n <= |s| && !Contains(s, sep)
    ensures !Contains(s[i..i + n], sep)
  {
    var r := s[i..i + n];
    forall j | 0 <= j <= |r| - |sep| ensures !OccursAt(r, sep, j) {
      assert 0 <= i + j <= |s| - |sep|;
      var piece, whole := r[j..j + |sep|], s[i + j..i + j + |sep|];
      forall k | 0 <= k < |sep| ensures piece[k] == whole[k] {
        assert r[j + k] == s[i + j + k];
      }
      assert piece == whole;
      assert !OccursAt(s, sep, i + j);
    }
  }

  /** Stripping never introduces the separator: a text is stripped to a piece of itself. */
  lemma StripKeepsAbsence(s: string, sep: string)
    requires !Contains(s, sep)
    ensures !Contains(Strip(s), sep)
  {
    var l := StripLeft(s);
    var r := StripRight(l);
    var i := |s| - |l|;
    assert r == s[i..i + |r|];
    InfixLacks(s, sep, i, |r|);
  }

  function Count(s: string, c: char): nat {
    if s == [] then 0 else (if s[0] == c then 1 else 0) + Count(s[1..], c)
  }

  lemma {:induction false} CountConcat(a: string, b: string, c: char)
    ensures Count(a + b, c) == Count(a, c) + Count(b, c)
    decreases |a|
  {
    if a == [] {
      assert a + b == b;
    } else {
      assert (a + b)[1..] == a[1..] + b;
      CountConcat(a[1..], b, c);
    }
  }

  lemma {:induction false} CountAbsent(s: string, c: char)
    requires !Contains(s, [c])
    ensures Count(s, c) == 0
    decreases |s|
  {
    if s != [] {
      assert s[0..1] == [s[0]];
      assert !OccursAt(s, [c], 0);
      assert !Contains(s[1..], [c]) by {
        forall j | 0 <= j <= |s| - 2 ensures !OccursAt(s[1..], [c], j) {
          OccursAtTail(s, [c], j);
          assert !OccursAt(s, [c], j + 1);
        }
      }
      CountAbsent(s[1..], c);
    }
  }

  lemma CountAround(s: string, i: nat, c: char)
    requires i < |s| && s[i] == c
    ensures Count(s, c) == Count(s[..i], c) + 1 + Count(s[i + 1..], c)
  {
    assert s == s[..i] + ([s[i]] + s[i + 1..]);
    CountConcat(s[..i], [s[i]] + s[i + 1..], c);
    assert ([s[i]] + s[i + 1..])[1..] == s[i + 1..];
  }

  /** Splitting on a single character gives one more piece than it has occurrences. */
  lemma {:induction false} SplitCharPieces(s: string, c: char)
    ensures |Split(s, [c])| == Count(s, c) + 1
    decreases |s|
  {
    SplitAtFirst(s, [c]);
    var i := Find(s, [c]);
    if i == -1 {
      FindNone(s, [c]);
      CountAbsent(s, c);
    } else {
      SplitCharPieces(s[i + 1..], c);
      BeforeFirstLacksSeparator(s, [c]);
      CountAbsent(s[..i], c);
      assert s[i..i + 1] == [c];
      CountAround(s, i, c);
    }
  }
}
