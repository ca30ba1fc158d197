/**
 * Byte-string helpers the core relies on: the whitespace trimming of Go's
 * strings.TrimSpace / bytes.TrimSpace, and Go's `<` on strings.
 *
 * A Go string (or []byte) is modelled as a Dafny `string` whose characters
 * stand for its bytes; nothing here decodes UTF-8.
 */
module Strings {

  /** The ASCII white-space characters that TrimSpace removes: space, and tab to carriage return. */
  predicate IsSpace(c: char) {
    c == ' ' || '\t' <= c <= '\r'
  }

  ghost predicate AllSpace(s: string) {
    forall i :: 0 <= i < |s| ==> IsSpace(s[i])
  }

  /** Neither the first nor the last character of s is white space. */
  ghost predicate NoOuterSpace(s: string) {
    s != [] ==> !IsSpace(s[0]) && !IsSpace(s[|s| - 1])
  }

  /** The first index at or after from that does not hold white space (|s| if none). */
  function SkipSpace(s: string, from: nat): (i: nat)
    requires from <= |s|
    ensures from <= i <= |s|
    ensures forall k :: from <= k < i ==> IsSpace(s[k])
    ensures i < |s| ==> !IsSpace(s[i])
    decreases |s| - from
  {
    if from < |s| && IsSpace(s[from]) then SkipSpace(s, from + 1) else from
  }

  /** Scanning down from hi, the end of the last non-space byte at or above lo (lo if none). */
  function SkipSpaceBack(s: string, lo: nat, hi: nat): (j: nat)
    requires lo <= hi <= |s|
    ensures lo <= j <= hi
    ensures forall k :: j <= k < hi ==> IsSpace(s[k])
    ensures j > lo ==> !IsSpace(s[j - 1])
    decreases hi
  {
    if hi > lo && IsSpace(s[hi - 1]) then SkipSpaceBack(s, lo, hi - 1) else hi
  }

  /**
   * strings.TrimSpace / bytes.TrimSpace (ASCII white space only): the
   * result is a contiguous piece of s, everything cut off on either side is
   * white space, and the result neither starts nor ends with white space.
   */
  function TrimSpace(s: string): (r: string)
    ensures |r| <= |s|
    ensures exists i, j :: 0 <= i <= j <= |s| && r == s[i..j] && AllSpace(s[..i]) && AllSpace(s[j..])
    ensures NoOuterSpace(r)
    ensures r == [] <==> AllSpace(s)
  {
    var i := SkipSpace(s, 0);
    var j := SkipSpaceBack(s, i, |s|);
    TrimSpaceFacts(s, i, j);
    s[i..j]
  }

  /** What the two scans of TrimSpace establish about the piece between them. */
  lemma TrimSpaceFacts(s: string, i: nat, j: nat)
    requires i == SkipSpace(s, 0) && j == SkipSpaceBack(s, i, |s|)
    ensures i <= j <= |s|
    ensures AllSpace(s[..i]) && AllSpace(s[j..])
    ensures NoOuterSpace(s[i..j])
    ensures s[i..j] == [] <==> AllSpace(s)
  {
    forall k | 0 <= k < i ensures IsSpace(s[..i][k]) {
      assert s[..i][k] == s[k];
    }
    forall k | 0 <= k < |s| - j ensures IsSpace(s[j..][k]) {
      assert s[j..][k] == s[j + k];
    }
    if i < j {
      assert s[i..j][0] == s[i] && s[i..j][j - i - 1] == s[j - 1];
    } else {
      forall k | 0 <= k < |s| ensures IsSpace(s[k]) {
      }
    }
  }

  /**
   * TrimSpace keeps exactly the piece between white-space runs when that
   * piece starts and ends with a non-space byte.
   */
  lemma TrimSpaceIs(s: string, i: nat, j: nat)
    requires i < j <= |s|
    requires AllSpace(s[..i]) && AllSpace(s[j..]) && !IsSpace(s[i]) && !IsSpace(s[j - 1])
    ensures TrimSpace(s) == s[i..j]
  {
    forall k | 0 <= k < i ensures IsSpace(s[k]) {
      assert s[..i][k] == s[k];
    }
    forall k | j <= k < |s| ensures IsSpace(s[k]) {
      assert s[j..][k - j] == s[k];
    }
    assert SkipSpace(s, 0) == i;
    assert SkipSpaceBack(s, i, |s|) == j;
  }

  /** A text that neither starts nor ends with white space is its own trim. */
  lemma TrimSpaceKeeps(w: string)
    requires w != [] && !IsSpace(w[0]) && !IsSpace(w[|w| - 1])
    ensures TrimSpace(w) == w
  {
    assert w[..0] == [] && w[|w|..] == [];
    TrimSpaceIs(w, 0, |w|);
  }

  /** Trimming removes a trailing newline from such a text. */
  lemma TrimSpaceNewline(w: string)
    requires w != [] && !IsSpace(w[0]) && !IsSpace(w[|w| - 1])
    ensures TrimSpace(w + "\n") == w
  {
    var t := w + "\n";
    assert t[..0] == [] && t[|w|..] == "\n";
    assert t[0..|w|] == w;
    TrimSpaceIs(t, 0, |w|);
  }

  /** Trimming removes one newline on either side of such a text. */
  lemma TrimSpaceNewlines(w: string)
    requires w != [] && !IsSpace(w[0]) && !IsSpace(w[|w| - 1])
    ensures TrimSpace("\n" + w + "\n") == w
  {
    var t := "\n" + w + "\n";
    assert t[..1] == "\n" && t[|w| + 1..] == "\n";
    assert t[1..|w| + 1] == w;
    TrimSpaceIs(t, 1, |w| + 1);
  }

  /** A slice of a concatenation that lies inside one part is a slice of that part. */
  lemma ConcatSlice<T>(x: seq<T>, y: seq<T>, i: nat, j: nat)
    requires i <= j <= |x| + |y|
    ensures j <= |x| ==> (x + y)[i..j] == x[i..j]
    ensures |x| <= i ==> (x + y)[i..j] == y[i - |x|..j - |x|]
    ensures i <= |x| <= j ==> (x + y)[i..j] == x[i..] + y[..j - |x|]
  {
  }

  /** A text made of three pieces, cut back into them. */
  lemma ConcatPieces<T>(x: seq<T>, y: seq<T>, z: seq<T>)
    ensures |x + y + z| == |x| + |y| + |z|
    ensures (x + y + z)[..|x|] == x
    ensures (x + y + z)[|x|..|x| + |y|] == y
    ensures (x + y + z)[|x| + |y|..] == z
  {
    ConcatSlice(x + y, z, |x|, |x| + |y|);
    ConcatSlice(x, y, |x|, |x| + |y|);
  }

  /** Go's `a < b` on strings: lexicographic order on bytes. */
  predicate Less(a: string, b: string) {
    if |a| == 0 then |b| > 0
    else if |b| == 0 then false
    else if a[0] != b[0] then a[0] < b[0]
    else Less(a[1..], b[1..])
  }

  lemma {:induction false} LessIrreflexive(a: string)
    ensures !Less(a, a)
  {
    if |a| > 0 { LessIrreflexive(a[1..]); }
  }

  lemma {:induction false} LessTransitive(a: string, b: string, c: string)
    requires Less(a, b) && Less(b, c)
    ensures Less(a, c)
  {
    if |a| > 0 && a[0] == b[0] && b[0] == c[0] {
      LessTransitive(a[1..], b[1..], c[1..]);
    }
  }

  lemma {:induction false} LessTrichotomous(a: string, b: string)
    ensures a == b || Less(a, b) || Less(b, a)
  {
    if |a| > 0 && |b| > 0 && a[0] == b[0] {
      LessTrichotomous(a[1..], b[1..]);
      assert a == [a[0]] + a[1..] && b == [b[0]] + b[1..];
    }
  }

  lemma LessAsymmetric(a: string, b: string)
    ensures Less(a, b) ==> !Less(b, a)
  {
    if Less(a, b) && Less(b, a) {
      LessTransitive(a, b, a);
      LessIrreflexive(a);
    }
  }

  /** lit occurs in s at index k. */
  predicate LiteralAt(s: string, k: nat, lit: string) {
    k + |lit| <= |s| && s[k..k + |lit|] == lit
  }

  /** A literal that starts with lit can only occur where lit does. */
  lemma LiteralPrefix(s: string, k: nat, lit: string, rest: string)
    requires !LiteralAt(s, k, lit)
    ensures !LiteralAt(s, k, lit + rest)
  {
    if k + |lit + rest| <= |s| {
      assert (lit + rest)[..|lit|] == lit;
      assert s[k..k + |lit|] == s[k..k + |lit + rest|][..|lit|];
    }
  }

  /** The first '\n' at or after from, or |s| if there is none. */
  function FirstNewline(s: string, from: nat): (e: nat)
    requires from <= |s|
    ensures from <= e <= |s|
    ensures forall k :: from <= k < e ==> s[k] != '\n'
    ensures e < |s| ==> s[e] == '\n'
    decreases |s| - from
  {
    if from == |s| || s[from] == '\n' then from else FirstNewline(s, from + 1)
  }
}
