/** The few functions of Go's `strings` package that the two engines use,
    on strings modelled as sequences of characters. */
module GoStrings {

  datatype Option<T> = None | Some(value: T)

  /** `w` occurs in `s` starting at index `i`. */
  predicate HasAt(s: string, i: nat, w: string) {
    i + |w| <= |s| && s[i..i + |w|] == w
  }

  /** `w` occurs somewhere in `s`. */
  ghost predicate Occurs(s: string, w: string) {
    exists i: nat :: HasAt(s, i, w)
  }

  /** `i` is the leftmost occurrence of `w` in `s`. */
  predicate FirstAt(s: string, w: string, i: nat) {
    HasAt(s, i, w) && forall j: nat :: j < i ==> !HasAt(s, j, w)
  }

  /** The leftmost occurrence of `w` at or after `i`, as `strings.Index` finds it. */
  function IndexFrom(s: string, w: string, i: nat): (r: Option<nat>)
    requires i <= |s|
    ensures r.Some? ==> i <= r.value && HasAt(s, r.value, w)
    ensures r.Some? ==> forall j: nat :: i <= j < r.value ==> !HasAt(s, j, w)
    ensures r.None? ==> forall j: nat :: i <= j ==> !HasAt(s, j, w)
    decreases |s| - i
  {
    if HasAt(s, i, w) then Some(i)
    else if i == |s| then None
    else IndexFrom(s, w, i + 1)
  }

  /** `strings.Index(s, w)`: the first occurrence of `w`, if any. */
  function Index(s: string, w: string): (r: Option<nat>)
    ensures r.Some? ==> FirstAt(s, w, r.value)
    ensures r.None? <==> !Occurs(s, w)
  {
    IndexFrom(s, w, 0)
  }

  /** `strings.Replace(s, pat, rep, 1)` for a non-empty pattern. */
  function ReplaceFirst(s: string, pat: string, rep: string): (r: string)
    requires |pat| > 0
    ensures |rep| <= |pat| ==> |r| <= |s|
    ensures NoNewline(s) && NoNewline(rep) ==> NoNewline(r)
  {
    match Index(s, pat)
    case None => s
    case Some(i) => s[..i] + rep + s[i + |pat|..]
  }

  /** Without an occurrence of the pattern nothing is replaced. */
  lemma ReplaceFirstAbsent(s: string, pat: string, rep: string)
    requires |pat| > 0 && !Occurs(s, pat)
    ensures ReplaceFirst(s, pat, rep) == s
  {
  }

  /** Only the leftmost occurrence is replaced. */
  lemma ReplaceFirstAt(s: string, pat: string, rep: string, i: nat)
    requires |pat| > 0 && FirstAt(s, pat, i)
    ensures ReplaceFirst(s, pat, rep) == s[..i] + rep + s[i + |pat|..]
  {
    var j := Index(s, pat).value;
    assert !(j < i) && !(i < j);
  }

  /** `s` holds no line break. */
  predicate NoNewline(s: string) {
    forall i :: 0 <= i < |s| ==> s[i] != '\n'
  }

  /** `s` ends with `w`, as `strings.HasSuffix` decides it. */
  predicate HasSuffix(s: string, w: string) {
    |w| <= |s| && s[|s| - |w|..] == w
  }

  /** Text put in front keeps a suffix. */
  lemma HasSuffixPrepend(c: string, s: string, w: string)
    requires HasSuffix(s, w)
    ensures HasSuffix(c + s, w)
  {
    assert (c + s)[|c + s| - |w|..] == s[|s| - |w|..];
  }

  /** A suffix of a suffix is a suffix. */
  lemma HasSuffixTrans(s: string, u: string, w: string)
    requires HasSuffix(s, u) && HasSuffix(u, w)
    ensures HasSuffix(s, w)
  {
    assert s[|s| - |w|..] == s[|s| - |u|..][|u| - |w|..];
  }

  /** `strings.Join(parts, sep)`. */
  function Join(parts: seq<string>, sep: string): (r: string)
    ensures |parts| == 1 ==> r == parts[0]
    ensures NoNewline(sep) && (forall i :: 0 <= i < |parts| ==> NoNewline(parts[i])) ==> NoNewline(r)
  {
    if |parts| == 0 then ""
    else if |parts| == 1 then parts[0]
    else parts[0] + sep + Join(parts[1..], sep)
  }

  /** `r` is a split of `s` into at most `n` pieces around `sep`: joined
      back it is `s`, every piece but the last ends where the first separator
      after its start begins, and the last contains `sep` only when the limit
      `n` was reached. */
  ghost predicate IsSplitN(s: string, sep: string, n: nat, r: seq<string>) {
    && 1 <= |r| <= n
    && Join(r, sep) == s
    && (forall k :: 0 <= k < |r| - 1 ==> FirstAt(r[k] + sep, sep, |r[k]|))
    && (|r| < n ==> !Occurs(r[|r| - 1], sep))
  }

  /** An occurrence in a prefix is an occurrence in the whole string. */
  lemma PrefixOccurrence(s: string, m: nat, j: nat, w: string)
    requires m <= |s|
    requires HasAt(s[..m], j, w)
    ensures HasAt(s, j, w)
  {
    assert s[..m][j..j + |w|] == s[j..j + |w|];
  }

  /** Splitting off the text before the first separator extends a split of
      the rest. */
  lemma SplitNStep(s: string, sep: string, n: nat, m: nat, rest: seq<string>)
    requires |sep| > 0 && n > 1
    requires FirstAt(s, sep, m)
    requires IsSplitN(s[m + |sep|..], sep, n - 1, rest)
    ensures IsSplitN(s, sep, n, [s[..m]] + rest)
  {
    var r := [s[..m]] + rest;
    assert s == s[..m] + sep + s[m + |sep|..];
    assert r[1..] == rest;
    assert s[..m] + sep == s[..m + |sep|];
    forall j: nat | j < m ensures !HasAt(s[..m] + sep, j, sep) {
      if HasAt(s[..m] + sep, j, sep) {
        PrefixOccurrence(s, m + |sep|, j, sep);
      }
    }
    assert forall k :: 1 <= k < |r| ==> r[k] == rest[k - 1];
  }

  /** `strings.SplitN(s, sep, n)` for n > 0: at most n pieces, the last one the
      unsplit rest; each earlier piece ends at the leftmost remaining separator. */
  function SplitN(s: string, sep: string, n: nat): (r: seq<string>)
    requires |sep| > 0 && n > 0
    ensures 1 <= |r| <= n
    decreases n
  {
    if n == 1 then [s]
    else match Index(s, sep)
      case None => [s]
      case Some(m) => [s[..m]] + SplitN(s[m + |sep|..], sep, n - 1)
  }

  /** `SplitN` returns a split. */
  lemma {:induction false} SplitNIsSplit(s: string, sep: string, n: nat)
    requires |sep| > 0 && n > 0
    ensures IsSplitN(s, sep, n, SplitN(s, sep, n))
    decreases n
  {
    if n > 1 && Index(s, sep).Some? {
      var m := Index(s, sep).value;
      SplitNIsSplit(s[m + |sep|..], sep, n - 1);
      SplitNStep(s, sep, n, m, SplitN(s[m + |sep|..], sep, n - 1));
    }
  }

  /** An occurrence that ends inside a prefix is an occurrence in it. */
  lemma OccurrenceInPrefix(s: string, p: string, j: nat, w: string)
    requires |p| <= |s| && s[..|p|] == p && j + |w| <= |p|
    ensures HasAt(s, j, w) ==> HasAt(p, j, w)
  {
    assert forall k :: j <= k < j + |w| ==> s[k] == p[k];
    assert s[j..j + |w|] == p[j..j + |w|];
  }

  /** A piece without the separator's first character ends where the
      separator that follows it begins. */
  lemma FirstAfterPiece(x: string, sep: string)
    requires |sep| > 0 && forall i :: 0 <= i < |x| ==> x[i] != sep[0]
    ensures FirstAt(x + sep, sep, |x|)
  {
    assert (x + sep)[|x|..] == sep;
    forall j: nat | j < |x| ensures !HasAt(x + sep, j, sep) {
      assert (x + sep)[j] == x[j];
    }
  }

  /** The first piece of a split into several pieces ends at the first
      separator, and the other pieces split the rest. */
  lemma SplitHeadIsFirst(s: string, sep: string, n: nat, r: seq<string>)
    requires |sep| > 0 && IsSplitN(s, sep, n, r) && |r| > 1
    ensures FirstAt(s, sep, |r[0]|) && s[..|r[0]|] == r[0]
    ensures IsSplitN(s[|r[0]| + |sep|..], sep, n - 1, r[1..])
  {
    var p := r[0] + sep;
    assert s == p + Join(r[1..], sep);
    assert s[..|p|] == p;
    forall j: nat | j < |r[0]| ensures !HasAt(s, j, sep) {
      OccurrenceInPrefix(s, p, j, sep);
    }
    assert s[|p|..] == Join(r[1..], sep);
    assert forall k :: 0 <= k < |r| - 2 ==> r[1..][k] == r[k + 1];
  }

  /** A split into one piece is the whole string, and no split of a string
      holding the separator has one piece unless the limit is one. */
  lemma SplitOfOne(s: string, sep: string, n: nat, r1: seq<string>, r2: seq<string>)
    requires |sep| > 0 && IsSplitN(s, sep, n, r1) && IsSplitN(s, sep, n, r2)
    requires |r1| == 1
    ensures r1 == r2
  {
    assert r1 == [s];
    if |r2| > 1 {
      SplitHeadIsFirst(s, sep, n, r2);
      assert false;
    }
    assert r2 == [s];
  }

  /** Two splits of the same string with the same limit are equal. */
  lemma {:induction false} SplitsAgree(s: string, sep: string, n: nat, r1: seq<string>, r2: seq<string>)
    requires |sep| > 0 && IsSplitN(s, sep, n, r1) && IsSplitN(s, sep, n, r2)
    ensures r1 == r2
    decreases n
  {
    if |r1| == 1 {
      SplitOfOne(s, sep, n, r1, r2);
    } else if |r2| == 1 {
      SplitOfOne(s, sep, n, r2, r1);
    } else {
      SplitHeadIsFirst(s, sep, n, r1);
      SplitHeadIsFirst(s, sep, n, r2);
      SameFirst(s, sep, |r1[0]|, |r2[0]|);
      SplitsAgree(s[|r1[0]| + |sep|..], sep, n - 1, r1[1..], r2[1..]);
      assert r1 == [r1[0]] + r1[1..] && r2 == [r2[0]] + r2[1..];
    }
  }

  /** The leftmost occurrence is unique. */
  lemma SameFirst(s: string, w: string, i: nat, j: nat)
    requires FirstAt(s, w, i) && FirstAt(s, w, j)
    ensures i == j
  {
    assert !(i < j) && !(j < i);
  }

  /** A split is unique: `SplitN` is the only one. */
  lemma SplitNUnique(s: string, sep: string, n: nat, r: seq<string>)
    requires |sep| > 0 && n > 0 && IsSplitN(s, sep, n, r)
    ensures SplitN(s, sep, n) == r
  {
    SplitNIsSplit(s, sep, n);
    SplitsAgree(s, sep, n, SplitN(s, sep, n), r);
  }

  /** `s` has two non-overlapping occurrences of `sep`. */
  ghost predicate TwoApart(s: string, sep: string) {
    exists i: nat, j: nat :: i + |sep| <= j && HasAt(s, i, sep) && HasAt(s, j, sep)
  }

  /** An occurrence past a cut point is an occurrence in the suffix. */
  lemma HasAtSuffix(s: string, k: nat, j: nat, w: string)
    requires k <= j
    requires HasAt(s, j, w)
    ensures k <= |s| && HasAt(s[k..], j - k, w)
  {
    assert s[k..][j - k..j - k + |w|] == s[j..j + |w|];
  }

  /** SplitN into three yields three pieces exactly when the separator occurs
      twice without overlap. */
  lemma {:induction false} SplitThreeIff(s: string, sep: string)
    requires |sep| > 0
    ensures |SplitN(s, sep, 3)| == 3 <==> TwoApart(s, sep)
  {
    if TwoApart(s, sep) {
      var i: nat, j: nat :| i + |sep| <= j && HasAt(s, i, sep) && HasAt(s, j, sep);
      SplitThreeFromPair(s, sep, i, j);
    }
    if |SplitN(s, sep, 3)| == 3 {
      PairFromSplitThree(s, sep);
    }
  }

  lemma PairFromSplitThree(s: string, sep: string)
    requires |sep| > 0
    requires |SplitN(s, sep, 3)| == 3
    ensures TwoApart(s, sep)
  {
    var r := SplitN(s, sep, 3);
    SplitNIsSplit(s, sep, 3);
    ThreePieces(s, sep, r);
  }

  /** The two separators between three joined pieces. */
  lemma ThreePieces(s: string, sep: string, r: seq<string>)
    requires |r| == 3 && Join(r, sep) == s
    ensures TwoApart(s, sep)
  {
    assert Join(r[1..], sep) == r[1] + sep + r[2] by {
      assert r[1..][1..] == [r[2]];
    }
    assert s == r[0] + sep + (r[1] + sep + r[2]);
    var i := |r[0]|;
    var j := i + |sep| + |r[1]|;
    assert s[i..i + |sep|] == sep && s[j..j + |sep|] == sep;
    assert HasAt(s, i, sep) && HasAt(s, j, sep);
  }

  lemma SplitThreeFromPair(s: string, sep: string, i: nat, j: nat)
    requires |sep| > 0
    requires i + |sep| <= j && HasAt(s, i, sep) && HasAt(s, j, sep)
    ensures |SplitN(s, sep, 3)| == 3
  {
    var m := Index(s, sep).value;
    assert m <= i;
    var rest := s[m + |sep|..];
    HasAtSuffix(s, m + |sep|, j, sep);
    assert Index(rest, sep).Some?;
    assert SplitN(s, sep, 3) == [s[..m]] + SplitN(rest, sep, 2);
  }

  /** Unicode white space, as Go's `unicode.IsSpace` decides it. */
  predicate IsSpace(c: char) {
    c == '\t' || c == '\n' || c == '\U{0B}' || c == '\U{0C}' || c == '\r' || c == ' '
    || c == '\U{85}' || c == '\U{A0}' || c == '\U{1680}'
    || ('\U{2000}' <= c <= '\U{200A}')
    || c == '\U{2028}' || c == '\U{2029}' || c == '\U{202F}' || c == '\U{205F}' || c == '\U{3000}'
  }

  predicate AllSpace(s: string) {
    forall i :: 0 <= i < |s| ==> IsSpace(s[i])
  }

  /** White space joined to white space. */
  lemma SpaceJoin(a: string, b: string)
    requires AllSpace(a) && AllSpace(b)
    ensures AllSpace(a + b)
  {
    assert forall i :: |a| <= i < |a + b| ==> (a + b)[i] == b[i - |a|];
  }

  /** Drops leading white space. */
  function TrimLeft(s: string): (r: string)
    ensures |r| <= |s| && r == s[|s| - |r|..]
    ensures AllSpace(s[..|s| - |r|])
    ensures r == [] || !IsSpace(r[0])
  {
    if |s| > 0 && IsSpace(s[0]) then
      var r := TrimLeft(s[1..]);
      assert s[..|s| - |r|] == [s[0]] + s[1..][..|s| - 1 - |r|];
      SpaceJoin([s[0]], s[1..][..|s| - 1 - |r|]);
      r
    else s
  }

  /** Drops trailing white space. */
  function TrimRight(s: string): (r: string)
    ensures |r| <= |s| && r == s[..|r|]
    ensures AllSpace(s[|r|..])
    ensures r == [] || !IsSpace(r[|r| - 1])
  {
    if |s| > 0 && IsSpace(s[|s| - 1]) then
      var r := TrimRight(s[..|s| - 1]);
      assert s[|r|..] == s[..|s| - 1][|r|..] + [s[|s| - 1]];
      SpaceJoin(s[..|s| - 1][|r|..], [s[|s| - 1]]);
      r
    else s
  }

  /** Trimming the two ends in turn leaves white space on both sides. */
  lemma TrimmedBetween(s: string, l: string, r: string)
    requires |l| <= |s| && l == s[|s| - |l|..] && AllSpace(s[..|s| - |l|])
    requires |r| <= |l| && r == l[..|r|] && AllSpace(l[|r|..])
    ensures exists a, b :: s == a + r + b && AllSpace(a) && AllSpace(b)
  {
    var a := s[..|s| - |l|];
    var b := l[|r|..];
    assert s == a + l && l == r + b;
    assert s == a + r + b;
  }

  /** `strings.TrimSpace(s)`. */
  function TrimSpace(s: string): (r: string)
    ensures exists a, b :: s == a + r + b && AllSpace(a) && AllSpace(b)
    ensures r == [] || (!IsSpace(r[0]) && !IsSpace(r[|r| - 1]))
  {
    var l := TrimLeft(s);
    var r := TrimRight(l);
    assert r == [] || r[0] == l[0];
    TrimmedBetween(s, l, r);
    r
  }

  lemma {:induction false} TrimLeftPadded(lead: string, x: string)
    requires AllSpace(lead)
    requires |x| > 0 && !IsSpace(x[0])
    ensures TrimLeft(lead + x) == x
    decreases |lead|
  {
    if |lead| > 0 {
      assert (lead + x)[1..] == lead[1..] + x;
      TrimLeftPadded(lead[1..], x);
    } else {
      assert lead + x == x;
    }
  }

  lemma {:induction false} TrimRightPadded(x: string, trail: string)
    requires AllSpace(trail)
    requires |x| > 0 && !IsSpace(x[|x| - 1])
    ensures TrimRight(x + trail) == x
    decreases |trail|
  {
    if |trail| > 0 {
      assert (x + trail)[..|x + trail| - 1] == x + trail[..|trail| - 1];
      TrimRightPadded(x, trail[..|trail| - 1]);
    } else {
      assert x + trail == x;
    }
  }

  /** TrimSpace removes exactly the white-space padding around a text that
      neither starts nor ends with white space. */
  lemma TrimSpacePadded(lead: string, x: string, trail: string)
    requires AllSpace(lead) && AllSpace(trail)
    requires |x| > 0 && !IsSpace(x[0]) && !IsSpace(x[|x| - 1])
    ensures TrimSpace(lead + x + trail) == x
  {
    assert lead + x + trail == lead + (x + trail);
    TrimLeftPadded(lead, x + trail);
    TrimRightPadded(x, trail);
  }
}
