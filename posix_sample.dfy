/** `query` and `unset` line by line, and their results on lines of the
    sample start-up file that the library's test reads (env_posix_test.go). */
module PosixSample {
  import opened GoStrings
  import opened EnvPosix

  // ---------------------------------------------------------------------------
  // Occurrences in a text built piece by piece

  lemma HasAtEnd(a: string, w: string)
    ensures HasAt(a + w, |a|, w)
  {
    assert (a + w)[|a|..|a| + |w|] == w;
  }

  lemma HasAtExtend(a: string, b: string, i: nat, w: string)
    requires HasAt(a, i, w)
    ensures HasAt(a + b, i, w)
  {
    assert (a + b)[i..i + |w|] == a[i..i + |w|];
  }

  /** The character at an offset of an occurrence. */
  lemma CharOfOccurrence(t: string, p: nat, w: string, k: nat)
    requires HasAt(t, p, w) && k < |w|
    ensures t[p + k] == w[k]
  {
    assert t[p..p + |w|][k] == w[k];
  }

  /** A slice of an occurrence. */
  lemma SliceOfOccurrence(t: string, p: nat, w: string, a: nat, b: nat)
    requires HasAt(t, p, w) && a <= b <= |w|
    ensures t[p + a..p + b] == w[a..b]
  {
    forall k | 0 <= k < b - a ensures t[p + a..p + b][k] == w[a..b][k] {
      CharOfOccurrence(t, p, w, a + k);
    }
  }

  /** After a text that ends with a newline a line starts. */
  lemma LineStartAfter(t: string, p: nat, w: string)
    requires HasAt(t, p, w) && |w| > 0 && w[|w| - 1] == '\n'
    ensures AtLineStart(t, p + |w|)
  {
    CharOfOccurrence(t, p, w, |w| - 1);
  }

  // ---------------------------------------------------------------------------
  // One line of the file: `export KEY=VALUE`, or any other line

  /** The line `export KEY=VALUE` and its newline. */
  function ExportLine(key: string, v: string): string {
    "export " + key + "=" + v + "\n"
  }

  /** `t` has that line at `p`, at the start of a line, word by word. */
  predicate ExportLineAt(t: string, p: nat, key: string, v: string) {
    && AtLineStart(t, p)
    && HasAt(t, p, "export") && p + 6 < |t| && t[p + 6] == ' '
    && HasAt(t, p + 7, key + "=")
    && HasAt(t, p + 8 + |key|, v) && '\n' !in v
    && p + 8 + |key| + |v| < |t| && t[p + 8 + |key| + |v|] == '\n'
  }

  /** Where the value and the newline of such a line lie. */
  lemma ExportLineValue(t: string, p: nat, key: string, v: string)
    requires HasAt(t, p, ExportLine(key, v))
    ensures HasAt(t, p + 8 + |key|, v)
    ensures t[p + 8 + |key| + |v|] == '\n'
  {
    var w := ExportLine(key, v);
    assert w[8 + |key|..8 + |key| + |v|] == v;
    SliceOfOccurrence(t, p, w, 8 + |key|, 8 + |key| + |v|);
    CharOfOccurrence(t, p, w, |w| - 1);
  }

  /** The words of such a line. */
  lemma ExportLineParts(t: string, p: nat, key: string, v: string)
    requires HasAt(t, p, ExportLine(key, v))
    ensures HasAt(t, p, "export") && p + 6 < |t| && t[p + 6] == ' '
    ensures HasAt(t, p + 7, key + "=")
  {
    var w := ExportLine(key, v);
    assert w[0..6] == "export" && w[6] == ' ' && w[7..8 + |key|] == key + "=";
    SliceOfOccurrence(t, p, w, 0, 6);
    CharOfOccurrence(t, p, w, 6);
    SliceOfOccurrence(t, p, w, 7, 8 + |key|);
  }

  /** A value without a newline, followed by one, runs to it. */
  lemma ValueLineEnd(t: string, q: nat, v: string)
    requires HasAt(t, q, v) && '\n' !in v && q + |v| < |t| && t[q + |v|] == '\n'
    ensures LineEnd(t, q) == q + |v|
  {
    forall k | q <= k < q + |v| ensures t[k] != '\n' {
      CharOfOccurrence(t, q, v, k - q);
    }
    LineEndAt(t, q, q + |v|);
  }

  /** The line at `p`, at the start of a line, read word by word. */
  lemma ExportLineAtFrom(t: string, p: nat, key: string, v: string)
    requires AtLineStart(t, p) && HasAt(t, p, ExportLine(key, v)) && '\n' !in v
    ensures ExportLineAt(t, p, key, v)
  {
    ExportLineParts(t, p, key, v);
    ExportLineValue(t, p, key, v);
  }

  /** Such a line defines `key`; its value runs to the newline. */
  lemma ExportLineHead(t: string, p: nat, key: string, v: string)
    requires ValidKey(key) && ExportLineAt(t, p, key, v)
    ensures DefinitionHead(t, key, p) == Some(p + 8 + |key|)
    ensures LineEnd(t, p + 8 + |key|) == p + 8 + |key| + |v|
    ensures t[p + 8 + |key|..p + 8 + |key| + |v|] == v
  {
    SimpleDefinitionMatches(t, key, p);
    ValueLineEnd(t, p + 8 + |key|, v);
  }

  /** A line that starts with anything but `e` defines no key. */
  lemma NoExportLine(t: string, p: nat, key: string, line: string)
    requires HasAt(t, p, line) && |line| > 0 && line[0] != 'e'
    ensures !DefinesAt(t, key, p)
  {
    CharOfOccurrence(t, p, line, 0);
    if HasAt(t, p, "export") {
      CharOfOccurrence(t, p, "export", 0);
    }
  }

  /** A line that defines another key does not define `key`. */
  lemma OtherKeyLine(t: string, p: nat, key: string, other: string, v: string)
    requires ValidKey(key) && ValidKey(other) && key != other
    requires ExportLineAt(t, p, other, v)
    ensures !DefinesAt(t, key, p)
  {
    ExportLineHead(t, p, other, v);
    if DefinesAt(t, key, p) {
      DefinitionKeyIsExact(t, key, other, p);
    }
  }

  // ---------------------------------------------------------------------------
  // query, line by line

  /** No line starts after the first position of a line, so the scan moves on. */
  lemma {:induction false} CapturesInLine(t: string, key: string, a: nat, b: nat)
    requires a <= b < |t|
    requires forall i :: a <= i < b ==> t[i] != '\n'
    ensures Captures(t, key, a + 1) == Captures(t, key, b + 1)
    decreases b - a
  {
    if a < b {
      assert t[a] != '\n';
      assert DefinitionHead(t, key, a + 1) == None;
      CapturesPast(t, key, a + 1);
      CapturesInLine(t, key, a + 1, b);
    }
  }

  /** One step of the scan where a definition starts: its value is the rest
      of the line. */
  lemma CapturesAtHead(t: string, key: string, p: nat, q: nat, v: string)
    requires p < |t| && DefinitionHead(t, key, p) == Some(q)
    requires q + |v| <= |t| && LineEnd(t, q) == q + |v| && t[q..q + |v|] == v
    ensures Captures(t, key, p) == [v] + Captures(t, key, q + |v|)
  {
  }

  /** One step of the scan where no definition starts. */
  lemma CapturesPast(t: string, key: string, p: nat)
    requires p < |t| && DefinitionHead(t, key, p) == None
    ensures Captures(t, key, p) == Captures(t, key, p + 1)
  {
  }

  /** No line starts at the newline that ends such a line. */
  lemma NewlineNotLineStart(t: string, p: nat, key: string, v: string)
    requires ExportLineAt(t, p, key, v)
    ensures p + 8 + |key| + |v| < |t| && !AtLineStart(t, p + 8 + |key| + |v|)
  {
    var q := p + 8 + |key|;
    if |v| > 0 {
      CharOfOccurrence(t, q, v, |v| - 1);
      assert v[|v| - 1] in v;
    } else {
      CharOfOccurrence(t, p + 7, key + "=", |key|);
    }
  }

  /** A definition whose value runs to a newline after which no line starts
      contributes that value, and the scan goes on after the newline. */
  lemma CapturesOverLine(t: string, key: string, p: nat, q: nat, v: string, n: nat)
    requires p < |t| && DefinitionHead(t, key, p) == Some(q)
    requires q + |v| < |t| && LineEnd(t, q) == q + |v| && t[q..q + |v|] == v
    requires !AtLineStart(t, q + |v|) && n == q + |v| + 1
    ensures Captures(t, key, p) == [v] + Captures(t, key, n)
  {
    CapturesAtHead(t, key, p, q, v);
    CapturesPast(t, key, q + |v|);
  }

  /** The line `export KEY=VALUE` contributes its value and nothing else. */
  lemma QueryExportLine(t: string, p: nat, key: string, v: string, n: nat)
    requires ValidKey(key) && ExportLineAt(t, p, key, v) && n == p + 9 + |key| + |v|
    ensures n <= |t|
    ensures Captures(t, key, p) == [v] + Captures(t, key, n)
  {
    var q := p + 8 + |key|;
    ExportLineHead(t, p, key, v);
    NewlineNotLineStart(t, p, key, v);
    CapturesOverLine(t, key, p, q, v, n);
  }

  /** The last line, `export KEY=VALUE`, contributes its value only. */
  lemma QueryLastLine(t: string, p: nat, key: string, v: string)
    requires ValidKey(key) && ExportLineAt(t, p, key, v) && |t| == p + 9 + |key| + |v|
    ensures Captures(t, key, p) == [v]
  {
    QueryExportLine(t, p, key, v, |t|);
    assert Captures(t, key, |t|) == [];
  }

  /** Where no definition starts, the scan passes over the rest of the line. */
  lemma CapturesOverOtherLine(t: string, key: string, p: nat, b: nat, n: nat)
    requires p <= b < |t| && DefinitionHead(t, key, p) == None && n == b + 1
    requires forall i :: p <= i < b ==> t[i] != '\n'
    ensures Captures(t, key, p) == Captures(t, key, n)
  {
    CapturesPast(t, key, p);
    CapturesInLine(t, key, p, b);
  }

  /** A line that does not define the key contributes nothing. */
  lemma QueryOtherLine(t: string, p: nat, key: string, line: string, n: nat)
    requires HasAt(t, p, line + "\n") && '\n' !in line && !DefinesAt(t, key, p)
    requires n == p + |line| + 1
    ensures n <= |t|
    ensures Captures(t, key, p) == Captures(t, key, n)
  {
    forall i | p <= i < p + |line| ensures t[i] != '\n' {
      CharOfOccurrence(t, p, line + "\n", i - p);
    }
    CapturesOverOtherLine(t, key, p, p + |line|, n);
  }

  // ---------------------------------------------------------------------------
  // unset, line by line

  /** No match starts on a line that does not define the key. */
  lemma NoMatchOnLine(t: string, p: nat, key: string, w: string, k: nat)
    requires HasAt(t, p, w) && |w| > 0 && '\n' !in w[..|w| - 1] && !DefinesAt(t, key, p)
    requires p <= k < p + |w|
    ensures UnsetMatch(t, key, k).None?
  {
    if k > p {
      CharOfOccurrence(t, p, w, k - 1 - p);
      assert w[k - 1 - p] in w[..|w| - 1];
      assert !AtLineStart(t, k);
    }
  }

  /** A line that does not define the key is kept whole. */
  lemma UnsetOtherLine(t: string, p: nat, key: string, line: string, e: nat)
    requires ValidKey(key)
    requires HasAt(t, p, line + "\n") && '\n' !in line && !DefinesAt(t, key, p)
    requires e == p + |line| + 1
    ensures var m := UnsetMatcher(t, key);
      e <= |t| && CutMatches(t, m, p) == line + "\n" + CutMatches(t, m, e)
  {
    var m := UnsetMatcher(t, key);
    var w := line + "\n";
    assert |w| == |line| + 1 && w[..|w| - 1] == line;
    forall k: nat | p <= k < e ensures m(k).None? {
      NoMatchOnLine(t, p, key, w, k);
    }
    CutSkipsNoMatch(t, m, p, e);
    assert t[p..e] == w;
  }

  /** A `;` at `i` of `v` after which the optional group cannot end on a
      newline: a character other than white space follows it, or one space
      and such a character, and the value goes on after that. */
  predicate BreaksGroup(v: string, i: nat)
    requires i < |v|
  {
    i + 2 < |v| &&
    (!IsRegexpSpace(v[i + 1]) || (i + 3 < |v| && v[i + 1] == ' ' && !IsRegexpSpace(v[i + 2])))
  }

  /** A value the lazy tail passes over to its end: no newline, no white
      space at its end, and every `;` in it breaks the group. */
  predicate LazyValue(v: string) {
    && '\n' !in v
    && (|v| > 0 ==> !IsRegexpSpace(v[|v| - 1]))
    && forall i :: 0 <= i < |v| && v[i] == ';' ==> BreaksGroup(v, i)
  }

  /** The first `\s*` of the group stops only at its longest run, so the
      group tried at `r` is the group tried where that run ends. */
  lemma GroupAfterSpaces(t: string, r: nat)
    requires r <= |t|
    ensures r + SpaceRun(t, r) <= |t|
    ensures Group(t, r) == Group(t, r + SpaceRun(t, r))
  {
    var c := r + SpaceRun(t, r);
    if c < |t| {
      assert SpaceRun(t, c) == 0;
    }
  }

  /** A `;` followed by a character other than white space, or by one space
      and such a character, with no newline after: `\s*[^$]\n` fails. */
  lemma GroupFailsAt(t: string, i: nat)
    requires i + 2 < |t| && t[i] == ';' && t[i + 2] != '\n'
    requires !IsRegexpSpace(t[i + 1]) ||
      (i + 3 < |t| && t[i + 1] == ' ' && !IsRegexpSpace(t[i + 2]) && t[i + 3] != '\n')
    ensures Group(t, i).None?
  {
    assert SpaceRun(t, i) == 0;
    if IsRegexpSpace(t[i + 1]) {
      assert SpaceRun(t, i + 2) == 0;
      assert SpaceRun(t, i + 1) == 1;
      assert SecondSpaces(t, i + 1, 1).None?;
    } else {
      assert SpaceRun(t, i + 1) == 0;
      assert SecondSpaces(t, i + 1, 0).None?;
    }
  }

  /** Over a stretch without newline, whose `;`s all fail the group and whose
      last character is not white space, neither the group nor the newline
      can end the lazy tail; the bare newline after it does, when the next
      line starts with neither white space nor `;`. */
  lemma {:induction false} LazyTailToNewline(t: string, r: nat, j: nat)
    requires r <= j < |t| && t[j] == '\n'
    requires j + 1 == |t| || (!IsRegexpSpace(t[j + 1]) && t[j + 1] != ';')
    requires forall i :: r <= i < j ==> t[i] != '\n'
    requires forall i :: r <= i < j && t[i] == ';' ==> Group(t, i).None?
    requires r < j ==> !IsRegexpSpace(t[j - 1])
    ensures LazyTail(t, r) == Some(j + 1)
    decreases j - r
  {
    if r < j {
      SpaceRunIsSpace(t, r);
      GroupAfterSpaces(t, r);
      var c := r + SpaceRun(t, r);
      assert c < j;
      assert Group(t, r).None?;
      LazyTailToNewline(t, r + 1, j);
    } else {
      assert SpaceRun(t, j) == 1;
      assert Group(t, j).None?;
    }
  }

  /** Inside such a value no newline lies and no `;` completes the group. */
  lemma ValueCharAt(t: string, q: nat, v: string, k: nat)
    requires HasAt(t, q, v) && LazyValue(v) && k < |v|
    ensures t[q + k] != '\n'
    ensures t[q + k] == ';' ==> Group(t, q + k).None?
  {
    CharOfOccurrence(t, q, v, k);
    assert v[k] in v;
    if v[k] == ';' {
      assert BreaksGroup(v, k);
      CharOfOccurrence(t, q, v, k + 1);
      CharOfOccurrence(t, q, v, k + 2);
      assert v[k + 2] in v;
      if IsRegexpSpace(v[k + 1]) {
        CharOfOccurrence(t, q, v, k + 3);
        assert v[k + 3] in v;
      }
      GroupFailsAt(t, q + k);
    }
  }

  /** The lazy tail passes over a value it cannot stop in, to the newline
      after it. */
  lemma LazyTailOverValue(t: string, q: nat, v: string)
    requires HasAt(t, q, v) && LazyValue(v)
    requires q + |v| < |t| && t[q + |v|] == '\n'
    requires var n := q + |v| + 1; n == |t| || (!IsRegexpSpace(t[n]) && t[n] != ';')
    ensures LazyTail(t, q) == Some(q + |v| + 1)
  {
    forall i | q <= i < q + |v|
      ensures t[i] != '\n'
      ensures t[i] == ';' ==> Group(t, i).None?
    {
      ValueCharAt(t, q, v, i - q);
    }
    if |v| > 0 {
      CharOfOccurrence(t, q, v, |v| - 1);
    }
    LazyTailToNewline(t, q, q + |v|);
  }

  /** A definition whose lazy tail ends at `e` is a match: the cut goes on at `e`. */
  lemma CutDefinition(t: string, key: string, p: nat, q: nat, e: nat)
    requires p < |t| && DefinitionHead(t, key, p) == Some(q)
    requires q <= |t| && LazyTail(t, q) == Some(e)
    ensures e <= |t|
    ensures CutMatches(t, UnsetMatcher(t, key), p) == CutMatches(t, UnsetMatcher(t, key), e)
  {
    var m := UnsetMatcher(t, key);
    assert m(p) == Some(e);
    CutSkips(t, m, p, e);
  }

  /** A line `export KEY=VALUE` is cut whole when the lazy tail passes over
      its value and the next line starts with neither white space nor `;`. */
  lemma UnsetExportLineTo(t: string, p: nat, key: string, v: string, n: nat)
    requires ValidKey(key) && ExportLineAt(t, p, key, v) && LazyValue(v)
    requires n == p + 9 + |key| + |v|
    requires n == |t| || (n < |t| && !IsRegexpSpace(t[n]) && t[n] != ';')
    ensures n <= |t|
    ensures CutMatches(t, UnsetMatcher(t, key), p) == CutMatches(t, UnsetMatcher(t, key), n)
  {
    var q := p + 8 + |key|;
    ExportLineHead(t, p, key, v);
    LazyTailOverValue(t, q, v);
    CutDefinition(t, key, p, q, n);
  }


  /** Values without `;` that neither hold a newline nor end in white space. */
  lemma LazyValueWithoutSemicolon(v: string)
    requires ';' !in v && '\n' !in v && (|v| > 0 ==> !IsRegexpSpace(v[|v| - 1]))
    ensures LazyValue(v)
  {
    forall i | 0 <= i < |v| ensures v[i] != ';' {
      assert v[i] in v;
    }
  }

  /** `a;b` with `a` free of `;` and newline: the new `;` breaks the group
      when `b` starts with a character other than white space, or with one
      space and such a character. */
  lemma LazyValueJoin(a: string, b: string)
    requires ';' !in a && '\n' !in a && LazyValue(b) && |b| >= 2
    requires !IsRegexpSpace(b[0]) || (|b| >= 3 && b[0] == ' ' && !IsRegexpSpace(b[1]))
    ensures LazyValue(a + ";" + b)
  {
    var v := a + ";" + b;
    assert v[|a|] == ';';
    forall i | 0 <= i < |v| ensures v[i] != '\n' && (v[i] == ';' ==> BreaksGroup(v, i)) {
      if i < |a| {
        assert v[i] == a[i] && a[i] in a;
      } else if i > |a| {
        var k := i - |a| - 1;
        assert v[i] == b[k] && b[k] in b;
        if b[k] == ';' {
          assert BreaksGroup(b, k);
          assert v[i + 1] == b[k + 1] && v[i + 2] == b[k + 2];
          if k + 3 < |b| {
            assert v[i + 3] == b[k + 3];
          }
        }
      } else {
        assert v[i + 1] == b[0] && v[i + 2] == b[1];
        if |b| >= 3 {
          assert v[i + 3] == b[2];
        }
      }
    }
    assert v[|v| - 1] == b[|b| - 1];
  }

  // ---------------------------------------------------------------------------
  // Normalizing the values of `$KEY:` appends

  /** A text that lacks one character of a word does not contain the word. */
  lemma AbsentWithoutChar(s: string, w: string, k: nat)
    requires k < |w| && w[k] !in s
    ensures !Occurs(s, w)
  {
    forall i: nat ensures !HasAt(s, i, w) {
      if i + |w| <= |s| {
        assert s[i..i + |w|][k] == s[i + k];
        assert s[i + k] in s;
      }
    }
  }

  /** The first `$KEY:` at the front is removed, and the second replacement
      finds none when the rest lacks the key's first character. */
  lemma RemoveSelfReference(key: string, r: string)
    requires ValidKey(key) && key[0] !in r
    ensures ReplaceFirst(ReplaceFirst(SelfReference(key) + r, SelfReference(key), ""), SelfReference(key), "") == r
  {
    var w := SelfReference(key);
    HasAtEnd([], w + r);
    assert HasAt(w + r, 0, w) by { assert (w + r)[..|w|] == w; }
    ReplaceFirstAt(w + r, w, "", 0);
    assert (w + r)[|w|..] == r;
    AbsentWithoutChar(r, w, 1);
  }

  /** `$KEY:rest` normalizes to `rest`. */
  lemma NormalizeAppend(key: string, r: string)
    requires ValidKey(key) && key[0] !in r
    ensures Normalize(SelfReference(key) + r, key) == r
  {
    var s := SelfReference(key) + r;
    assert s[0] == '$';
    assert Unquote(s) == s;
    RemoveSelfReference(key, r);
  }

  /** `"$KEY:rest"` normalizes to `rest`. */
  lemma NormalizeQuotedAppend(key: string, r: string)
    requires ValidKey(key) && key[0] !in r
    ensures Normalize("\"" + SelfReference(key) + r + "\"", key) == r
  {
    var s := "\"" + SelfReference(key) + r + "\"";
    assert s[1..|s| - 1] == SelfReference(key) + r;
    RemoveSelfReference(key, r);
  }

  /** `"$KEY:rest` with no closing quote keeps its opening quote and loses
      `$KEY:` after it. */
  lemma NormalizeOpenQuote(key: string, r: string)
    requires ValidKey(key) && key[0] !in r && |r| > 0 && r[|r| - 1] != '"'
    ensures Normalize("\"" + SelfReference(key) + r, key) == "\"" + r
  {
    var w := SelfReference(key);
    var s := "\"" + w + r;
    assert s[|s| - 1] == r[|r| - 1];
    assert Unquote(s) == s;
    assert HasAt(s, 1, w) by { assert s[1..1 + |w|] == w; }
    assert !HasAt(s, 0, w) by { assert s[0] != w[0]; }
    ReplaceFirstAt(s, w, "", 1);
    assert s[..1] + "" + s[1 + |w|..] == "\"" + r;
    assert key[0] != '"' by { assert IsKeyChar(key[0]); }
    AbsentWithoutChar("\"" + r, w, 1);
    ReplaceFirstAbsent("\"" + r, w, "");
  }
}
