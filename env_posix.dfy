/** The shell-file backend: reading, merging and cutting `export KEY=VALUE`
    definitions in the text of a shell start-up file (env_posix.go). */
module EnvPosix {
  import opened GoStrings

  datatype Error =
    | KeyNotFound(key: string)    // "key '<key>' not found"
    | IndexPanic                  // run-time panic of an out-of-range index or slice
    | HomeDirUnavailable          // the home directory lookup failed
    | ReadFailed(path: string)    // the file could not be read

  datatype Result<T> = Ok(value: T) | Err(error: Error)

  /** Keys are literal names; nothing in them is a pattern metacharacter. */
  predicate IsKeyChar(c: char) {
    ('A' <= c <= 'Z') || ('a' <= c <= 'z') || ('0' <= c <= '9') || c == '_'
  }

  predicate ValidKey(key: string) {
    |key| > 0 && forall i :: 0 <= i < |key| ==> IsKeyChar(key[i])
  }

  /** `\s` of Go's regular expressions: [\t\n\f\r ]. It includes the newline. */
  predicate IsRegexpSpace(c: char) {
    c == '\t' || c == '\n' || c == '\U{0C}' || c == '\r' || c == ' '
  }

  /** Length of the longest run of `\s` characters starting at `i`. */
  function SpaceRun(t: string, i: nat): (n: nat)
    requires i <= |t|
    ensures i + n <= |t|
    ensures i + n == |t| || !IsRegexpSpace(t[i + n])
    decreases |t| - i
  {
    if i < |t| && IsRegexpSpace(t[i]) then 1 + SpaceRun(t, i + 1) else 0
  }

  /** Every character of the run is white space. */
  lemma {:induction false} SpaceRunIsSpace(t: string, i: nat)
    requires i <= |t|
    ensures forall k :: i <= k < i + SpaceRun(t, i) ==> IsRegexpSpace(t[k])
    decreases |t| - i
  {
    if i < |t| && IsRegexpSpace(t[i]) {
      SpaceRunIsSpace(t, i + 1);
    }
  }

  /** Where `^` matches in multi-line mode. */
  predicate AtLineStart(t: string, p: nat) {
    p == 0 || (p <= |t| && t[p - 1] == '\n')
  }

  /** The first newline at or after `i`, or the end of the text. */
  function LineEnd(t: string, i: nat): (e: nat)
    requires i <= |t|
    ensures i <= e <= |t|
    ensures e == |t| || t[e] == '\n'
    decreases |t| - i
  {
    if i == |t| || t[i] == '\n' then i else LineEnd(t, i + 1)
  }

  /** No newline lies between `i` and the end of its line. */
  lemma {:induction false} LineEndNoNewline(t: string, i: nat)
    requires i <= |t|
    ensures forall k :: i <= k < LineEnd(t, i) ==> t[k] != '\n'
    decreases |t| - i
  {
    if i < |t| && t[i] != '\n' {
      LineEndNoNewline(t, i + 1);
    }
  }

  /** `^export\s+KEY=` matched at `p`: the index just after the `=`.
      As no key character is white space, `\s+` takes the whole run. */
  function DefinitionHead(t: string, key: string, p: nat): (r: Option<nat>)
    requires p <= |t|
    ensures r.Some? ==> AtLineStart(t, p) && HasAt(t, p, "export")
    ensures r.Some? ==> SpaceRun(t, p + 6) > 0
    ensures r.Some? ==> r.value == p + 6 + SpaceRun(t, p + 6) + |key| + 1 <= |t|
    ensures r.Some? ==> HasAt(t, p + 6 + SpaceRun(t, p + 6), key + "=")
  {
    if AtLineStart(t, p) && HasAt(t, p, "export") then
      var n := SpaceRun(t, p + 6);
      if n > 0 && HasAt(t, p + 6 + n, key + "=") then Some(p + 6 + n + |key| + 1) else None
    else None
  }

  /** The line at `p` (or, through `\s`, the lines from `p`) defines `key`. */
  predicate DefinesAt(t: string, key: string, p: nat) {
    p <= |t| && DefinitionHead(t, key, p).Some?
  }

  ghost predicate HasDefinition(t: string, key: string) {
    exists p: nat :: DefinesAt(t, key, p)
  }

  // ---------------------------------------------------------------------------
  // query: `(?m)^export\s+KEY=([^\n]*)`, all matches, leftmost first

  /** The captured values of the matches the regular expression engine finds
      from `p` on: each match runs to the end of its line, and the search goes
      on where the match ended. */
  function Captures(t: string, key: string, p: nat): (r: seq<string>)
    requires p <= |t|
    ensures forall i :: 0 <= i < |r| ==> NoNewline(r[i])
    decreases |t| - p
  {
    if p == |t| then []
    else match DefinitionHead(t, key, p)
      case Some(q) =>
        LineEndNoNewline(t, q);
        [t[q..LineEnd(t, q)]] + Captures(t, key, LineEnd(t, q))
      case None => Captures(t, key, p + 1)
  }

  /** Reference: the value of EVERY definition line at or after `p`, in order. */
  function DefinitionValues(t: string, key: string, p: nat): seq<string>
    requires p <= |t|
    decreases |t| - p
  {
    if p == |t| then []
    else
      (match DefinitionHead(t, key, p)
       case Some(q) => [t[q..LineEnd(t, q)]]
       case None => [])
      + DefinitionValues(t, key, p + 1)
  }

  /** The text at `j` cannot be both the keyword `export` followed by white
      space and a valid key followed by `=`. */
  lemma KeyIsNotExport(t: string, key: string, j: nat)
    requires ValidKey(key)
    requires HasAt(t, j, key + "=")
    ensures !(HasAt(t, j, "export") && j + 6 < |t| && IsRegexpSpace(t[j + 6]))
  {
    if j + 6 <= |t| {
      if |key| < 6 {
        assert t[j..j + 6][|key|] == t[j + |key|] == (key + "=")[|key|];
      } else if j + 6 < |t| {
        assert t[j + 6] == t[j..j + |key| + 1][6] == (key + "=")[6];
        if |key| > 6 {
          assert IsKeyChar(key[6]);
        }
      }
    }
  }

  /** No line starts inside the word `export` or inside `KEY=`. */
  lemma NoLineStartInWord(t: string, w: string, i: nat, p': nat)
    requires HasAt(t, i, w) && '\n' !in w
    requires i < p' <= i + |w|
    ensures !AtLineStart(t, p')
  {
    assert t[p' - 1] == t[i..i + |w|][p' - 1 - i] == w[p' - 1 - i];
  }

  /** A definition needs `export` at its start, which white space is not. */
  lemma NoDefinitionAtSpace(t: string, key: string, p': nat)
    requires p' < |t| && IsRegexpSpace(t[p'])
    ensures !DefinesAt(t, key, p')
  {
    if p' + 6 <= |t| {
      assert t[p'..p' + 6][0] == t[p'];
    }
  }

  /** No definition starts strictly inside a definition line that the query
      engine matched: line starts inside it can only fall in the white space
      after `export`. */
  lemma NoDefinitionInside(t: string, key: string, p: nat, p': nat)
    requires ValidKey(key)
    requires DefinesAt(t, key, p)
    requires p < p' < LineEnd(t, DefinitionHead(t, key, p).value)
    ensures !DefinesAt(t, key, p')
  {
    var q := DefinitionHead(t, key, p).value;
    var j := p + 6 + SpaceRun(t, p + 6);
    if p' <= p + 6 {
      NoLineStartInWord(t, "export", p, p');
    } else if p' < j {
      SpaceRunIsSpace(t, p + 6);
      NoDefinitionAtSpace(t, key, p');
    } else if p' == j {
      KeyIsNotExport(t, key, j);
    } else if p' <= q {
      KeyHasNoNewline(key);
      NoLineStartInWord(t, key + "=", j, p');
    } else {
      LineEndNoNewline(t, q);
      assert t[p' - 1] != '\n';
    }
  }

  /** No definition starts in `[a, b)`. */
  predicate NoDefinitionIn(t: string, key: string, a: nat, b: nat)
    decreases b - a
  {
    a >= b || (!DefinesAt(t, key, a) && NoDefinitionIn(t, key, a + 1, b))
  }

  /** `NoDefinitionIn` from the statement about every position. */
  lemma {:induction false} NoDefinitionInFromAll(t: string, key: string, a: nat, b: nat)
    requires forall k :: a <= k < b ==> !DefinesAt(t, key, k)
    ensures NoDefinitionIn(t, key, a, b)
    decreases b - a
  {
    if a < b {
      NoDefinitionInFromAll(t, key, a + 1, b);
    }
  }

  /** Skipping positions where no definition starts loses no value. */
  lemma {:induction false} SkipNoDefinitions(t: string, key: string, a: nat, b: nat)
    requires a <= b <= |t|
    requires NoDefinitionIn(t, key, a, b)
    ensures DefinitionValues(t, key, a) == DefinitionValues(t, key, b)
    decreases b - a
  {
    if a < b {
      SkipNoDefinitions(t, key, a + 1, b);
    }
  }

  /** The leftmost-first scan finds every definition line, in document order,
      without merging or dropping any. */
  lemma {:induction false} CapturesAreAllDefinitions(t: string, key: string, p: nat)
    requires ValidKey(key)
    requires p <= |t|
    ensures Captures(t, key, p) == DefinitionValues(t, key, p)
    decreases |t| - p
  {
    if p < |t| {
      match DefinitionHead(t, key, p)
      case None =>
        CapturesAreAllDefinitions(t, key, p + 1);
      case Some(q) =>
        var e := LineEnd(t, q);
        forall k | p + 1 <= k < e ensures !DefinesAt(t, key, k) {
          NoDefinitionInside(t, key, p, k);
        }
        NoDefinitionInFromAll(t, key, p + 1, e);
        SkipNoDefinitions(t, key, p + 1, e);
        CapturesAreAllDefinitions(t, key, e);
    }
  }

  /** There are no definition values from `p` on exactly when no definition
      starts at or after `p`. */
  lemma {:induction false} DefinitionValuesEmptyIff(t: string, key: string, p: nat)
    requires p <= |t|
    ensures DefinitionValues(t, key, p) == [] <==> forall k: nat :: p <= k ==> !DefinesAt(t, key, k)
    decreases |t| - p
  {
    if p < |t| {
      DefinitionValuesEmptyIff(t, key, p + 1);
      if DefinesAt(t, key, p) {
        assert |DefinitionValues(t, key, p)| > 0;
      } else {
        assert DefinitionValues(t, key, p) == DefinitionValues(t, key, p + 1);
      }
    } else {
      assert forall k: nat :: p <= k ==> !DefinesAt(t, key, k) by {
        forall k: nat | p <= k ensures !DefinesAt(t, key, k) {
          if k == |t| {
            assert !HasAt(t, k, "export");
          }
        }
      }
    }
  }

  /** Self-reference token `$KEY:` of a value that appends to itself. */
  function SelfReference(key: string): string {
    "$" + key + ":"
  }

  /** The captured values on which the original index and slice expressions
      go out of range: the empty value (`s[0]`) and a lone `"` (`s[1:0]`). */
  predicate Panics(s: string) {
    s == "" || s == "\""
  }

  /** One pair of surrounding double quotes is removed when the first and
      last characters are both `"`; anything else is kept as it is. */
  function Unquote(s: string): (r: string)
    requires !Panics(s)
    ensures s[0] == '"' && s[|s| - 1] == '"' ==> s == "\"" + r + "\""
    ensures !(s[0] == '"' && s[|s| - 1] == '"') ==> r == s
  {
    if s[0] == '"' && s[|s| - 1] == '"' then s[1..|s| - 1] else s
  }

  /** A captured value, unquoted, with the first `$KEY:` removed twice in a row. */
  function Normalize(s: string, key: string): (r: string)
    requires !Panics(s)
    ensures |r| <= |s|
    ensures NoNewline(s) ==> NoNewline(r)
  {
    ReplaceFirst(ReplaceFirst(Unquote(s), SelfReference(key), ""), SelfReference(key), "")
  }

  /** Some captured value makes `query` panic. */
  predicate AnyPanics(caps: seq<string>) {
    exists i | 0 <= i < |caps| :: Panics(caps[i])
  }

  /** Every captured value normalized, in order. */
  function NormalizeEach(caps: seq<string>, key: string): (r: seq<string>)
    requires !AnyPanics(caps)
    ensures |r| == |caps|
    ensures forall i :: 0 <= i < |caps| ==> r[i] == Normalize(caps[i], key)
  {
    seq(|caps|, i requires 0 <= i < |caps| => Normalize(caps[i], key))
  }

  /** What `query` returns for a file text: the key missing, the panic of a
      value the original cannot index, or the normalized values joined by `;`. */
  function QueryValue(t: string, key: string): (r: Result<string>)
    requires ValidKey(key)
    ensures r.Err? ==> r.error == KeyNotFound(key) || r.error == IndexPanic
    ensures r.Ok? ==> NoNewline(r.value)
  {
    var caps := Captures(t, key, 0);
    if caps == [] then Err(KeyNotFound(key))
    else if AnyPanics(caps) then Err(IndexPanic)
    else Ok(Join(NormalizeEach(caps, key), ";"))
  }

  /** `query`: collect every match, normalize each captured value in turn and
      join them with `;`. */
  method Query(content: string, key: string) returns (r: Result<string>)
    requires ValidKey(key)
    ensures r == QueryValue(content, key)
  {
    var matches := Captures(content, key, 0);
    if |matches| == 0 {
      return Err(KeyNotFound(key));
    }
    var appendKey := SelfReference(key);
    var ret: seq<string> := [];
    var i := 0;
    while i < |matches|
      invariant 0 <= i <= |matches|
      invariant |ret| == i
      invariant forall j :: 0 <= j < i ==> !Panics(matches[j]) && ret[j] == Normalize(matches[j], key)
    {
      var s := matches[i];
      if |s| == 0 || (s[0] == '"' && s[|s| - 1] == '"' && |s| < 2) {
        // s[0] or s[1:len(s)-1] is out of range
        assert Panics(matches[i]);
        assert AnyPanics(matches);
        return Err(IndexPanic);
      }
      if s[0] == '"' && s[|s| - 1] == '"' {
        s := s[1..|s| - 1];
      }
      assert s == Unquote(matches[i]);
      s := ReplaceFirst(s, appendKey, "");
      s := ReplaceFirst(s, appendKey, "");
      assert s == Normalize(matches[i], key);
      ret := ret + [s];
      i := i + 1;
    }
    assert !AnyPanics(matches);
    assert ret == NormalizeEach(matches, key);
    r := Ok(Join(ret, ";"));
  }

  /** `query` reports the key as not found exactly when no line defines it. */
  lemma QueryNotFoundIff(t: string, key: string)
    requires ValidKey(key)
    ensures QueryValue(t, key) == Err(KeyNotFound(key)) <==> !HasDefinition(t, key)
  {
    CapturesAreAllDefinitions(t, key, 0);
    DefinitionValuesEmptyIff(t, key, 0);
  }

  /** `query` merges the values of every definition line, in document order,
      without dropping or merging duplicates; it panics exactly when one of
      them is empty or a lone `"`. */
  lemma QueryMergesAllDefinitions(t: string, key: string)
    requires ValidKey(key)
    ensures var vals := DefinitionValues(t, key, 0);
      QueryValue(t, key) ==
        if vals == [] then Err(KeyNotFound(key))
        else if AnyPanics(vals) then Err(IndexPanic)
        else Ok(Join(NormalizeEach(vals, key), ";"))
  {
    CapturesAreAllDefinitions(t, key, 0);
  }

  /** Exactly the first two self-reference tokens go; a third one and all
      other text stay. */
  lemma NormalizeRemovesTwoTokens(key: string, w: string)
    ensures Normalize("\"" + SelfReference(key) + SelfReference(key) + w + "\"", key) == w
  {
    var tok := SelfReference(key);
    var v := tok + w;
    var u := tok + v;
    var s := "\"" + tok + tok + w + "\"";
    assert s == "\"" + u + "\"";
    assert s[1..|s| - 1] == u;
    assert Unquote(s) == u;
    assert u[0..|tok|] == tok && u[|tok|..] == v;
    ReplaceFirstAt(u, tok, "", 0);
    assert u[..0] + "" + u[|tok|..] == v;
    assert v[0..|tok|] == tok && v[|tok|..] == w;
    ReplaceFirstAt(v, tok, "", 0);
    assert v[..0] + "" + v[|tok|..] == w;
  }

  /** A value without the token is only unquoted. */
  lemma NormalizeWithoutToken(s: string, key: string)
    requires !Panics(s)
    requires !Occurs(Unquote(s), SelfReference(key))
    ensures Normalize(s, key) == Unquote(s)
  {
    ReplaceFirstAbsent(Unquote(s), SelfReference(key), "");
    ReplaceFirstAbsent(Unquote(s), SelfReference(key), "");
  }

  /** Of two valid keys each followed by `=` at the same place, the shorter
      cannot be a proper prefix of the longer. */
  lemma KeysAtSamePlace(t: string, k1: string, k2: string, j: nat)
    requires ValidKey(k1) && ValidKey(k2) && |k1| <= |k2|
    requires HasAt(t, j, k1 + "=") && HasAt(t, j, k2 + "=")
    ensures k1 == k2
  {
    var a := t[j..j + |k1| + 1];
    var b := t[j..j + |k2| + 1];
    assert forall i :: 0 <= i < |k2| ==> t[j + i] == b[i] == k2[i];
    assert t[j + |k1|] == a[|k1|] == '=';
    assert |k1| == |k2|;
    assert k1 == a[..|k1|] == b[..|k2|] == k2;
  }

  /** Two valid keys cannot both be defined by the line at `p`: a key matches
      only up to its `=`, so `MYPATH=` or `PATH2=` never define `PATH`. */
  lemma DefinitionKeyIsExact(t: string, k1: string, k2: string, p: nat)
    requires ValidKey(k1) && ValidKey(k2)
    requires DefinesAt(t, k1, p) && DefinesAt(t, k2, p)
    ensures k1 == k2
  {
    var j := p + 6 + SpaceRun(t, p + 6);
    if |k1| <= |k2| {
      KeysAtSamePlace(t, k1, k2, j);
    } else {
      KeysAtSamePlace(t, k2, k1, j);
    }
  }

  // ---------------------------------------------------------------------------
  // Set: the line appended to the file

  /** The definition `Set` writes: `export KEY="VALUE"`. */
  function Definition(key: string, value: string): string {
    "export " + key + "=\"" + value + "\""
  }

  /** `echo` ends the written definition with a newline. */
  function AppendedLine(key: string, value: string): string {
    Definition(key, value) + "\n"
  }

  /** The end of line found from `i` is the first newline. */
  lemma {:induction false} LineEndAt(t: string, i: nat, e: nat)
    requires i <= e <= |t|
    requires forall k :: i <= k < e ==> t[k] != '\n'
    requires e == |t| || t[e] == '\n'
    ensures LineEnd(t, i) == e
    decreases e - i
  {
    if i < e {
      LineEndAt(t, i + 1, e);
    }
  }

  /** The maximal white-space run is the same in a prefix of the text when it
      stops inside that prefix. */
  lemma {:induction false} SpaceRunOfPrefix(t: string, d: nat, i: nat)
    requires i <= d <= |t|
    requires i + SpaceRun(t, i) < d
    ensures SpaceRun(t[..d], i) == SpaceRun(t, i)
    decreases d - i
  {
    if IsRegexpSpace(t[i]) {
      assert t[..d][i] == t[i];
      SpaceRunOfPrefix(t, d, i + 1);
    } else {
      assert t[..d][i] == t[i];
    }
  }

  /** A word without newline that starts before a newline ends before it. */
  lemma WordBeforeNewline(t: string, w: string, i: nat, d: nat)
    requires i < d <= |t| && t[d - 1] == '\n'
    requires HasAt(t, i, w) && '\n' !in w
    ensures i + |w| <= d && HasAt(t[..d], i, w)
  {
    assert forall m :: i <= m < i + |w| ==> t[m] == t[i..i + |w|][m - i];
    assert t[..d][i..i + |w|] == t[i..i + |w|];
  }

  /** The parts `^`, `export`, a white-space run of `n` and `KEY=` make a
      definition. */
  lemma DefinesFromParts(t: string, key: string, p: nat, n: nat)
    requires p + 6 <= |t| && AtLineStart(t, p) && HasAt(t, p, "export")
    requires n > 0 && SpaceRun(t, p + 6) == n
    requires HasAt(t, p + 6 + n, key + "=")
    ensures DefinesAt(t, key, p)
  {
  }

  /** The white space after `export` at `k` stops before a line boundary `d`
      where the next line starts with `export`. */
  lemma KeyStartsBefore(t: string, key: string, d: nat, k: nat)
    requires ValidKey(key)
    requires k + 6 <= d < |t| && HasAt(t, d, "export") && d + 6 < |t| && t[d + 6] == ' '
    requires DefinesAt(t, key, k)
    ensures k + 6 + SpaceRun(t, k + 6) < d
  {
    var j := k + 6 + SpaceRun(t, k + 6);
    assert j != d by {
      if j == d {
        KeyIsNotExport(t, key, j);
      }
    }
    SpaceRunIsSpace(t, k + 6);
    assert !IsRegexpSpace(t[d]) by { assert t[d] == t[d..d + 6][0]; }
  }

  /** A key and its `=` contain no newline. */
  lemma KeyHasNoNewline(key: string)
    requires ValidKey(key)
    ensures '\n' !in key + "="
  {
    assert forall i :: 0 <= i < |key| ==> IsKeyChar(key[i]);
  }

  /** A line start of the text before `d` is a line start of the prefix. */
  lemma LineStartOfPrefix(t: string, d: nat, k: nat)
    requires k < d <= |t| && AtLineStart(t, k)
    ensures AtLineStart(t[..d], k)
  {
    if k > 0 {
      assert t[..d][k - 1] == t[k - 1];
    }
  }

  /** A definition whose head ends by `d` is a definition of the text up
      to `d`. */
  lemma DefinitionInPrefix(t: string, key: string, d: nat, k: nat)
    requires k < d <= |t|
    requires DefinesAt(t, key, k) && DefinitionHead(t, key, k).value <= d
    ensures DefinesAt(t[..d], key, k)
  {
    var data := t[..d];
    var n := SpaceRun(t, k + 6);
    assert HasAt(data, k, "export") by {
      assert data[k..k + 6] == t[k..k + 6];
    }
    SpaceRunOfPrefix(t, d, k + 6);
    assert HasAt(data, k + 6 + n, key + "=") by {
      assert data[k + 6 + n..k + 6 + n + |key| + 1] == t[k + 6 + n..k + 6 + n + |key| + 1];
    }
    LineStartOfPrefix(t, d, k);
    DefinesFromParts(data, key, k, n);
  }

  /** The head of a definition that starts before a line boundary `d`, where
      the next line starts with `export` and a space, ends before `d`. */
  lemma HeadEndsBefore(t: string, key: string, d: nat, k: nat)
    requires ValidKey(key)
    requires k < d < |t| && t[d - 1] == '\n'
    requires HasAt(t, d, "export") && d + 6 < |t| && t[d + 6] == ' '
    requires DefinesAt(t, key, k)
    ensures DefinitionHead(t, key, k).value <= d
  {
    WordBeforeNewline(t, "export", k, d);
    KeyStartsBefore(t, key, d, k);
    KeyHasNoNewline(key);
    WordBeforeNewline(t, key + "=", k + 6 + SpaceRun(t, k + 6), d);
  }

  /** A definition that starts before a line boundary `d`, where the next
      line starts with `export` and a space, ends before `d`: it is a
      definition of the text up to `d`. */
  lemma DefinitionStaysInside(t: string, key: string, d: nat, k: nat)
    requires ValidKey(key)
    requires k < d < |t| && t[d - 1] == '\n'
    requires HasAt(t, d, "export") && d + 6 < |t| && t[d + 6] == ' '
    requires DefinesAt(t, key, k)
    ensures DefinesAt(t[..d], key, k)
  {
    HeadEndsBefore(t, key, d, k);
    DefinitionInPrefix(t, key, d, k);
  }

  /** A line `export KEY=...` at a line start `d` is a definition whose value
      starts right after the `=`. */
  lemma SimpleDefinitionMatches(t: string, key: string, d: nat)
    requires ValidKey(key)
    requires AtLineStart(t, d)
    requires HasAt(t, d, "export") && d + 6 < |t| && IsRegexpSpace(t[d + 6])
    requires HasAt(t, d + 7, key + "=")
    ensures DefinitionHead(t, key, d) == Some(d + 8 + |key|)
  {
    assert t[d + 7] == (key + "=")[0] == key[0];
    assert IsKeyChar(key[0]);
    assert SpaceRun(t, d + 7) == 0;
  }

  /** `t` is `data` followed by the line `export KEY="VALUE"` and a newline:
      where each part lies. */
  predicate Appended(t: string, data: string, key: string, value: string) {
    var d := |data|;
    var q := d + 8 + |key|;
    && |t| == q + |value| + 3
    && t[..d] == data
    && HasAt(t, d, "export") && t[d + 6] == ' '
    && HasAt(t, d + 7, key + "=")
    && t[q..|t| - 1] == "\"" + value + "\""
    && t[|t| - 1] == '\n'
  }

  /** The text `Set` leaves is laid out as `Appended` says. */
  lemma AppendedLayout(data: string, key: string, value: string)
    ensures Appended(data + AppendedLine(key, value), data, key, value)
  {
    var line := AppendedLine(key, value);
    var t := data + line;
    var d := |data|;
    var quoted := "\"" + value + "\"";
    LineLayout(key, value);
    HasAtShift(data, line, 0, "export");
    HasAtShift(data, line, 7, key + "=");
    HasAtShift(data, line, 8 + |key|, quoted);
    assert t[..d] == data;
    assert t[d + 6] == line[6] && t[|t| - 1] == line[|line| - 1];
  }

  /** The parts of the appended line, where they stand in it. */
  lemma LineLayout(key: string, value: string)
    ensures var line := AppendedLine(key, value);
      && |line| == |key| + |value| + 11
      && HasAt(line, 0, "export") && line[6] == ' ' && HasAt(line, 7, key + "=")
      && HasAt(line, 8 + |key|, "\"" + value + "\"") && line[|line| - 1] == '\n'
  {
    var line := AppendedLine(key, value);
    var quoted := "\"" + value + "\"";
    assert line == "export " + (key + "=") + quoted + "\n";
    assert line[7..8 + |key|] == key + "=";
    assert line[8 + |key|..8 + |key| + |quoted|] == quoted;
  }

  /** An occurrence stays one when text is put in front. */
  lemma HasAtShift(data: string, w: string, i: nat, x: string)
    requires HasAt(w, i, x)
    ensures HasAt(data + w, |data| + i, x)
  {
    assert (data + w)[|data| + i..|data| + i + |x|] == w[i..i + |x|];
  }

  /** The text ends with the line `export KEY=...` starting at `d`, one
      space after `export`, a non-empty value and a final newline. */
  predicate LastDefinitionLine(t: string, key: string, d: nat) {
    && AtLineStart(t, d)
    && HasAt(t, d, "export") && d + 6 < |t| && t[d + 6] == ' '
    && HasAt(t, d + 7, key + "=")
    && d + 8 + |key| < |t| - 1
    && LineEnd(t, d + 8 + |key|) == |t| - 1
    && t[|t| - 1] == '\n' && t[|t| - 2] != '\n'
  }

  /** The last line `export KEY=...` at `d`: its value runs to the final newline. */
  lemma LastLineHead(t: string, key: string, d: nat)
    requires ValidKey(key)
    requires LastDefinitionLine(t, key, d)
    ensures DefinesAt(t, key, d)
    ensures DefinitionHead(t, key, d) == Some(d + 8 + |key|)
    ensures LineEnd(t, d + 8 + |key|) == |t| - 1
  {
    SimpleDefinitionMatches(t, key, d);
  }

  /** No definition starts after `d` on a definition line that ends the text. */
  lemma NoDefinitionAfterLastAt(t: string, key: string, d: nat, k: nat)
    requires ValidKey(key)
    requires DefinesAt(t, key, d)
    requires LineEnd(t, DefinitionHead(t, key, d).value) == |t| - 1
    requires d < k < |t|
    ensures !DefinesAt(t, key, k)
  {
    if k < |t| - 1 {
      NoDefinitionInside(t, key, d, k);
    } else {
      assert k + 6 > |t|;
    }
  }

  /** Nothing after a definition line that ends the text defines the key. */
  lemma NoDefinitionAfterLast(t: string, key: string, d: nat)
    requires ValidKey(key)
    requires DefinesAt(t, key, d)
    requires LineEnd(t, DefinitionHead(t, key, d).value) == |t| - 1
    requires t[|t| - 2] != '\n'
    ensures DefinitionValues(t, key, d + 1) == []
  {
    forall k | d + 1 <= k < |t| ensures !DefinesAt(t, key, k) {
      NoDefinitionAfterLastAt(t, key, d, k);
    }
    NoDefinitionInFromAll(t, key, d + 1, |t|);
    SkipNoDefinitions(t, key, d + 1, |t|);
  }

  /** A text whose only definition of `key` is a last line `export KEY=...`
      at `d` yields that line's value alone. */
  lemma LastLineIsOnlyDefinition(t: string, key: string, d: nat, q: nat)
    requires ValidKey(key)
    requires d < |t| && DefinitionHead(t, key, d) == Some(q)
    requires LineEnd(t, q) == |t| - 1 && t[|t| - 2] != '\n'
    requires NoDefinitionIn(t, key, 0, d)
    ensures DefinitionValues(t, key, 0) == [t[q..|t| - 1]]
  {
    NoDefinitionAfterLast(t, key, d);
    DefinitionValuesAt(t, key, d, q);
    assert DefinitionValues(t, key, d) == [t[q..|t| - 1]] + [];
    SkipNoDefinitions(t, key, 0, d);
  }

  /** Unfolding of the reference at a definition. */
  lemma DefinitionValuesAt(t: string, key: string, p: nat, q: nat)
    requires p < |t| && DefinitionHead(t, key, p) == Some(q)
    ensures DefinitionValues(t, key, p) == [t[q..LineEnd(t, q)]] + DefinitionValues(t, key, p + 1)
  {
  }

  /** No definition of the key starts at `k` in the old text once the line
      is appended. */
  lemma NoDefinitionBeforeAppendedAt(t: string, data: string, key: string, value: string, k: nat)
    requires ValidKey(key)
    requires data == [] || data[|data| - 1] == '\n'
    requires !HasDefinition(data, key)
    requires Appended(t, data, key, value)
    requires k < |data|
    ensures !DefinesAt(t, key, k)
  {
    var d := |data|;
    assert t[d - 1] == data[d - 1];
    if DefinesAt(t, key, k) {
      DefinitionStaysInside(t, key, d, k);
    }
  }

  /** No line of the old text defines the key once the line is appended. */
  lemma NoDefinitionBeforeAppended(t: string, data: string, key: string, value: string)
    requires ValidKey(key)
    requires data == [] || data[|data| - 1] == '\n'
    requires !HasDefinition(data, key)
    requires Appended(t, data, key, value)
    ensures NoDefinitionIn(t, key, 0, |data|)
  {
    var d := |data|;
    forall k | 0 <= k < d ensures !DefinesAt(t, key, k) {
      NoDefinitionBeforeAppendedAt(t, data, key, value, k);
    }
    NoDefinitionInFromAll(t, key, 0, d);
  }

  /** A quoted value without newline, found at `q`, contains no newline. */
  lemma QuotedHasNoNewline(t: string, q: nat, value: string)
    requires NoNewline(value)
    requires q + |value| + 2 <= |t| && t[q..q + |value| + 2] == "\"" + value + "\""
    ensures forall i :: q <= i < q + |value| + 2 ==> t[i] != '\n'
  {
    var cap := "\"" + value + "\"";
    assert forall i :: q <= i < q + |value| + 2 ==> t[i] == cap[i - q];
    assert forall i :: 0 <= i < |value| ==> cap[i + 1] == value[i];
  }

  /** A last line `export KEY="VALUE"` with a value without newline has the
      shape `LastDefinitionLine` describes. */
  lemma QuotedLastLine(t: string, key: string, value: string, d: nat)
    requires NoNewline(value)
    requires AtLineStart(t, d)
    requires HasAt(t, d, "export") && d + 6 < |t| && t[d + 6] == ' '
    requires HasAt(t, d + 7, key + "=")
    requires |t| == d + 8 + |key| + |value| + 3
    requires t[d + 8 + |key|..|t| - 1] == "\"" + value + "\"" && t[|t| - 1] == '\n'
    ensures LastDefinitionLine(t, key, d)
  {
    var q := d + 8 + |key|;
    QuotedHasNoNewline(t, q, value);
    LineEndAt(t, q, |t| - 1);
    assert t[|t| - 2] == t[q..|t| - 1][|value| + 1] == '"';
  }

  /** The appended definition is a last line of the form the query engine
      matches whole. */
  lemma AppendedLineShape(t: string, data: string, key: string, value: string)
    requires NoNewline(value)
    requires data == [] || data[|data| - 1] == '\n'
    requires Appended(t, data, key, value)
    ensures LastDefinitionLine(t, key, |data|)
  {
    var d := |data|;
    assert AtLineStart(t, d) by {
      if d > 0 {
        assert t[d - 1] == t[..d][d - 1];
      }
    }
    QuotedLastLine(t, key, value, d);
  }

  /** A text whose last line is `export KEY=...`, with no definition of the
      key before it, yields that line's value alone. */
  lemma LastLineDefinition(t: string, key: string, d: nat)
    requires ValidKey(key)
    requires LastDefinitionLine(t, key, d)
    requires NoDefinitionIn(t, key, 0, d)
    ensures DefinitionValues(t, key, 0) == [t[d + 8 + |key|..|t| - 1]]
  {
    LastLineHead(t, key, d);
    var q := d + 8 + |key|;
    assert DefinitionHead(t, key, d) == Some(q);
    assert LineEnd(t, q) == |t| - 1;
    assert t[|t| - 2] != '\n';
    LastLineIsOnlyDefinition(t, key, d, q);
  }

  /** The appended line is the only definition of the key in the new text. */
  lemma AppendedIsOnlyDefinition(t: string, data: string, key: string, value: string)
    requires ValidKey(key)
    requires NoNewline(value)
    requires data == [] || data[|data| - 1] == '\n'
    requires !HasDefinition(data, key)
    requires Appended(t, data, key, value)
    ensures DefinitionValues(t, key, 0) == ["\"" + value + "\""]
  {
    AppendedLineShape(t, data, key, value);
    NoDefinitionBeforeAppended(t, data, key, value);
    LastLineDefinition(t, key, |data|);
  }

  /** `query` of the text with the appended line returns the value. */
  lemma QueryOfAppended(t: string, data: string, key: string, value: string)
    requires ValidKey(key)
    requires NoNewline(value) && !Occurs(value, SelfReference(key))
    requires data == [] || data[|data| - 1] == '\n'
    requires !HasDefinition(data, key)
    requires Appended(t, data, key, value)
    ensures QueryValue(t, key) == Ok(value)
  {
    var cap := "\"" + value + "\"";
    AppendedIsOnlyDefinition(t, data, key, value);
    CapturesAreAllDefinitions(t, key, 0);
    assert !AnyPanics([cap]);
    assert cap[1..|cap| - 1] == value;
    NormalizeWithoutToken(cap, key);
    assert NormalizeEach([cap], key) == [value];
  }

  /** Round trip with `Set`: after `export KEY="VALUE"` is appended to a file
      that does not define KEY, `query` returns VALUE. */
  lemma QueryAfterAppend(data: string, key: string, value: string)
    requires ValidKey(key)
    requires NoNewline(value) && !Occurs(value, SelfReference(key))
    requires data == [] || data[|data| - 1] == '\n'
    requires !HasDefinition(data, key)
    ensures QueryValue(data + AppendedLine(key, value), key) == Ok(value)
  {
    AppendedLayout(data, key, value);
    QueryOfAppended(data + AppendedLine(key, value), data, key, value);
  }

  // ---------------------------------------------------------------------------
  // unset: `(?m)^export\s+KEY=.*?(\s*;\s*[^$])?\n`, every match replaced by ""

  /** The tail `\s*[^$]\n` of the optional group, tried with the white-space
      run from `s` taking `k` characters first and then fewer, as the greedy
      star backtracks: the index after the `\n`. */
  function SecondSpaces(t: string, s: nat, k: nat): (r: Option<nat>)
    requires s + k <= |t|
    ensures r.Some? ==> s + 2 <= r.value <= |t| && t[r.value - 1] == '\n'
    decreases k
  {
    var x := s + k;
    if x + 1 < |t| && t[x] != '$' && t[x + 1] == '\n' then Some(x + 2)
    else if k == 0 then None
    else SecondSpaces(t, s, k - 1)
  }

  /** The optional group followed by the `\n`, tried at `r`. The first `\s*`
      can only stop at its longest run, as `;` is not white space. */
  function Group(t: string, r: nat): (g: Option<nat>)
    requires r <= |t|
    ensures g.Some? ==> r < g.value <= |t| && t[g.value - 1] == '\n'
  {
    var c := r + SpaceRun(t, r);
    if c < |t| && t[c] == ';' then SecondSpaces(t, c + 1, SpaceRun(t, c + 1)) else None
  }

  /** The lazy `.*?` from `r`: at each length the group is tried first, then a
      bare `\n`; only then does `.` take one more non-newline character. */
  function LazyTail(t: string, r: nat): (e: Option<nat>)
    requires r <= |t|
    ensures e.Some? ==> r < e.value <= |t| && t[e.value - 1] == '\n'
    decreases |t| - r
  {
    match Group(t, r)
    case Some(g) => Some(g)
    case None =>
      if r == |t| then None
      else if t[r] == '\n' then Some(r + 1)
      else LazyTail(t, r + 1)
  }

  /** The end of the match of the unset pattern starting at `p`, if any. */
  function UnsetMatch(t: string, key: string, p: nat): (e: Option<nat>)
    requires p <= |t|
    ensures e.Some? ==> DefinesAt(t, key, p) && p < e.value <= |t| && t[e.value - 1] == '\n'
  {
    match DefinitionHead(t, key, p)
    case None => None
    case Some(q) =>
      assert DefinesAt(t, key, p) && q <= |t|;
      LazyTail(t, q)
  }

  // ---------------------------------------------------------------------------
  // `ReplaceAllLiteral(t, "")` over any pattern, given by its matcher: the
  // end of the match starting at each position, if one starts there

  /** Every match the matcher reports is non-empty and inside the text. */
  predicate ValidMatcher(t: string, m: nat -> Option<nat>) {
    forall p: nat :: p <= |t| && m(p).Some? ==> p < m(p).value <= |t|
  }

  /** The text from `p` on with every match cut out, leftmost first, the
      search resuming where each match ended. */
  function CutMatches(t: string, m: nat -> Option<nat>, p: nat): (r: string)
    requires p <= |t| && ValidMatcher(t, m)
    ensures |r| <= |t| - p
    decreases |t| - p
  {
    if p == |t| then []
    else match m(p)
      case Some(e) => CutMatches(t, m, e)
      case None => [t[p]] + CutMatches(t, m, p + 1)
  }

  /** Positions where no match starts are copied through. */
  lemma {:induction false} CutSkipsNoMatch(t: string, m: nat -> Option<nat>, a: nat, b: nat)
    requires a <= b <= |t| && ValidMatcher(t, m)
    requires forall k: nat :: a <= k < b ==> m(k).None?
    ensures CutMatches(t, m, a) == t[a..b] + CutMatches(t, m, b)
    decreases b - a
  {
    if a < b {
      assert m(a).None?;
      assert CutMatches(t, m, a) == [t[a]] + CutMatches(t, m, a + 1);
      CutSkipsNoMatch(t, m, a + 1, b);
      assert t[a..b] == [t[a]] + t[a + 1..b];
    }
  }

  /** Two matchers that agree from `p` on cut the same text. */
  lemma {:induction false} CutSameMatches(t: string, m1: nat -> Option<nat>, m2: nat -> Option<nat>, p: nat)
    requires p <= |t| && ValidMatcher(t, m1) && ValidMatcher(t, m2)
    requires forall k: nat :: p <= k <= |t| ==> m1(k) == m2(k)
    ensures CutMatches(t, m1, p) == CutMatches(t, m2, p)
    decreases |t| - p
  {
    if p < |t| {
      match m1(p)
      case Some(e) => CutSameMatches(t, m1, m2, e);
      case None => CutSameMatches(t, m1, m2, p + 1);
    }
  }

  /** When no match that starts before `p` runs past it, what is left of the
      text from `x` ends with what is left of it from `p`. */
  lemma {:induction false} CutReachesPosition(t: string, m: nat -> Option<nat>, x: nat, p: nat)
    requires x <= p <= |t| && ValidMatcher(t, m)
    requires forall k: nat :: x <= k < p && m(k).Some? ==> m(k).value <= p
    ensures HasSuffix(CutMatches(t, m, x), CutMatches(t, m, p))
    decreases p - x
  {
    if x < p {
      match m(x)
      case Some(e) =>
        assert CutMatches(t, m, x) == CutMatches(t, m, e);
        CutReachesPosition(t, m, e, p);
      case None =>
        assert CutMatches(t, m, x) == [t[x]] + CutMatches(t, m, x + 1);
        CutReachesPosition(t, m, x + 1, p);
        HasSuffixPrepend([t[x]], CutMatches(t, m, x + 1), CutMatches(t, m, p));
    } else {
      assert CutMatches(t, m, x)[|CutMatches(t, m, x)|..] == [];
    }
  }

  /** A match that ends with a newline ends before a tail without newline. */
  lemma MatchEndsBefore(t: string, m: nat -> Option<nat>, p: nat, k: nat)
    requires p <= |t| && ValidMatcher(t, m)
    requires forall k: nat :: k <= |t| && m(k).Some? ==> t[m(k).value - 1] == '\n'
    requires forall i :: p <= i < |t| ==> t[i] != '\n'
    requires k <= |t|
    ensures m(k).Some? ==> k < m(k).value <= p
  {
  }

  /** A tail where no match starts is copied whole. */
  lemma CutCopiesTail(t: string, m: nat -> Option<nat>, p: nat)
    requires p <= |t| && ValidMatcher(t, m)
    requires forall k: nat :: p <= k < |t| ==> m(k).None?
    ensures CutMatches(t, m, p) == t[p..]
  {
    CutSkipsNoMatch(t, m, p, |t|);
    assert CutMatches(t, m, |t|) == [];
  }

  /** When every match ends with a newline, the text after the last newline
      is never cut. */
  lemma CutKeepsUnterminatedTail(t: string, m: nat -> Option<nat>, p: nat)
    requires p <= |t| && ValidMatcher(t, m)
    requires forall k: nat :: k <= |t| && m(k).Some? ==> t[m(k).value - 1] == '\n'
    requires forall i :: p <= i < |t| ==> t[i] != '\n'
    ensures HasSuffix(CutMatches(t, m, 0), t[p..])
  {
    forall k: nat | p <= k < |t| ensures m(k).None? {
      MatchEndsBefore(t, m, p, k);
    }
    CutCopiesTail(t, m, p);
    forall k: nat | k < p ensures m(k).Some? ==> m(k).value <= p {
      MatchEndsBefore(t, m, p, k);
    }
    CutReachesPosition(t, m, 0, p);
  }

  // ---------------------------------------------------------------------------
  // unset

  /** The matcher of the unset pattern. */
  function UnsetMatcher(t: string, key: string): (m: nat -> Option<nat>)
    ensures ValidMatcher(t, m)
  {
    (p: nat) => if p <= |t| then UnsetMatch(t, key, p) else None
  }

  /** `unset`: the text with every match of the unset pattern cut out. */
  function Unset(t: string, key: string): (r: string)
    requires ValidKey(key)
    ensures |r| <= |t|
  {
    CutMatches(t, UnsetMatcher(t, key), 0)
  }

  /** A text without a definition of `key` is returned unchanged. */
  lemma UnsetWithoutDefinition(t: string, key: string)
    requires ValidKey(key)
    requires !HasDefinition(t, key)
    ensures Unset(t, key) == t
  {
    var m := UnsetMatcher(t, key);
    assert forall k: nat :: 0 <= k < |t| ==> m(k).None? by {
      forall k: nat | 0 <= k < |t| ensures m(k).None? {
        assert !DefinesAt(t, key, k);
      }
    }
    CutSkipsNoMatch(t, m, 0, |t|);
  }

  /** In particular, when `query` reports the key missing, `unset` changes
      nothing. */
  lemma UnsetWhenQueryNotFound(t: string, key: string)
    requires ValidKey(key)
    requires QueryValue(t, key) == Err(KeyNotFound(key))
    ensures Unset(t, key) == t
  {
    QueryNotFoundIff(t, key);
    UnsetWithoutDefinition(t, key);
  }

  /** Without `;` the optional group never matches, and the lazy tail ends
      the match right after the end of the line, or fails on a line that no
      newline ends. */
  lemma {:induction false} LazyTailWithoutSemicolon(t: string, r: nat)
    requires r <= |t| && ';' !in t
    ensures LazyTail(t, r) == if LineEnd(t, r) < |t| then Some(LineEnd(t, r) + 1) else None
    decreases |t| - r
  {
    var c := r + SpaceRun(t, r);
    assert c < |t| ==> t[c] != ';';
    if r < |t| && t[r] != '\n' {
      LazyTailWithoutSemicolon(t, r + 1);
    }
  }

  /** The matcher of `(?m)^export\s+KEY=.*\n`: a definition through the
      newline that ends its line. */
  function DefinitionLineMatcher(t: string, key: string): (m: nat -> Option<nat>)
    ensures ValidMatcher(t, m)
  {
    (p: nat) =>
      if p <= |t| && DefinitionHead(t, key, p).Some?
         && LineEnd(t, DefinitionHead(t, key, p).value) < |t|
      then Some(LineEnd(t, DefinitionHead(t, key, p).value) + 1)
      else None
  }

  /** When the text has no `;`, `unset` removes exactly each definition line
      through its newline and keeps every other character in order. */
  lemma UnsetWithoutSemicolon(t: string, key: string)
    requires ValidKey(key) && ';' !in t
    ensures Unset(t, key) == CutMatches(t, DefinitionLineMatcher(t, key), 0)
  {
    var m1 := UnsetMatcher(t, key);
    var m2 := DefinitionLineMatcher(t, key);
    forall k: nat | k <= |t| ensures m1(k) == m2(k) {
      if DefinitionHead(t, key, k).Some? {
        LazyTailWithoutSemicolon(t, DefinitionHead(t, key, k).value);
      }
    }
    CutSameMatches(t, m1, m2, 0);
  }

  /** Text after the last newline is never cut: a definition on an
      unterminated last line stays. */
  lemma UnsetKeepsUnterminatedTail(t: string, key: string, p: nat)
    requires ValidKey(key)
    requires p <= |t| && forall i :: p <= i < |t| ==> t[i] != '\n'
    ensures HasSuffix(Unset(t, key), t[p..])
  {
    CutKeepsUnterminatedTail(t, UnsetMatcher(t, key), p);
  }

  /** On a last line, the lazy tail runs to the final newline: no group can
      end earlier, as every match ends with a newline. */
  lemma {:induction false} LazyTailLastLine(t: string, r: nat)
    requires r < |t| && t[|t| - 1] == '\n'
    requires LineEnd(t, r) == |t| - 1
    ensures LazyTail(t, r) == Some(|t|)
    decreases |t| - r
  {
    match Group(t, r)
    case Some(g) =>
      LineEndNoNewline(t, r);
      assert t[g - 1] == '\n';
      assert g == |t|;
    case None =>
      if r < |t| - 1 {
        LazyTailLastLine(t, r + 1);
      }
  }

  /** The unset pattern matches the appended line whole. */
  lemma UnsetMatchesAppended(t: string, data: string, key: string, value: string)
    requires ValidKey(key)
    requires NoNewline(value)
    requires data == [] || data[|data| - 1] == '\n'
    requires Appended(t, data, key, value)
    ensures UnsetMatch(t, key, |data|) == Some(|t|)
  {
    var d := |data|;
    AppendedLineShape(t, data, key, value);
    LastLineHead(t, key, d);
    LazyTailLastLine(t, d + 8 + |key|);
  }

  /** `unset` of the text with the appended line gives the old text back. */
  lemma UnsetOfAppended(t: string, data: string, key: string, value: string)
    requires ValidKey(key)
    requires NoNewline(value)
    requires data == [] || data[|data| - 1] == '\n'
    requires !HasDefinition(data, key)
    requires Appended(t, data, key, value)
    ensures Unset(t, key) == data
  {
    var d := |data|;
    var m := UnsetMatcher(t, key);
    forall k: nat | k < d ensures m(k).None? {
      NoDefinitionBeforeAppendedAt(t, data, key, value, k);
    }
    CutSkipsNoMatch(t, m, 0, d);
    UnsetMatchesAppended(t, data, key, value);
    assert m(d) == Some(|t|);
    assert CutMatches(t, m, d) == CutMatches(t, m, |t|) == [];
    assert t[0..d] == data;
  }

  /** Round trip with `Set`: removing the key from a file that did not define
      it before `Set` appended `export KEY="VALUE"` restores the file. */
  lemma UnsetAfterAppend(data: string, key: string, value: string)
    requires ValidKey(key)
    requires NoNewline(value)
    requires data == [] || data[|data| - 1] == '\n'
    requires !HasDefinition(data, key)
    ensures Unset(data + AppendedLine(key, value), key) == data
  {
    AppendedLayout(data, key, value);
    UnsetOfAppended(data + AppendedLine(key, value), data, key, value);
  }

  /** Cutting a position where no match starts keeps its character. */
  lemma CutKeeps(t: string, m: nat -> Option<nat>, p: nat)
    requires p < |t| && ValidMatcher(t, m) && m(p).None?
    ensures CutMatches(t, m, p) == [t[p]] + CutMatches(t, m, p + 1)
  {
  }

  /** Cutting at a match skips to its end. */
  lemma CutSkips(t: string, m: nat -> Option<nat>, p: nat, e: nat)
    requires p < |t| && ValidMatcher(t, m) && m(p) == Some(e)
    ensures CutMatches(t, m, p) == CutMatches(t, m, e)
  {
  }

  /** The definition head of `export K=v;` followed by the line `x`. */
  lemma NextLineExampleHead(t: string)
    requires t == "export K=v;\nx\n"
    ensures DefinitionHead(t, "K", 0) == Some(9)
  {
    assert HasAt(t, 0, "export");
    assert SpaceRun(t, 7) == 0 && SpaceRun(t, 6) == 1;
    assert HasAt(t, 7, "K=");
  }

  /** After `K=`, the lazy tail stops at the group `;\nx` and its newline. */
  lemma NextLineExampleTail(t: string)
    requires t == "export K=v;\nx\n"
    ensures LazyTail(t, 9) == Some(14)
  {
    assert SpaceRun(t, 9) == 0 && Group(t, 9).None?;
    assert SpaceRun(t, 12) == 0 && SpaceRun(t, 11) == 1;
    assert SecondSpaces(t, 11, 1) == Some(14);
    assert SpaceRun(t, 10) == 0 && Group(t, 10) == Some(14);
  }

  /** A `;` ends the match only through the next line: `unset` of
      `export K=v;` followed by the line `x` removes both lines. */
  lemma UnsetTakesNextLine(t: string)
    requires t == "export K=v;\nx\n"
    ensures Unset(t, "K") == ""
  {
    var m := UnsetMatcher(t, "K");
    NextLineExampleHead(t);
    NextLineExampleTail(t);
    assert m(0) == Some(14);
    CutSkips(t, m, 0, 14);
  }

  /** After `v;` the group needs one character and a newline; the next line
      `xy` has two, so the match ends at the definition's own newline. */
  lemma LongNextLineExample(t: string)
    requires t == "export K=v;\nxy\n"
    ensures DefinitionHead(t, "K", 0) == Some(9)
    ensures LazyTail(t, 9) == Some(12)
  {
    assert HasAt(t, 0, "export");
    assert SpaceRun(t, 7) == 0 && SpaceRun(t, 6) == 1;
    assert HasAt(t, 7, "K=");
    assert SpaceRun(t, 9) == 0 && Group(t, 9).None?;
    assert SpaceRun(t, 12) == 0 && SpaceRun(t, 11) == 1;
    assert SecondSpaces(t, 11, 1).None?;
    assert Group(t, 11).None? && LazyTail(t, 11) == Some(12);
    assert Group(t, 10).None? && LazyTail(t, 10) == Some(12);
  }

  /** `unset` of `export K=v;` followed by the line `xy` keeps `xy`. */
  lemma UnsetKeepsLongNextLine(t: string)
    requires t == "export K=v;\nxy\n"
    ensures Unset(t, "K") == "xy\n"
  {
    LongNextLineExample(t);
    forall k: nat | 12 <= k < |t| ensures DefinitionHead(t, "K", k).None? {
      if k > 12 {
        assert t[k - 1] != '\n';
      }
    }
    UnsetOneMatch(t, "K", 0, 12);
    assert t[..0] + t[12..] == "xy\n";
  }

  /** In `export K=v` followed by the line `;x`, the group's first `\s*`
      takes the newline after `v`, then `;`, `x` and the last newline. */
  lemma SemicolonLineExample(t: string)
    requires t == "export K=v\n;x\n"
    ensures DefinitionHead(t, "K", 0) == Some(9)
    ensures LazyTail(t, 9) == Some(14)
  {
    assert HasAt(t, 0, "export");
    assert SpaceRun(t, 7) == 0 && SpaceRun(t, 6) == 1;
    assert HasAt(t, 7, "K=");
    assert SpaceRun(t, 9) == 0 && Group(t, 9).None?;
    assert SpaceRun(t, 12) == 0 && SpaceRun(t, 11) == 0 && SpaceRun(t, 10) == 1;
    assert SecondSpaces(t, 12, 0) == Some(14);
    assert Group(t, 10) == Some(14);
  }

  /** A line that starts with `;` is taken with the definition before it:
      `unset` of `export K=v` followed by the line `;x` removes both lines. */
  lemma UnsetTakesSemicolonLine(t: string)
    requires t == "export K=v\n;x\n"
    ensures Unset(t, "K") == ""
  {
    var m := UnsetMatcher(t, "K");
    SemicolonLineExample(t);
    assert m(0) == Some(14);
    CutSkips(t, m, 0, 14);
  }

  /** In `export K=v` followed by the line `;xy`, the group takes the newline
      and `;` but `xy` is two characters: the match ends after `v`'s newline. */
  lemma SemicolonLongLineExample(t: string)
    requires t == "export K=v\n;xy\n"
    ensures DefinitionHead(t, "K", 0) == Some(9)
    ensures LazyTail(t, 9) == Some(11)
  {
    assert HasAt(t, 0, "export");
    assert SpaceRun(t, 7) == 0 && SpaceRun(t, 6) == 1;
    assert HasAt(t, 7, "K=");
    assert SpaceRun(t, 9) == 0 && Group(t, 9).None?;
    assert SpaceRun(t, 12) == 0 && SpaceRun(t, 11) == 0 && SpaceRun(t, 10) == 1;
    assert SecondSpaces(t, 12, 0).None?;
    assert Group(t, 10).None?;
  }

  /** `unset` of `export K=v` followed by the line `;xy` keeps `;xy`. */
  lemma UnsetKeepsSemicolonLongLine(t: string)
    requires t == "export K=v\n;xy\n"
    ensures Unset(t, "K") == ";xy\n"
  {
    SemicolonLongLineExample(t);
    forall k: nat | 11 <= k < |t| ensures DefinitionHead(t, "K", k).None? {
      if k > 11 {
        assert t[k - 1] != '\n';
      }
    }
    UnsetOneMatch(t, "K", 0, 11);
    assert t[..0] + t[11..] == ";xy\n";
  }

  /** A text with one match, from `a` to `e`, loses exactly that part. */
  lemma CutOneMatch(t: string, m: nat -> Option<nat>, a: nat, e: nat)
    requires a < e <= |t| && ValidMatcher(t, m)
    requires forall k: nat :: k < a ==> m(k).None?
    requires m(a) == Some(e)
    requires forall k: nat :: e <= k < |t| ==> m(k).None?
    ensures CutMatches(t, m, 0) == t[..a] + t[e..]
  {
    CutSkipsNoMatch(t, m, 0, a);
    CutSkips(t, m, a, e);
    CutCopiesTail(t, m, e);
  }

  /** `unset` of a text that holds exactly one match cuts out that match. */
  lemma UnsetOneMatch(t: string, key: string, a: nat, e: nat)
    requires ValidKey(key) && a < e <= |t|
    requires forall k: nat :: k < a ==> UnsetMatch(t, key, k).None?
    requires UnsetMatch(t, key, a) == Some(e)
    requires forall k: nat :: e <= k < |t| ==> UnsetMatch(t, key, k).None?
    ensures Unset(t, key) == t[..a] + t[e..]
  {
    CutOneMatch(t, UnsetMatcher(t, key), a, e);
  }

  /** A value of one character that is neither white space nor `;`, ended
      by a newline that the end of the text or a character other than white
      space and `;` follows: the lazy tail takes the value and the newline. */
  lemma SingleCharTail(t: string, r: nat)
    requires r + 2 <= |t| && t[r + 1] == '\n'
    requires !IsRegexpSpace(t[r]) && t[r] != ';'
    requires r + 2 == |t| || (!IsRegexpSpace(t[r + 2]) && t[r + 2] != ';')
    ensures LazyTail(t, r) == Some(r + 2)
  {
    assert SpaceRun(t, r) == 0 && Group(t, r).None?;
    assert SpaceRun(t, r + 2) == 0 && SpaceRun(t, r + 1) == 1 && Group(t, r + 1).None?;
  }

  /** In `export`, newline, `export K=v`, newline, `K=w`, newline: no match
      starts before the second line, as `\s+` after the first `export` runs
      into `export`, not into `K=`. */
  lemma SpliceExampleStart(t: string)
    requires t == "export\nexport K=v\nK=w\n"
    ensures forall k: nat :: k < 7 ==> UnsetMatch(t, "K", k).None?
  {
    assert SpaceRun(t, 7) == 0 && SpaceRun(t, 6) == 1;
    assert !HasAt(t, 7, "K=") by { assert t[7] != 'K'; }
    forall k: nat | k < 7 ensures DefinitionHead(t, "K", k).None? {
      if k > 0 {
        assert t[k - 1] != '\n';
      }
    }
  }

  /** The second line starts a definition of `K`. */
  lemma SpliceExampleHead(t: string)
    requires t == "export\nexport K=v\nK=w\n"
    ensures DefinitionHead(t, "K", 7) == Some(16)
  {
    assert HasAt(t, 7, "export") by { assert t[7..13] == "export"; }
    assert HasAt(t, 14, "K=") by { assert t[14..16] == "K="; }
    SimpleDefinitionMatches(t, "K", 7);
  }

  /** The second line is matched from its start through its newline. */
  lemma SpliceExampleMatch(t: string)
    requires t == "export\nexport K=v\nK=w\n"
    ensures UnsetMatch(t, "K", 7) == Some(18)
  {
    SpliceExampleHead(t);
    assert t[16] == 'v' && t[17] == '\n' && t[18] == 'K';
    SingleCharTail(t, 16);
  }

  /** The last line `K=w` defines nothing. */
  lemma SpliceExampleEnd(t: string)
    requires t == "export\nexport K=v\nK=w\n"
    ensures forall k: nat :: 18 <= k < |t| ==> UnsetMatch(t, "K", k).None?
  {
    forall k: nat | 18 <= k < |t| ensures DefinitionHead(t, "K", k).None? {
      if k > 18 {
        assert t[k - 1] != '\n';
      }
    }
  }

  /** Removing the second line joins `export` and `K=w` into a new definition. */
  lemma SpliceExampleFirstUnset(t: string)
    requires t == "export\nexport K=v\nK=w\n"
    ensures Unset(t, "K") == "export\nK=w\n"
  {
    SpliceExampleStart(t);
    SpliceExampleMatch(t);
    SpliceExampleEnd(t);
    UnsetOneMatch(t, "K", 7, 18);
    assert t[..7] == "export\n" by {
      assert t[..7][6] == '\n';
    }
    assert t[18..] == "K=w\n" by {
      assert |t| == 22 && t[18..][0] == 'K' && t[18..][3] == '\n';
    }
  }

  /** The definition that the first `unset` created. */
  lemma JoinedExampleHead()
    ensures DefinitionHead("export\nK=w\n", "K", 0) == Some(9)
  {
    var t := "export\nK=w\n";
    assert HasAt(t, 0, "export");
    assert HasAt(t, 7, "K=") by { assert t[7..9] == "K="; }
    SimpleDefinitionMatches(t, "K", 0);
  }

  /** The joined definition is removed by a second `unset`. */
  lemma SpliceExampleSecondUnset()
    ensures Unset("export\nK=w\n", "K") == ""
  {
    var t := "export\nK=w\n";
    var m := UnsetMatcher(t, "K");
    JoinedExampleHead();
    SingleCharTail(t, 9);
    assert m(0) == Some(11);
    CutSkips(t, m, 0, 11);
  }

  /** `query` reads `w` from the joined definition. */
  lemma JoinedExampleQuery()
    ensures QueryValue("export\nK=w\n", "K") == Ok("w")
  {
    var t := "export\nK=w\n";
    JoinedExampleHead();
    assert LineEnd(t, 9) == 10;
    assert DefinitionHead(t, "K", 10).None?;
    assert Captures(t, "K", 10) == Captures(t, "K", 11) == [];
    assert t[9..10] == "w";
    assert Captures(t, "K", 0) == ["w"];
    ReplaceFirstAbsent("w", SelfReference("K"), "");
    assert NormalizeEach(["w"], "K") == ["w"];
  }

  /** `unset` is not idempotent, and `query` still finds the key after it:
      because `\s+` spans newlines, removing a definition can create one. */
  lemma UnsetIsNotIdempotent()
    ensures var once := Unset("export\nexport K=v\nK=w\n", "K");
      && Unset(once, "K") != once
      && QueryValue(once, "K") == Ok("w")
  {
    SpliceExampleFirstUnset("export\nexport K=v\nK=w\n");
    SpliceExampleSecondUnset();
    JoinedExampleQuery();
  }

  // ---------------------------------------------------------------------
  // Targets: `EnvInFile.pathResolve`, and `Get`, `Set` and `Unset` as glue
  // over a file system given as a map from paths to contents.

  /** `pathResolve`: a target longer than one character that starts with `~`
      has that first `~` replaced by the home directory (`None` when looking
      it up fails); the empty target resolves to the empty path, and every
      other target, a lone `~` included, is used as it is. */
  function PathResolve(target: string, home: Option<string>): (r: Result<string>)
    ensures target == "" ==> r == Ok("")
    ensures |target| > 1 && target[0] == '~' && home.None? ==> r == Err(HomeDirUnavailable)
    ensures |target| > 1 && target[0] == '~' && home.Some? ==> r == Ok(home.value + target[1..])
    ensures (|target| == 1 || (|target| > 1 && target[0] != '~')) ==> r == Ok(target)
  {
    if |target| == 0 then Ok("")
    else if |target| > 1 && target[0] == '~' then
      match home
      case None => Err(HomeDirUnavailable)
      case Some(h) =>
        assert FirstAt(target, "~", 0) by { assert target[0..1] == "~"; }
        ReplaceFirstAt(target, "~", h, 0);
        assert target[..0] + h + target[1..] == h + target[1..];
        Ok(ReplaceFirst(target, "~", h))
    else Ok(target)
  }

  /** `os.ReadFile` over the given file system. */
  function ReadFile(files: map<string, string>, path: string): Result<string> {
    if path != "" && path in files then Ok(files[path]) else Err(ReadFailed(path))
  }

  /** `EnvInFile.Get`: resolve the target, read it, query the key. */
  function Get(files: map<string, string>, home: Option<string>, target: string, key: string): (r: Result<string>)
    requires ValidKey(key)
    ensures |target| == 0 ==> r == Err(ReadFailed(""))
    ensures |target| > 1 && target[0] == '~' && home.None? ==> r == Err(HomeDirUnavailable)
    ensures r.Ok? ==> NoNewline(r.value)
  {
    match PathResolve(target, home)
    case Err(e) => Err(e)
    case Ok(path) =>
      match ReadFile(files, path)
      case Err(e) => Err(e)
      case Ok(data) => QueryValue(data, key)
  }

  /** `EnvInFile.Unset`: resolve the target, read it, cut the key's
      definitions and write the result back to the same path. */
  function UnsetFile(files: map<string, string>, home: Option<string>, target: string, key: string): (r: Result<map<string, string>>)
    requires ValidKey(key)
    ensures |target| == 0 ==> r == Err(ReadFailed(""))
    ensures r.Ok? ==> r.value.Keys == files.Keys
    ensures r.Ok? ==> PathResolve(target, home).Ok?
    ensures r.Ok? ==> forall f | f in files && f != PathResolve(target, home).value :: r.value[f] == files[f]
  {
    match PathResolve(target, home)
    case Err(e) => Err(e)
    case Ok(path) =>
      match ReadFile(files, path)
      case Err(e) => Err(e)
      case Ok(data) => Ok(files[path := Unset(data, key)])
  }

  /** The file named in `Set`'s shell command: `~/.bashrc` for the empty target. */
  function SetTarget(target: string): (f: string)
    ensures |f| > 0
    ensures |target| > 0 ==> f == target
  {
    if |target| == 0 then "~/.bashrc" else target
  }

  /** Where the pieces of `w + d + k + f + s + f` lie. */
  lemma CommandLayout(w: string, d: string, k: string, f: string, s: string)
    ensures HasAt(w + d + k + f + s + f, 0, w)
    ensures HasAt(w + d + k + f + s + f, |w|, d)
    ensures HasAt(w + d + k + f + s + f, |w| + |d|, k + f + s)
    ensures HasSuffix(w + d + k + f + s + f, s + f)
  {
    var c := w + d + k + f + s + f;
    assert c[0..|w|] == w;
    assert c[|w|..|w| + |d|] == d;
    assert c[|w| + |d|..|w| + |d| + |k + f + s|] == k + f + s;
    assert c[|c| - |s + f|..] == s + f;
  }

  /** The shell command `Set` runs: append the definition with `echo`, then
      `source` the file. */
  function SetCommand(target: string, key: string, value: string): (c: string)
    ensures HasAt(c, 0, "echo '")
    ensures HasAt(c, 6, Definition(key, value))
    ensures HasAt(c, 6 + |Definition(key, value)|, "' >> " + SetTarget(target) + " && source ")
    ensures HasSuffix(c, " && source " + SetTarget(target))
  {
    var d := Definition(key, value);
    var f := SetTarget(target);
    CommandLayout("echo '", d, "' >> ", f, " && source ");
    "echo '" + d + "' >> " + f + " && source " + f
  }

  /** The file contents before an append; `>>` creates a missing file. */
  function Contents(files: map<string, string>, path: string): string {
    if path in files then files[path] else ""
  }

  /** The effect of the `echo ... >> path` in `Set`'s command on the file
      at `path`: the definition and a newline are added at its end, and no
      other file changes. */
  function AppendDefinition(files: map<string, string>, path: string, key: string, value: string): (r: map<string, string>)
    ensures r.Keys == files.Keys + {path}
    ensures |r[path]| == |Contents(files, path)| + |AppendedLine(key, value)|
    ensures HasSuffix(r[path], AppendedLine(key, value))
    ensures r[path][..|Contents(files, path)|] == Contents(files, path)
    ensures forall p :: p in files && p != path ==> r[p] == files[p]
  {
    var n := Contents(files, path) + AppendedLine(key, value);
    assert n[|n| - |AppendedLine(key, value)|..] == AppendedLine(key, value);
    files[path := n]
  }

  /** After `Set` appended a definition to the file that `Get` reads, `Get`
      returns the value, provided the file held no definition of the key
      and ended with a newline. */
  lemma GetAfterSet(files: map<string, string>, home: Option<string>, target: string, path: string, key: string, value: string)
    requires ValidKey(key)
    requires NoNewline(value) && !Occurs(value, SelfReference(key))
    requires PathResolve(target, home) == Ok(path) && path != ""
    requires Contents(files, path) == [] || Contents(files, path)[|Contents(files, path)| - 1] == '\n'
    requires !HasDefinition(Contents(files, path), key)
    ensures Get(AppendDefinition(files, path, key, value), home, target, key) == Ok(value)
  {
    var data := Contents(files, path);
    assert ReadFile(AppendDefinition(files, path, key, value), path) == Ok(data + AppendedLine(key, value));
    QueryAfterAppend(data, key, value);
  }

  /** `Unset` of a target that resolves to an existing file replaces that
      file's contents by their `unset` and leaves every other file alone. */
  lemma UnsetFileAt(files: map<string, string>, home: Option<string>, target: string, path: string, key: string)
    requires ValidKey(key)
    requires PathResolve(target, home) == Ok(path) && path != "" && path in files
    ensures UnsetFile(files, home, target, key) == Ok(files[path := Unset(files[path], key)])
  {
  }

  /** Writing a file twice leaves only the second write. */
  lemma OverwriteTwice(files: map<string, string>, path: string, first: string, second: string)
    ensures files[path := first][path := second] == files[path := second]
  {
    var a := files[path := first][path := second];
    var b := files[path := second];
    assert a.Keys == b.Keys;
    assert forall p :: p in a ==> a[p] == b[p];
  }

  /** Under the same conditions, `Unset` after `Set` restores the file. */
  lemma UnsetAfterSet(files: map<string, string>, home: Option<string>, target: string, path: string, key: string, value: string)
    requires ValidKey(key)
    requires NoNewline(value)
    requires PathResolve(target, home) == Ok(path) && path != ""
    requires Contents(files, path) == [] || Contents(files, path)[|Contents(files, path)| - 1] == '\n'
    requires !HasDefinition(Contents(files, path), key)
    ensures UnsetFile(AppendDefinition(files, path, key, value), home, target, key)
      == Ok(files[path := Contents(files, path)])
  {
    var data := Contents(files, path);
    var after := AppendDefinition(files, path, key, value);
    UnsetFileAt(after, home, target, path, key);
    UnsetAfterAppend(data, key, value);
    OverwriteTwice(files, path, after[path], data);
  }

  /** The empty target: `Set` writes `~/.bashrc`, but `Get` resolves it to
      the empty path, so the read fails whatever `Set` wrote. */
  lemma EmptyTargetMissesSetFile(files: map<string, string>, h: string, key: string, value: string)
    requires ValidKey(key)
    ensures SetTarget("") == "~/.bashrc"
    ensures PathResolve(SetTarget(""), Some(h)) == Ok(h + "/.bashrc")
    ensures Get(AppendDefinition(files, h + "/.bashrc", key, value), Some(h), "", key) == Err(ReadFailed(""))
  {
    assert "~/.bashrc"[1..] == "/.bashrc";
    assert h + "/.bashrc" != "";
  }

  /** Target resolution that gives the empty target the default `Set` uses. */
  function ResolveTarget(target: string, home: Option<string>): (r: Result<string>)
    ensures home.Some? ==> r.Ok? && r.value != ""
    ensures target == "" && home.Some? ==> r == Ok(home.value + "/.bashrc")
  {
    assert "~/.bashrc"[1..] == "/.bashrc";
    PathResolve(SetTarget(target), home)
  }

  /** With that resolution every target, the empty one included, reads the
      file that `Set` appended to. */
  lemma ResolvedGetAfterSet(files: map<string, string>, h: string, target: string, key: string, value: string)
    requires ValidKey(key)
    requires NoNewline(value) && !Occurs(value, SelfReference(key))
    requires var path := ResolveTarget(target, Some(h)).value;
      && (Contents(files, path) == [] || Contents(files, path)[|Contents(files, path)| - 1] == '\n')
      && !HasDefinition(Contents(files, path), key)
    ensures var path := ResolveTarget(target, Some(h)).value;
      Get(AppendDefinition(files, path, key, value), Some(h), SetTarget(target), key) == Ok(value)
  {
    var path := ResolveTarget(target, Some(h)).value;
    GetAfterSet(files, Some(h), SetTarget(target), path, key, value);
  }
}
