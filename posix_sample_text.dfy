/** `query` and `unset` on lines 23, 24, 63, 96, 113 and 114 of the sample
    start-up file that the library's test reads (env_posix_test.go). */
module PosixSampleText {
  import opened GoStrings
  import opened EnvPosix
  import opened PosixSample

  const Path23 := "$PATH:" + "$HOME/bin"
  const Indented63 := "  export WORKON_HOME=$HOME/.virtualenvs"
  const Path96 := "\"" + "$PATH:" + "$HOME/scripts" + "\""
  const Head113 := "\"" + "$PATH:" + "$HOME/bin"
  const Tail113 := "$HOME/scripts:$HOME/tools" + "\""
  const Path113 := Head113 + ";" + Tail113
  const Head114 := "\"" + "$PATH:" + "$HOME/scripts\""
  const Editor := " export EDITOR=nano"
  const Path114 := Head114 + ";" + Editor + ";" + Editor

  const Line23 := ExportLine("PATH", Path23)
  const Line24 := ExportLine("EDITOR", "nano")
  const Line63 := Indented63 + "\n"
  const Line96 := ExportLine("PATH", Path96)
  const Line113 := ExportLine("PATH", Path113)
  const Line114 := ExportLine("PATH", Path114)

  /** Where each line starts. */
  const At24: nat := |Line23|
  const At63: nat := At24 + |Line24|
  const At96: nat := At63 + |Line63|
  const At113: nat := At96 + |Line96|
  const At114: nat := At113 + |Line113|

  /** The sample text, line after line. */
  function Sample(): string {
    Line23 + Line24 + Line63 + Line96 + Line113 + Line114
  }

  lemma ExportLineEnds(key: string, v: string)
    ensures |ExportLine(key, v)| == 9 + |key| + |v|
    ensures ExportLine(key, v)[|ExportLine(key, v)| - 1] == '\n'
  {
  }

  lemma PathIsValid()
    ensures ValidKey("PATH")
  {
  }
  lemma EditorIsValid()
    ensures ValidKey("EDITOR")
  {
  }

  lemma ValuesOnOneLine()
    ensures '\n' !in Path23 && '\n' !in Path96
    ensures '\n' !in Head113 && '\n' !in Tail113 && '\n' !in Path113
    ensures '\n' !in Head114 && '\n' !in Editor && '\n' !in Path114
  {
  }

  /** Each line of the sample where it starts, found in ever longer prefixes. */
  lemma SampleLine23(t: string)
    requires t == Sample()
    ensures HasAt(t, 0, Line23)
  {
    assert Line23[0..|Line23|] == Line23;
    HasAtExtend(Line23, Line24, 0, Line23);
    HasAtExtend(Line23 + Line24, Line63, 0, Line23);
    HasAtExtend(Line23 + Line24 + Line63, Line96, 0, Line23);
    HasAtExtend(Line23 + Line24 + Line63 + Line96, Line113, 0, Line23);
    HasAtExtend(Line23 + Line24 + Line63 + Line96 + Line113, Line114, 0, Line23);
  }

  lemma SampleLine24(t: string)
    requires t == Sample()
    ensures HasAt(t, At24, Line24)
  {
    HasAtEnd(Line23, Line24);
    HasAtExtend(Line23 + Line24, Line63, At24, Line24);
    HasAtExtend(Line23 + Line24 + Line63, Line96, At24, Line24);
    HasAtExtend(Line23 + Line24 + Line63 + Line96, Line113, At24, Line24);
    HasAtExtend(Line23 + Line24 + Line63 + Line96 + Line113, Line114, At24, Line24);
  }

  lemma SampleLine63(t: string)
    requires t == Sample()
    ensures HasAt(t, At63, Line63)
  {
    HasAtEnd(Line23 + Line24, Line63);
    HasAtExtend(Line23 + Line24 + Line63, Line96, At63, Line63);
    HasAtExtend(Line23 + Line24 + Line63 + Line96, Line113, At63, Line63);
    HasAtExtend(Line23 + Line24 + Line63 + Line96 + Line113, Line114, At63, Line63);
  }

  lemma SampleLine96(t: string)
    requires t == Sample()
    ensures HasAt(t, At96, Line96)
  {
    HasAtEnd(Line23 + Line24 + Line63, Line96);
    HasAtExtend(Line23 + Line24 + Line63 + Line96, Line113, At96, Line96);
    HasAtExtend(Line23 + Line24 + Line63 + Line96 + Line113, Line114, At96, Line96);
  }

  lemma SampleLine113(t: string)
    requires t == Sample()
    ensures HasAt(t, At113, Line113)
  {
    HasAtEnd(Line23 + Line24 + Line63 + Line96, Line113);
    HasAtExtend(Line23 + Line24 + Line63 + Line96 + Line113, Line114, At113, Line113);
  }

  lemma SampleLine114(t: string)
    requires t == Sample()
    ensures HasAt(t, At114, Line114)
    ensures |t| == At114 + |Line114|
  {
    HasAtEnd(Line23 + Line24 + Line63 + Line96 + Line113, Line114);
  }

  /** Each `export` line read word by word, at the start of a line because
      the line before it ends with a newline. */
  lemma Words23(t: string)
    requires HasAt(t, 0, Line23)
    ensures ExportLineAt(t, 0, "PATH", Path23)
  {
    ValuesOnOneLine();
    ExportLineAtFrom(t, 0, "PATH", Path23);
  }

  lemma Words24(t: string)
    requires HasAt(t, 0, Line23) && HasAt(t, At24, Line24)
    ensures ExportLineAt(t, At24, "EDITOR", "nano")
  {
    ExportLineEnds("PATH", Path23);
    LineStartAfter(t, 0, Line23);
    ExportLineAtFrom(t, At24, "EDITOR", "nano");
  }

  lemma Words96(t: string)
    requires HasAt(t, At63, Line63) && HasAt(t, At96, Line96)
    ensures ExportLineAt(t, At96, "PATH", Path96)
  {
    ValuesOnOneLine();
    assert Line63[|Line63| - 1] == '\n';
    LineStartAfter(t, At63, Line63);
    ExportLineAtFrom(t, At96, "PATH", Path96);
  }

  lemma Words113(t: string)
    requires HasAt(t, At96, Line96) && HasAt(t, At113, Line113)
    ensures ExportLineAt(t, At113, "PATH", Path113)
  {
    ValuesOnOneLine();
    ExportLineEnds("PATH", Path96);
    LineStartAfter(t, At96, Line96);
    ExportLineAtFrom(t, At113, "PATH", Path113);
  }

  lemma Words114(t: string)
    requires HasAt(t, At113, Line113) && HasAt(t, At114, Line114)
    ensures ExportLineAt(t, At114, "PATH", Path114)
  {
    ValuesOnOneLine();
    ExportLineEnds("PATH", Path113);
    LineStartAfter(t, At113, Line113);
    ExportLineAtFrom(t, At114, "PATH", Path114);
  }

  // ---------------------------------------------------------------------------
  // query

  lemma CapturesFrom114(t: string, p: nat)
    requires ExportLineAt(t, p, "PATH", Path114) && |t| == p + |Line114|
    ensures Captures(t, "PATH", p) == [Path114]
  {
    PathIsValid();
    ExportLineEnds("PATH", Path114);
    QueryLastLine(t, p, "PATH", Path114);
  }

  lemma CapturesFrom113(t: string, p: nat, n: nat)
    requires ExportLineAt(t, p, "PATH", Path113) && n == p + |Line113|
    ensures Captures(t, "PATH", p) == [Path113] + Captures(t, "PATH", n)
  {
    PathIsValid();
    ExportLineEnds("PATH", Path113);
    QueryExportLine(t, p, "PATH", Path113, n);
  }

  lemma CapturesFrom96(t: string, p: nat, n: nat)
    requires ExportLineAt(t, p, "PATH", Path96) && n == p + |Line96|
    ensures Captures(t, "PATH", p) == [Path96] + Captures(t, "PATH", n)
  {
    PathIsValid();
    ExportLineEnds("PATH", Path96);
    QueryExportLine(t, p, "PATH", Path96, n);
  }

  /** Line 63 is indented, so it defines nothing. */
  lemma CapturesFrom63(t: string, p: nat, n: nat)
    requires HasAt(t, p, Line63) && n == p + |Line63|
    ensures Captures(t, "PATH", p) == Captures(t, "PATH", n)
  {
    PathIsValid();
    NoExportLine(t, p, "PATH", Line63);
    QueryOtherLine(t, p, "PATH", Indented63, n);
  }

  /** Line 24 defines another key. */
  lemma CapturesFrom24(t: string, p: nat, n: nat)
    requires ExportLineAt(t, p, "EDITOR", "nano") && HasAt(t, p, Line24) && n == p + |Line24|
    ensures Captures(t, "PATH", p) == Captures(t, "PATH", n)
  {
    PathIsValid();
    EditorIsValid();
    ExportLineEnds("EDITOR", "nano");
    OtherKeyLine(t, p, "PATH", "EDITOR", "nano");
    assert Line24 == "export EDITOR=nano" + "\n";
    QueryOtherLine(t, p, "PATH", "export EDITOR=nano", n);
  }

  lemma CapturesFrom23(t: string, n: nat)
    requires ExportLineAt(t, 0, "PATH", Path23) && n == |Line23|
    ensures Captures(t, "PATH", 0) == [Path23] + Captures(t, "PATH", n)
  {
    PathIsValid();
    ExportLineEnds("PATH", Path23);
    QueryExportLine(t, 0, "PATH", Path23, n);
  }

  /** Four values found one after the other. */
  lemma FourInOrder(c0: seq<string>, c1: seq<string>, c2: seq<string>, c3: seq<string>, c4: seq<string>,
                    a: string, b: string, c: string, d: string)
    requires c0 == [a] + c1 && c1 == c2 && c2 == [b] + c3 && c3 == [c] + c4 && c4 == [d]
    ensures c0 == [a, b, c, d]
  {
  }

  /** The text holds the six lines where the sample has them. */
  predicate SampleLines(t: string) {
    && ExportLineAt(t, 0, "PATH", Path23)
    && ExportLineAt(t, At24, "EDITOR", "nano") && HasAt(t, At24, Line24)
    && HasAt(t, At63, Line63)
    && ExportLineAt(t, At96, "PATH", Path96)
    && ExportLineAt(t, At113, "PATH", Path113)
    && ExportLineAt(t, At114, "PATH", Path114)
    && |t| == At114 + |Line114|
  }

  lemma SampleHasLines(t: string)
    requires t == Sample()
    ensures SampleLines(t)
  {
    SampleLine23(t);
    SampleLine24(t);
    SampleLine63(t);
    SampleLine96(t);
    SampleLine113(t);
    SampleLine114(t);
    Words23(t);
    Words24(t);
    Words96(t);
    Words113(t);
    Words114(t);
  }

  /** The values the pattern captures for `PATH`: one per `export PATH=` line,
      the rest of line 114 included. */
  lemma LinesCaptures(t: string)
    requires SampleLines(t)
    ensures Captures(t, "PATH", 0) == SampleValues
  {
    CapturesFrom23(t, At24);
    CapturesFrom24(t, At24, At63);
    CapturesFrom63(t, At63, At96);
    CapturesFrom96(t, At96, At113);
    CapturesFrom113(t, At113, At114);
    CapturesFrom114(t, At114);
    FourInOrder(Captures(t, "PATH", 0), Captures(t, "PATH", At24), Captures(t, "PATH", At96),
      Captures(t, "PATH", At113), Captures(t, "PATH", At114), Path23, Path96, Path113, Path114);
  }

  const Rest113 := "$HOME/bin" + ";" + "$HOME/scripts:$HOME/tools"
  const Rest114 := "$HOME/scripts\"" + ";" + Editor + ";" + Editor
  const Quoted114 := "\"" + Rest114

  lemma Normalize23(key: string)
    requires key == "PATH"
    ensures Normalize(Path23, key) == "$HOME/bin"
  {
    assert Path23 == SelfReference(key) + "$HOME/bin";
    NormalizeAppend(key, "$HOME/bin");
  }

  lemma Normalize96(key: string)
    requires key == "PATH"
    ensures Normalize(Path96, key) == "$HOME/scripts"
  {
    assert Path96 == "\"" + SelfReference(key) + "$HOME/scripts" + "\"";
    NormalizeQuotedAppend(key, "$HOME/scripts");
  }

  lemma Regroup113(q: string, s: string, a: string, c: string)
    ensures q + s + a + ";" + (c + q) == q + s + (a + ";" + c) + q
  {
  }

  lemma Rest113Pieces()
    ensures 'P' !in Rest113
  {
    assert 'P' !in "$HOME/bin" && 'P' !in "$HOME/scripts:$HOME/tools";
  }

  lemma Normalize113(key: string)
    requires key == "PATH"
    ensures Normalize(Path113, key) == Rest113
  {
    PathIsValid();
    assert SelfReference(key) == "$PATH:";
    Regroup113("\"", "$PATH:", "$HOME/bin", "$HOME/scripts:$HOME/tools");
    Rest113Pieces();
    NormalizeQuotedAppend(key, Rest113);
  }

  lemma Regroup114(q: string, s: string, h: string, e: string)
    ensures q + s + h + ";" + e + ";" + e == q + s + (h + ";" + e + ";" + e)
  {
  }

  /** `Rest114` holds no `P` and ends in `o`. */
  lemma Rest114Pieces()
    ensures 'P' !in Rest114 && |Rest114| > 0 && Rest114[|Rest114| - 1] != '"'
  {
    assert 'P' !in "$HOME/scripts\"" && 'P' !in Editor;
    assert Rest114[|Rest114| - 1] == Editor[|Editor| - 1];
  }

  /** Line 114 ends in `nano`, not in a quote, so its opening quote stays. */
  lemma Normalize114(key: string)
    requires key == "PATH"
    ensures Normalize(Path114, key) == Quoted114
  {
    PathIsValid();
    assert SelfReference(key) == "$PATH:";
    Regroup114("\"", "$PATH:", "$HOME/scripts\"", Editor);
    Rest114Pieces();
    NormalizeOpenQuote(key, Rest114);
  }

  lemma JoinFour(r: seq<string>, sep: string)
    requires |r| == 4
    ensures Join(r, sep) == r[0] + sep + r[1] + sep + r[2] + sep + r[3]
  {
    assert r[1..][1..] == r[2..];
    assert r[2..][1..] == [r[3]];
    assert Join(r[2..], sep) == r[2] + sep + r[3];
    assert Join(r[1..], sep) == r[1] + sep + (r[2] + sep + r[3]);
  }

  /** `query` when the pattern captures four values, none of which panics. */
  lemma QueryOfFour(t: string, key: string, a: string, b: string, c: string, d: string)
    requires ValidKey(key) && Captures(t, key, 0) == [a, b, c, d]
    requires !Panics(a) && !Panics(b) && !Panics(c) && !Panics(d)
    ensures QueryValue(t, key) ==
      Ok(Normalize(a, key) + ";" + Normalize(b, key) + ";" + Normalize(c, key) + ";" + Normalize(d, key))
  {
    var caps := [a, b, c, d];
    assert !AnyPanics(caps) by {
      forall i | 0 <= i < |caps| ensures !Panics(caps[i]) {
      }
    }
    var r := NormalizeEach(caps, key);
    assert caps[0] == a && caps[1] == b && caps[2] == c && caps[3] == d;
    assert r[0] == Normalize(a, key);
    assert r[1] == Normalize(b, key);
    assert r[2] == Normalize(c, key);
    assert r[3] == Normalize(d, key);
    JoinFour(r, ";");
  }

  /** The same, with the normalized values named. */
  lemma QueryOfFourNormalized(t: string, key: string, a: string, b: string, c: string, d: string,
                              na: string, nb: string, nc: string, nd: string)
    requires ValidKey(key) && Captures(t, key, 0) == [a, b, c, d]
    requires !Panics(a) && !Panics(b) && !Panics(c) && !Panics(d)
    requires Normalize(a, key) == na && Normalize(b, key) == nb
    requires Normalize(c, key) == nc && Normalize(d, key) == nd
    ensures QueryValue(t, key) == Ok(na + ";" + nb + ";" + nc + ";" + nd)
  {
    QueryOfFour(t, key, a, b, c, d);
  }

  /** The values the pattern captures for `PATH` in the sample. */
  const SampleValues := [Path23, Path96, Path113, Path114]

  lemma LongDoesNotPanic(s: string)
    requires |s| > 1
    ensures !Panics(s)
  {
  }

  lemma SampleValuesDoNotPanic()
    ensures !Panics(Path23) && !Panics(Path96) && !Panics(Path113) && !Panics(Path114)
  {
    LongDoesNotPanic(Path23);
    LongDoesNotPanic(Path96);
    LongDoesNotPanic(Path113);
    LongDoesNotPanic(Path114);
  }

  /** `query` on text whose `PATH` lines are those of the sample. */
  lemma QueryOfSampleCaptures(t: string, key: string)
    requires key == "PATH" && Captures(t, key, 0) == SampleValues
    ensures ValidKey(key)
    ensures QueryValue(t, key) == Ok("$HOME/bin" + ";" + "$HOME/scripts" + ";" + Rest113 + ";" + Quoted114)
  {
    PathIsValid();
    SampleValuesDoNotPanic();
    Normalize23(key);
    Normalize96(key);
    Normalize113(key);
    Normalize114(key);
    QueryOfFourNormalized(t, key, Path23, Path96, Path113, Path114,
      "$HOME/bin", "$HOME/scripts", Rest113, Quoted114);
  }

  /** Five pieces joined by `;`, regrouped. */
  lemma JoinedPieces(a: string, b: string, c: string, d: string, e: string)
    ensures a + ";" + b + ";" + (a + ";" + c) + ";" + ("\"" + (d + ";" + e + ";" + e)) ==
      (a + ";" + b + ";") + (a + ";") + (c + ";") + ("\"" + d + ";") + (e + ";") + e
  {
  }

  /** The four normalized values joined, written out. */
  lemma SampleQueryText()
    ensures "$HOME/bin" + ";" + "$HOME/scripts" + ";" + Rest113 + ";" + Quoted114 ==
      "$HOME/bin;$HOME/scripts;" + "$HOME/bin;" + "$HOME/scripts:$HOME/tools;" +
      "\"$HOME/scripts\";" + " export EDITOR=nano;" + " export EDITOR=nano"
  {
    JoinedPieces("$HOME/bin", "$HOME/scripts", "$HOME/scripts:$HOME/tools", "$HOME/scripts\"", Editor);
    assert "$HOME/bin" + ";" + "$HOME/scripts" + ";" == "$HOME/bin;$HOME/scripts;";
    assert "$HOME/bin" + ";" == "$HOME/bin;";
    assert "$HOME/scripts:$HOME/tools" + ";" == "$HOME/scripts:$HOME/tools;";
    assert "\"" + "$HOME/scripts\"" + ";" == "\"$HOME/scripts\";";
    assert Editor + ";" == " export EDITOR=nano;";
  }

  /** `query(sample, "PATH")`: the value of each `export PATH=` line, unquoted
      and without its `$PATH:`, joined by `;`. The value of line 114 keeps its
      opening quote, because the line does not end in one, and everything
      after it on the line. */
  lemma SampleQuery(t: string)
    requires t == Sample()
    ensures ValidKey("PATH")
    ensures QueryValue(t, "PATH") == Ok(
      "$HOME/bin;$HOME/scripts;" + "$HOME/bin;" + "$HOME/scripts:$HOME/tools;" +
      "\"$HOME/scripts\";" + " export EDITOR=nano;" + " export EDITOR=nano")
  {
    SampleHasLines(t);
    LinesCaptures(t);
    QueryOfSampleCaptures(t, "PATH");
    SampleQueryText();
  }

  // ---------------------------------------------------------------------------
  // unset

  lemma LazyPath23()
    ensures LazyValue(Path23)
  {
    LazyValueWithoutSemicolon(Path23);
  }

  lemma LazyPath96()
    ensures LazyValue(Path96)
  {
    LazyValueWithoutSemicolon(Path96);
  }

  /** The `;` of line 113 is followed by `$`. */
  lemma LazyPath113()
    ensures LazyValue(Path113)
  {
    LazyValueWithoutSemicolon(Tail113);
    LazyValueJoin(Head113, Tail113);
  }

  lemma Regroup(a: string, b: string, c: string)
    ensures a + ";" + b + ";" + c == a + ";" + (b + ";" + c)
  {
  }

  lemma EditorPieces()
    ensures |Editor| >= 3 && Editor[0] == ' ' && Editor[1] == 'e'
    ensures ';' !in Editor && '\n' !in Editor && !IsRegexpSpace(Editor[|Editor| - 1])
  {
  }

  /** Each `;` of `EDITOR=nano; export EDITOR=nano` is followed by one space
      and the word `export`. */
  lemma LazyEditors()
    ensures LazyValue(Editor + ";" + Editor)
  {
    EditorPieces();
    LazyValueWithoutSemicolon(Editor);
    LazyValueJoin(Editor, Editor);
  }

  lemma Head114Pieces()
    ensures ';' !in Head114 && '\n' !in Head114
  {
  }

  lemma LazyPath114()
    ensures LazyValue(Path114)
  {
    EditorPieces();
    Head114Pieces();
    LazyEditors();
    LazyValueJoin(Head114, Editor + ";" + Editor);
    Regroup(Head114, Editor, Editor);
  }

  /** The next line starts with `e`. */
  lemma NextLineStartsWithE(t: string, p: nat, key: string, v: string)
    requires ExportLineAt(t, p, key, v)
    ensures t[p] == 'e'
  {
    CharOfOccurrence(t, p, "export", 0);
  }

  /** Line 23 goes, up to and with its newline. */
  lemma CutFrom23(t: string, n: nat)
    requires ExportLineAt(t, 0, "PATH", Path23) && n == |Line23| && n < |t| && t[n] == 'e'
    ensures ValidKey("PATH")
    ensures CutMatches(t, UnsetMatcher(t, "PATH"), 0) == CutMatches(t, UnsetMatcher(t, "PATH"), n)
  {
    PathIsValid();
    LazyPath23();
    ExportLineEnds("PATH", Path23);
    UnsetExportLineTo(t, 0, "PATH", Path23, n);
  }

  /** Line 24 defines another key and stays. */
  lemma CutFrom24(t: string, p: nat, n: nat)
    requires ExportLineAt(t, p, "EDITOR", "nano") && HasAt(t, p, Line24) && n == p + |Line24|
    ensures ValidKey("PATH")
    ensures CutMatches(t, UnsetMatcher(t, "PATH"), p) == Line24 + CutMatches(t, UnsetMatcher(t, "PATH"), n)
  {
    PathIsValid();
    EditorIsValid();
    ExportLineEnds("EDITOR", "nano");
    OtherKeyLine(t, p, "PATH", "EDITOR", "nano");
    assert Line24 == "export EDITOR=nano" + "\n";
    UnsetOtherLine(t, p, "PATH", "export EDITOR=nano", n);
  }

  /** Line 63 is indented and stays. */
  lemma CutFrom63(t: string, p: nat, n: nat)
    requires HasAt(t, p, Line63) && n == p + |Line63|
    ensures ValidKey("PATH")
    ensures CutMatches(t, UnsetMatcher(t, "PATH"), p) == Line63 + CutMatches(t, UnsetMatcher(t, "PATH"), n)
  {
    PathIsValid();
    NoExportLine(t, p, "PATH", Line63);
    UnsetOtherLine(t, p, "PATH", Indented63, n);
  }

  /** Line 96 goes. */
  lemma CutFrom96(t: string, p: nat, n: nat)
    requires ExportLineAt(t, p, "PATH", Path96) && n == p + |Line96| && n < |t| && t[n] == 'e'
    ensures ValidKey("PATH")
    ensures CutMatches(t, UnsetMatcher(t, "PATH"), p) == CutMatches(t, UnsetMatcher(t, "PATH"), n)
  {
    PathIsValid();
    LazyPath96();
    ExportLineEnds("PATH", Path96);
    UnsetExportLineTo(t, p, "PATH", Path96, n);
  }

  /** Line 113 goes: its `;` is followed by `$`, which `[^$]` refuses. */
  lemma CutFrom113(t: string, p: nat, n: nat)
    requires ExportLineAt(t, p, "PATH", Path113) && n == p + |Line113| && n < |t| && t[n] == 'e'
    ensures ValidKey("PATH")
    ensures CutMatches(t, UnsetMatcher(t, "PATH"), p) == CutMatches(t, UnsetMatcher(t, "PATH"), n)
  {
    PathIsValid();
    LazyPath113();
    ExportLineEnds("PATH", Path113);
    UnsetExportLineTo(t, p, "PATH", Path113, n);
  }

  /** Line 114 goes whole: after each `;` comes one space and a word, not a
      newline, so the group fails and the match runs to the end of the line. */
  lemma CutFrom114(t: string, p: nat)
    requires ExportLineAt(t, p, "PATH", Path114) && |t| == p + |Line114|
    ensures ValidKey("PATH")
    ensures CutMatches(t, UnsetMatcher(t, "PATH"), p) == ""
  {
    PathIsValid();
    LazyPath114();
    ExportLineEnds("PATH", Path114);
    UnsetExportLineTo(t, p, "PATH", Path114, |t|);
  }

  /** The lines that do not define `PATH` are all that is left. */
  lemma LinesUnset(t: string)
    requires SampleLines(t)
    ensures ValidKey("PATH")
    ensures Unset(t, "PATH") == Line24 + Line63
  {
    NextLineStartsWithE(t, At24, "EDITOR", "nano");
    NextLineStartsWithE(t, At113, "PATH", Path113);
    NextLineStartsWithE(t, At114, "PATH", Path114);
    CutFrom23(t, At24);
    CutFrom24(t, At24, At63);
    CutFrom63(t, At63, At96);
    CutFrom96(t, At96, At113);
    CutFrom113(t, At113, At114);
    CutFrom114(t, At114);
  }

  /** The two lines that stay, as text. */
  lemma KeptLinesText()
    ensures Line24 + Line63 == "export EDITOR=nano\n" + "  export WORKON_HOME=$HOME/.virtualenvs" + "\n"
  {
    assert Line24 == "export EDITOR=nano\n";
    assert Line63 == Indented63 + "\n";
  }

  lemma LinesUnsetText(t: string)
    requires SampleLines(t)
    ensures ValidKey("PATH")
    ensures Unset(t, "PATH") == "export EDITOR=nano\n" + "  export WORKON_HOME=$HOME/.virtualenvs" + "\n"
  {
    LinesUnset(t);
    KeptLinesText();
  }

  /** `unset(sample, "PATH")`: the four `export PATH=` lines go, each with its
      newline, line 114 with everything after its `;`s; the `EDITOR` line and
      the indented line stay. */
  lemma SampleUnset(t: string)
    requires t == Sample()
    ensures ValidKey("PATH")
    ensures Unset(t, "PATH") == "export EDITOR=nano\n" + "  export WORKON_HOME=$HOME/.virtualenvs" + "\n"
  {
    SampleHasLines(t);
    LinesUnsetText(t);
  }
}
