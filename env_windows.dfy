/** The registry backend (env_windows.go) with the errors of env.go: a target
    selects the current user's or the machine's environment key, `reg` and
    `setx` argument lists are built for it, and `parseQuery` reads the value
    out of what `reg query` prints. Running a command is a parameter `run`. */
module EnvWindows {
  import opened GoStrings

  /** The errors of env.go, and the error of a command that failed to run. */
  datatype Error =
    | InvalidEnvInFile          // "invalid EnvInFile"
    | FailParseValue            // "fail to parse value"
    | CommandFailed(reason: string)

  datatype Result<T> = Ok(value: T) | Err(error: Error)

  /** What running a command gives back: its combined output and its error. */
  datatype Output = Output(bytes: string, err: Option<Error>)

  /** A command line: the program and its arguments. */
  datatype Command = Command(name: string, args: seq<string>)

  /** The two registry keys that hold environment variables. */
  datatype RegPath = RegPathUser | RegPathSys {
    /** `regPath.String`: the key's path as `reg` spells it. */
    function String(): (s: string)
      ensures HasSuffix(s, "\\Environment")
      ensures HasAt(s, 0, "HKCU\\") <==> this == RegPathUser
      ensures HasAt(s, 0, "HKLM\\") <==> this == RegPathSys
    {
      match this
      case RegPathUser =>
        var s := "HKCU\\Environment";
        assert s[0..5] == "HKCU\\" && s[2] == 'C';
        assert s[|s| - 12..] == "\\Environment";
        s
      case RegPathSys =>
        var s := "HKLM\\" + "SYSTEM\\CurrentControlSet\\Control\\Session Manager" + "\\Environment";
        assert s[0..5] == "HKLM\\" && s[2] == 'L';
        assert s[|s| - 12..] == "\\Environment";
        s
    }
  }

  /** Different keys have different paths. */
  lemma RegPathStringInjective(p: RegPath, q: RegPath)
    ensures p.String() == q.String() ==> p == q
  {
  }

  /** A registry value: the key that holds it and its name. */
  datatype RegBuilder = RegBuilder(path: RegPath, val: string) {
    /** `regBuilder.Query`: the arguments of `reg query`. */
    function Query(): (a: seq<string>)
      ensures |a| == 4 && a[0] == "query" && a[2] == "/v"
      ensures HasSuffix(a[1], "\\Environment") && a[3] == val
    {
      ["query", path.String(), "/v", val]
    }

    /** `regBuilder.Delete`: the arguments of a forced `reg delete`. */
    function Delete(): (a: seq<string>)
      ensures |a| == 5 && a[0] == "delete" && a[2..4] == ["/F", "/V"]
      ensures HasSuffix(a[1], "\\Environment") && a[4] == val
    {
      ["delete", path.String(), "/F", "/V", val]
    }
  }

  /** Querying and deleting a value address the same key and the same name,
      and the key is the builder's. */
  lemma QueryAndDeleteAgree(b: RegBuilder, path: RegPath)
    requires b.Query()[1] == path.String()
    ensures b.path == path
    ensures b.Query()[0] == "query" && b.Delete()[0] == "delete"
    ensures b.Delete()[1] == b.Query()[1] && b.Delete()[4] == b.Query()[3] == b.val
  {
    RegPathStringInjective(b.path, path);
  }

  /** The key a target selects: `""` and `"user"` the current user's,
      `"system"` the machine's, and no other target any. */
  function Selector(target: string): (r: Option<RegPath>)
    ensures r == Some(RegPathUser) <==> target == "" || target == "user"
    ensures r == Some(RegPathSys) <==> target == "system"
    ensures r.None? <==> target != "" && target != "user" && target != "system"
  {
    if |target| == 0 || target == "user" then Some(RegPathUser)
    else if target == "system" then Some(RegPathSys)
    else None
  }

  /** The `reg query` command `Get` runs for a target. */
  function GetCommand(target: string, key: string): (r: Result<Command>)
    ensures r.Ok? <==> Selector(target).Some?
    ensures r.Err? ==> r.error == InvalidEnvInFile
    ensures r.Ok? ==> r.value.name == "reg" && |r.value.args| == 4 && r.value.args[0] == "query"
    ensures r.Ok? ==> r.value.args[1] == Selector(target).value.String() && r.value.args[3] == key
  {
    match Selector(target)
    case None => Err(InvalidEnvInFile)
    case Some(p) => Ok(Command("reg", RegBuilder(p, key).Query()))
  }

  /** The `setx` command `Set` runs for a target; `/M` writes the machine's key. */
  function SetCommand(target: string, key: string, value: string): (r: Result<Command>)
    ensures r.Ok? <==> Selector(target).Some?
    ensures r.Err? ==> r.error == InvalidEnvInFile
    ensures r.Ok? ==> r.value.name == "setx" && |r.value.args| >= 2
    ensures r.Ok? ==> r.value.args[..2] == [key, value]
    ensures r.Ok? ==> (|r.value.args| == 3 <==> Selector(target) == Some(RegPathSys))
  {
    match Selector(target)
    case None => Err(InvalidEnvInFile)
    case Some(RegPathUser) => Ok(Command("setx", [key, value]))
    case Some(RegPathSys) => Ok(Command("setx", [key, value, "/M"]))
  }

  /** The `reg delete` command `Unset` runs for a target. */
  function UnsetCommand(target: string, key: string): (r: Result<Command>)
    ensures r.Ok? <==> Selector(target).Some?
    ensures r.Err? ==> r.error == InvalidEnvInFile
    ensures r.Ok? ==> r.value.name == "reg" && |r.value.args| == 5 && r.value.args[0] == "delete"
    ensures r.Ok? ==> r.value.args[1] == Selector(target).value.String() && r.value.args[4] == key
  {
    match Selector(target)
    case None => Err(InvalidEnvInFile)
    case Some(p) => Ok(Command("reg", RegBuilder(p, key).Delete()))
  }

  /** The three operations accept the same targets, and for an accepted one
      address the same key: `reg` gets the selected key's path, and `setx`
      gets `/M` exactly for the machine's key. */
  lemma DispatchAgrees(target: string, key: string, value: string)
    ensures GetCommand(target, key).Ok? == SetCommand(target, key, value).Ok?
                                        == UnsetCommand(target, key).Ok?
                                        == (target in {"", "user", "system"})
    ensures GetCommand(target, key).Err? ==> GetCommand(target, key).error == InvalidEnvInFile
    ensures SetCommand(target, key, value).Err? ==> SetCommand(target, key, value).error == InvalidEnvInFile
    ensures UnsetCommand(target, key).Err? ==> UnsetCommand(target, key).error == InvalidEnvInFile
    ensures GetCommand(target, key).Ok? ==>
      && GetCommand(target, key).value.args[1] == UnsetCommand(target, key).value.args[1]
      && (HasAt(GetCommand(target, key).value.args[1], 0, "HKLM\\") <==> target == "system")
      && (|SetCommand(target, key, value).value.args| == 3 <==> target == "system")
      && SetCommand(target, key, value).value.args[..2] == [key, value]
      && (target == "system" ==> SetCommand(target, key, value).value.args[2] == "/M")
      && SetCommand(target, key, value).value.name == "setx"
      && GetCommand(target, key).value.name == UnsetCommand(target, key).value.name == "reg"
  {
    var p := Selector(target);
    if p.Some? {
      assert GetCommand(target, key).value.args[1] == p.value.String();
    }
  }

  /** The separator between the columns of a `reg query` record. */
  const Sep: string := "    "

  /** `parseQuery`: an error of the command is passed on; otherwise the third
      line of the output, trimmed, is cut at the first two column separators
      and the rest is the value. */
  function ParseQuery(output: string, err: Option<Error>): (r: Result<string>)
    ensures err.Some? ==> r == Err(err.value)
    ensures err.None? && r.Err? ==> r.error == FailParseValue
  {
    if err.Some? then Err(err.value)
    else
      var lines := SplitN(output, "\n", 3);
      if |lines| == 3 then
        var fields := SplitN(TrimSpace(lines[2]), Sep, 3);
        if |fields| == 3 then Ok(fields[2]) else Err(FailParseValue)
      else Err(FailParseValue)
  }

  /** `output` holds a value the way `reg query` prints it: two lines, then
      a record whose trimmed text is name, separator, type, separator and
      `value`, each line and column ending at the first break after it. */
  ghost predicate RecordOf(output: string, value: string) {
    exists lines: seq<string>, fields: seq<string> ::
      && IsSplitN(output, "\n", 3, lines) && |lines| == 3
      && IsSplitN(TrimSpace(lines[2]), Sep, 3, fields) && |fields| == 3
      && fields[2] == value
  }

  /** `parseQuery` succeeds exactly on such output, with its value. */
  lemma ParseQueryIff(output: string, value: string)
    ensures ParseQuery(output, None) == Ok(value) <==> RecordOf(output, value)
  {
    var lines := SplitN(output, "\n", 3);
    SplitNIsSplit(output, "\n", 3);
    if |lines| == 3 {
      var fields := SplitN(TrimSpace(lines[2]), Sep, 3);
      SplitNIsSplit(TrimSpace(lines[2]), Sep, 3);
      if |fields| == 3 && fields[2] == value {
        assert RecordOf(output, value);
      }
    }
    if RecordOf(output, value) {
      var ls: seq<string>, fs: seq<string> :|
        && IsSplitN(output, "\n", 3, ls) && |ls| == 3
        && IsSplitN(TrimSpace(ls[2]), Sep, 3, fs) && |fs| == 3
        && fs[2] == value;
      SplitNUnique(output, "\n", 3, ls);
      SplitNUnique(TrimSpace(ls[2]), Sep, 3, fs);
    }
  }

  /** Three columns joined by the separator end in white space when the
      last column is empty. */
  lemma EmptyLastColumn(record: string, fields: seq<string>)
    requires |fields| == 3 && Join(fields, Sep) == record && fields[2] == ""
    ensures |record| > 0 && IsSpace(record[|record| - 1])
  {
    assert fields[1..][1..] == [fields[2]];
    assert record == fields[0] + Sep + (fields[1] + Sep + "");
  }

  /** `parseQuery` never succeeds with an empty value: the record would end
      in the separator, but trimming leaves no white space at its end. */
  lemma ParseQueryNeverEmpty(output: string)
    ensures ParseQuery(output, None) != Ok("")
  {
    var lines := SplitN(output, "\n", 3);
    if |lines| == 3 {
      var record := TrimSpace(lines[2]);
      var fields := SplitN(record, Sep, 3);
      SplitNIsSplit(record, Sep, 3);
      if |fields| == 3 && fields[2] == "" {
        EmptyLastColumn(record, fields);
      }
    }
  }

  /** Output with fewer than two line breaks does not parse. */
  lemma ParseQueryNeedsTwoLines(output: string)
    requires !TwoApart(output, "\n")
    ensures ParseQuery(output, None) == Err(FailParseValue)
  {
    SplitThreeIff(output, "\n");
  }

  /** After two lines without breaks, `parseQuery` reads the columns of the
      trimmed rest. */
  lemma ParseQueryThirdLine(first: string, second: string, record: string)
    requires NoNewline(first) && NoNewline(second)
    ensures var fields := SplitN(TrimSpace(record), Sep, 3);
      ParseQuery(first + "\n" + second + "\n" + record, None)
        == if |fields| == 3 then Ok(fields[2]) else Err(FailParseValue)
  {
    ThreeLines(first, second, record);
  }

  /** A record that, trimmed, has fewer than two separators does not parse. */
  lemma ParseQueryNeedsThreeColumns(first: string, second: string, record: string)
    requires NoNewline(first) && NoNewline(second)
    requires !TwoApart(TrimSpace(record), Sep)
    ensures ParseQuery(first + "\n" + second + "\n" + record, None) == Err(FailParseValue)
  {
    ParseQueryThirdLine(first, second, record);
    SplitThreeIff(TrimSpace(record), Sep);
  }

  predicate NoBlank(s: string) {
    forall i :: 0 <= i < |s| ==> s[i] != ' '
  }

  /** Two lines without breaks, then the rest: the three pieces `SplitN`
      yields. */
  lemma ThreeLines(first: string, second: string, rest: string)
    requires NoNewline(first) && NoNewline(second)
    ensures SplitN(first + "\n" + second + "\n" + rest, "\n", 3) == [first, second, rest]
  {
    var output := first + "\n" + second + "\n" + rest;
    var r := [first, second, rest];
    FirstAfterPiece(first, "\n");
    FirstAfterPiece(second, "\n");
    assert r[1..] == [second, rest] && r[1..][1..] == [rest];
    assert Join(r, "\n") == output;
    SplitNUnique(output, "\n", 3, r);
  }

  /** Name, type and value with separators between them: the three columns. */
  lemma ThreeColumns(name: string, kind: string, value: string)
    requires NoBlank(name) && NoBlank(kind)
    ensures SplitN(name + Sep + kind + Sep + value, Sep, 3) == [name, kind, value]
  {
    var x := name + Sep + kind + Sep + value;
    var r := [name, kind, value];
    FirstAfterPiece(name, Sep);
    FirstAfterPiece(kind, Sep);
    assert r[1..] == [kind, value] && r[1..][1..] == [value];
    assert Join(r, Sep) == x;
    SplitNUnique(x, Sep, 3, r);
  }

  /** `parseQuery` returns everything after the second separator, further
      separators included, when the name and the type have no blanks and the
      record is padded with white space. */
  lemma ParseQueryOfRecord(first: string, second: string, record: string,
                           lead: string, name: string, kind: string, value: string, trail: string)
    requires NoNewline(first) && NoNewline(second)
    requires record == lead + (name + Sep + kind + Sep + value) + trail
    requires AllSpace(lead) && AllSpace(trail)
    requires |name| > 0 && !IsSpace(name[0]) && NoBlank(name) && NoBlank(kind)
    requires |value| > 0 && !IsSpace(value[|value| - 1])
    ensures ParseQuery(first + "\n" + second + "\n" + record, None) == Ok(value)
  {
    var x := name + Sep + kind + Sep + value;
    assert x[0] == name[0] && x[|x| - 1] == value[|value| - 1];
    TrimSpacePadded(lead, x, trail);
    ThreeColumns(name, kind, value);
    ParseQueryThirdLine(first, second, record);
  }

  /** The value of the `reg query` output in the library's test: an empty
      line, the key's name, then the record with its columns written apart,
      and two empty lines. */
  lemma ParseQueryFixture(output: string)
    requires output == "\n" + "HKEY_CURRENT_USER\\Environment" + "\n"
                       + ("    " + ("globalEnv" + Sep + "REG_SZ" + Sep + "Hello Global Environment!") + "\n\n\n")
    ensures ParseQuery(output, None) == Ok("Hello Global Environment!")
  {
    var value := "Hello Global Environment!";
    assert value[|value| - 1] == '!';
    assert AllSpace("    ") && AllSpace("\n\n\n");
    assert "" + "\n" == "\n";
    ParseQueryOfRecord("", "HKEY_CURRENT_USER\\Environment",
                       "    " + ("globalEnv" + Sep + "REG_SZ" + Sep + value) + "\n\n\n",
                       "    ", "globalEnv", "REG_SZ", value, "\n\n\n");
  }

  /** `EnvInFile.Get`: run the query for the selected key and parse it. */
  function Get(target: string, key: string, run: Command -> Output): (r: Result<string>)
    ensures Selector(target).None? ==> r == Err(InvalidEnvInFile)
    ensures r.Ok? ==> r.value != ""
  {
    match GetCommand(target, key)
    case Err(e) => Err(e)
    case Ok(c) =>
      ParseQueryNeverEmpty(run(c).bytes);
      ParseQuery(run(c).bytes, run(c).err)
  }

  /** `EnvInFile.Set`: run `setx` for the selected key. */
  function Set(target: string, key: string, value: string, run: Command -> Output): (o: Output)
    ensures Selector(target).None? ==> o == Output("", Some(InvalidEnvInFile))
    ensures Selector(target).Some? ==> o == run(SetCommand(target, key, value).value)
  {
    match SetCommand(target, key, value)
    case Err(e) => Output("", Some(e))
    case Ok(c) => run(c)
  }

  /** `EnvInFile.Unset`: run `reg delete` for the selected key. */
  function Unset(target: string, key: string, run: Command -> Output): (o: Output)
    ensures Selector(target).None? ==> o == Output("", Some(InvalidEnvInFile))
    ensures Selector(target).Some? ==> o == run(UnsetCommand(target, key).value)
  {
    match UnsetCommand(target, key)
    case Err(e) => Output("", Some(e))
    case Ok(c) => run(c)
  }

  /** A target outside `""`, `"user"` and `"system"` fails every operation
      with `ErrInvalidEnvInFile`, without running anything. */
  lemma InvalidTargetFails(target: string, key: string, value: string, run: Command -> Output)
    requires target != "" && target != "user" && target != "system"
    ensures Get(target, key, run) == Err(InvalidEnvInFile)
    ensures Set(target, key, value, run) == Output("", Some(InvalidEnvInFile))
    ensures Unset(target, key, run) == Output("", Some(InvalidEnvInFile))
  {
  }

  /** `Get` reports the error of `reg query` unchanged, and otherwise the
      value of its output exactly when the output holds one. */
  lemma GetOfQuery(target: string, key: string, run: Command -> Output, value: string)
    requires target == "" || target == "user" || target == "system"
    ensures var out := run(GetCommand(target, key).value);
      && (out.err.Some? ==> Get(target, key, run) == Err(out.err.value))
      && (out.err.None? ==> (Get(target, key, run) == Ok(value) <==> RecordOf(out.bytes, value)))
  {
    var out := run(GetCommand(target, key).value);
    ParseQueryIff(out.bytes, value);
  }
}
