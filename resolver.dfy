/** Language resolution (linguist/src/resolver.rs): the file-name, extension, shebang and
    content strategies over a container, and the vote tally that picks the most likely language. */
module Resolver {
  import opened Wrappers
  import opened Text
  import opened Paths
  import opened Errors
  import opened Definitions
  import opened Container
  import opened Utils
  import Seqs

  // ---------------------------------------------------------------------------
  // File-name and extension strategies

  /** `resolve_languages_by_filename`: the languages naming the whole path, or LanguageNotFound. */
  function ResolveLanguagesByFilename(file: string, c: InMemoryLanguageContainer)
    : (r: Result<seq<Language>, LinguistError>)
    reads c
    ensures r.Err? <==> forall i :: 0 <= i < |c.languages| ==> file !in c.languages[i].filenames
    ensures r.Err? ==> r.error == LanguageNotFound
    ensures r.Ok? ==>
      (r.value != [] &&
       forall k :: 0 <= k < |r.value| ==> r.value[k] in c.languages && file in r.value[k].filenames)
  {
    match c.GetLanguagesByFilename(file)
    case Some(langs) => Ok(langs)
    case None => Err(LanguageNotFound)
  }

  /** `resolve_languages_by_extension`: the languages listing the extension key, or LanguageNotFound. */
  function ResolveLanguagesByExtension(file: string, c: InMemoryLanguageContainer)
    : (r: Result<seq<Language>, LinguistError>)
    reads c
    ensures r.Err? <==>
      (ExtensionKey(file).None? ||
       forall i :: 0 <= i < |c.languages| ==> ExtensionKey(file).value !in c.languages[i].extensions)
    ensures r.Err? ==> r.error == LanguageNotFound
    ensures r.Ok? ==>
      (r.value != [] && ExtensionKey(file).Some? &&
       forall k :: 0 <= k < |r.value| ==>
         r.value[k] in c.languages && ExtensionKey(file).value in r.value[k].extensions)
  {
    match c.GetLanguagesByExtension(file)
    case Some(langs) => Ok(langs)
    case None => Err(LanguageNotFound)
  }

  // ---------------------------------------------------------------------------
  // Content strategy

  /** The alternation `resolve_language_by_content` compiles for a rule. */
  function RulePattern(rule: HeuristicRule): string {
    Join(rule.patterns, "|")
  }

  /** The verdict of trying `rules` in order on `content`: the first rule whose alternation
      matches names the language; a pattern that does not compile stops the search. */
  function RulesVerdict(rules: seq<HeuristicRule>, content: string, c: InMemoryLanguageContainer,
                        re: RegexEngine): (r: Result<Option<Language>, LinguistError>)
    reads c
    ensures r.Err? ==> r.error == LanguageNotFound || r.error == PatternCompileError
    ensures r.Ok? && r.value.Some? ==> r.value.value in c.languages
  {
    if rules == [] then Err(LanguageNotFound)
    else
      var pattern := RulePattern(rules[0]);
      if !re.compiles(pattern) then Err(PatternCompileError)
      else if re.isMatch(pattern, content) then Ok(c.GetLanguageByName(rules[0].language))
      else RulesVerdict(rules[1..], content, c, re)
  }

  /** Rules before the `k`-th compile and do not match. */
  ghost predicate NoEarlierMatch(rules: seq<HeuristicRule>, k: nat, content: string, re: RegexEngine)
    requires k <= |rules|
  {
    forall j :: 0 <= j < k ==> re.compiles(RulePattern(rules[j])) && !re.isMatch(RulePattern(rules[j]), content)
  }

  /** The first matching rule decides, whatever the rules after it say. */
  lemma {:induction false} FirstMatchDecides(rules: seq<HeuristicRule>, k: nat, content: string,
                                             c: InMemoryLanguageContainer, re: RegexEngine)
    requires k < |rules| && NoEarlierMatch(rules, k, content, re)
    requires re.compiles(RulePattern(rules[k])) && re.isMatch(RulePattern(rules[k]), content)
    ensures RulesVerdict(rules, content, c, re) == Ok(c.GetLanguageByName(rules[k].language))
  {
    if k > 0 {
      assert NoEarlierMatch(rules[1..], k - 1, content, re) by {
        forall j | 0 <= j < k - 1
          ensures re.compiles(RulePattern(rules[1..][j])) && !re.isMatch(RulePattern(rules[1..][j]), content)
        {
          assert rules[1..][j] == rules[j + 1];
        }
      }
      FirstMatchDecides(rules[1..], k - 1, content, c, re);
    }
  }

  /** When every rule compiles and none matches, the content strategy finds nothing. */
  lemma {:induction false} NoMatchIsNotFound(rules: seq<HeuristicRule>, content: string,
                                             c: InMemoryLanguageContainer, re: RegexEngine)
    requires NoEarlierMatch(rules, |rules|, content, re)
    ensures RulesVerdict(rules, content, c, re) == Err(LanguageNotFound)
  {
    if rules != [] {
      assert NoEarlierMatch(rules[1..], |rules| - 1, content, re) by {
        forall j | 0 <= j < |rules| - 1
          ensures re.compiles(RulePattern(rules[1..][j])) && !re.isMatch(RulePattern(rules[1..][j]), content)
        {
          assert rules[1..][j] == rules[j + 1];
        }
      }
      NoMatchIsNotFound(rules[1..], content, c, re);
    }
  }

  /** Of two matching rules, the one stored first wins. */
  lemma EarlierRuleWins(rules: seq<HeuristicRule>, k: nat, m: nat, content: string,
                        c: InMemoryLanguageContainer, re: RegexEngine)
    requires k < m < |rules| && NoEarlierMatch(rules, k, content, re)
    requires re.compiles(RulePattern(rules[k])) && re.isMatch(RulePattern(rules[k]), content)
    requires re.compiles(RulePattern(rules[m])) && re.isMatch(RulePattern(rules[m]), content)
    ensures RulesVerdict(rules, content, c, re) == Ok(c.GetLanguageByName(rules[k].language))
  {
    FirstMatchDecides(rules, k, content, c, re);
  }

  /** A matching rule whose language is not registered gives `Ok(None)`. */
  lemma UnknownRuleLanguage(rules: seq<HeuristicRule>, k: nat, content: string,
                            c: InMemoryLanguageContainer, re: RegexEngine)
    requires k < |rules| && NoEarlierMatch(rules, k, content, re)
    requires re.compiles(RulePattern(rules[k])) && re.isMatch(RulePattern(rules[k]), content)
    requires forall i :: 0 <= i < |c.languages| ==> ToLower(c.languages[i].name) != ToLower(rules[k].language)
    ensures RulesVerdict(rules, content, c, re) == Ok(None)
  {
    FirstMatchDecides(rules, k, content, c, re);
  }

  /** The whole content strategy: unreadable content, no rules for the extension, or the rules' verdict. */
  function ContentVerdict(file: string, text: Option<string>, c: InMemoryLanguageContainer, re: RegexEngine)
    : (r: Result<Option<Language>, LinguistError>)
    reads c
    ensures text.None? ==> r == Err(FileNotFound)
    ensures text.Some? && c.GetHeuristicsByExtension(file).None? ==> r == Err(LanguageNotFound)
    ensures r.Ok? && r.value.Some? ==> r.value.value in c.languages
  {
    match text
    case None => Err(FileNotFound)
    case Some(content) =>
      match c.GetHeuristicsByExtension(file)
      case None => Err(LanguageNotFound)
      case Some(rules) => RulesVerdict(rules, content, c, re)
  }

  /** `resolve_language_by_content`: the rule loop with its early returns. */
  method ResolveLanguageByContent(file: string, text: Option<string>, c: InMemoryLanguageContainer,
                                  re: RegexEngine) returns (r: Result<Option<Language>, LinguistError>)
    ensures r == ContentVerdict(file, text, c, re)
  {
    if text.None? {
      return Err(FileNotFound);
    }
    var content := text.value;
    var found := c.GetHeuristicsByExtension(file);
    if found.Some? {
      var rules := found.value;
      var i := 0;
      while i < |rules|
        invariant 0 <= i <= |rules|
        invariant RulesVerdict(rules[i..], content, c, re) == RulesVerdict(rules, content, c, re)
      {
        assert rules[i..][1..] == rules[i + 1..];
        var pattern := RulePattern(rules[i]);
        if !re.compiles(pattern) {
          return Err(PatternCompileError);
        }
        if re.isMatch(pattern, content) {
          return Ok(c.GetLanguageByName(rules[i].language));
        }
        i := i + 1;
      }
    }
    return Err(LanguageNotFound);
  }

  // ---------------------------------------------------------------------------
  // Shebang strategy

  /** An `env` option argument: `-` followed by one or more ASCII letters. */
  predicate IsEnvOption(f: string) {
    |f| >= 2 && f[0] == '-' && forall i :: 1 <= i < |f| ==> IsAsciiLetter(f[i])
  }

  /** An `env` variable argument: `$` followed by ASCII letters or underscores. */
  predicate IsEnvVariable(f: string) {
    |f| >= 2 && f[0] == '$' && forall i :: 1 <= i < |f| ==> IsAsciiLetter(f[i]) || f[i] == '_'
  }

  predicate IsEnvArgument(f: string) {
    IsEnvOption(f) || IsEnvVariable(f)
  }

  /** The fields left once the `env` arguments after the program have been removed: an argument
      is removed only while more than two fields remain, so `fields[1]` always exists. */
  function DropEnvArguments(fields: seq<string>): (r: seq<string>)
    requires |fields| >= 2
    ensures 2 <= |r| <= |fields| && r[0] == fields[0]
    ensures r[1..] == fields[|fields| - |r| + 1..]
    ensures forall k :: 1 <= k < |fields| - |r| + 1 ==> IsEnvArgument(fields[k])
    ensures |r| > 2 ==> !IsEnvArgument(r[1])
    decreases |fields|
  {
    if |fields| > 2 && IsEnvArgument(fields[1]) then
      var rest := [fields[0]] + fields[2..];
      assert forall k :: 2 <= k < |fields| ==> rest[k - 1] == fields[k];
      DropEnvArguments(rest)
    else
      fields
  }

  /** Length of the leading run of ASCII digits. */
  function DigitRun(s: string): (n: nat)
    ensures n <= |s| && (forall i :: 0 <= i < n ==> IsAsciiDigit(s[i])) && (n < |s| ==> !IsAsciiDigit(s[n]))
  {
    if s != [] && IsAsciiDigit(s[0]) then 1 + DigitRun(s[1..]) else 0
  }

  /** Matches `^python[0-9]*\.`: `python`, optional digits, then a dot. */
  predicate HasPythonVersion(name: string) {
    StartsWith(name, "python") && 6 + DigitRun(name[6..]) < |name| && name[6 + DigitRun(name[6..])] == '.'
  }

  /** The interpreter name after the `sh`, python-version and `osascript -l` rules. */
  function NormaliseInterpreter(program: string, line: string, multilineExec: string): (r: string)
    ensures !HasPythonVersion(r)
    ensures program != "sh" && !HasPythonVersion(program) && !(program == "osascript" && Contains(line, "-l")) ==> r == program
    ensures program == "sh" && !HasPythonVersion(multilineExec) && !(multilineExec == "osascript" && Contains(line, "-l")) ==> r == multilineExec
  {
    var name := if program == "sh" then multilineExec else program;
    var name := if HasPythonVersion(name) then name[..IndexOf(name, '.')] else name;
    if name == "osascript" && Contains(line, "-l") then "" else name
  }

  /** A python program with a version suffix is cut at its first dot. */
  lemma PythonVersionCut(digits: string, rest: string, line: string, m: string)
    requires forall i :: 0 <= i < |digits| ==> IsAsciiDigit(digits[i])
    ensures NormaliseInterpreter("python" + digits + "." + rest, line, m) == "python" + digits
  {
    var name := "python" + digits + "." + rest;
    assert name[6..] == digits + "." + rest;
    DigitRunOf(digits, "." + rest);
    assert name[..6] == "python";
    FirstDotAfterVersion(digits, rest);
  }

  /** The first dot of `python<digits>.<rest>` follows the digits. */
  lemma FirstDotAfterVersion(digits: string, rest: string)
    requires forall i :: 0 <= i < |digits| ==> IsAsciiDigit(digits[i])
    ensures var name := "python" + digits + "." + rest;
      IndexOf(name, '.') == 6 + |digits| && name[..IndexOf(name, '.')] == "python" + digits
  {
    var name := "python" + digits + "." + rest;
    assert name[..6 + |digits|] == "python" + digits;
    assert name[6 + |digits|] == '.';
    assert '.' !in "python";
    assert forall i :: 0 <= i < 6 + |digits| ==> name[i] != '.' by {
      forall i | 0 <= i < 6 + |digits|
        ensures name[i] != '.'
      {
        if i >= 6 {
          assert name[i] == digits[i - 6];
        } else {
          assert name[i] == "python"[i];
        }
      }
    }
    assert '.' !in name[..6 + |digits|];
  }

  lemma {:induction false} DigitRunOf(digits: string, rest: string)
    requires forall i :: 0 <= i < |digits| ==> IsAsciiDigit(digits[i])
    requires rest != [] && !IsAsciiDigit(rest[0])
    ensures DigitRun(digits + rest) == |digits|
  {
    if digits != [] {
      assert (digits + rest)[1..] == digits[1..] + rest;
      DigitRunOf(digits[1..], rest);
    }
  }

  /** `osascript` is dropped whenever the line carries `-l`: the language is not known then. */
  lemma OsascriptWithLanguageFlag(line: string, m: string)
    requires Contains(line, "-l")
    ensures NormaliseInterpreter("osascript", line, m) == ""
  {
    assert !HasPythonVersion("osascript") by {
      assert "osascript"[..6][0] != "python"[0];
    }
  }

  /** The fields of a shebang line after `#!`. */
  function ShebangFields(line: string): seq<string>
    requires |line| >= 2
  {
    SplitWhitespace(Trim(line[2..]))
  }

  /** The unwraps of `Path::file_name` in `resolve_languages_by_shebang` succeed on this line. */
  predicate ShebangUnwrapsSucceed(line: string, isShebang: bool)
    requires isShebang ==> |line| >= 2
  {
    isShebang ==>
      var fields := ShebangFields(line);
      fields != [] ==>
        FileName(fields[0]).Some? &&
        (FileName(fields[0]).value == "env" && |fields| >= 2 ==> FileName(DropEnvArguments(fields)[1]).Some?)
  }

  /** The interpreter `resolve_languages_by_shebang` looks up, as written: the `unwrap`s of
      `Path::file_name` are preconditions. */
  function ShebangInterpreterAsWritten(line: string, isShebang: bool, multilineExec: string): (r: Option<string>)
    requires isShebang ==> |line| >= 2
    requires ShebangUnwrapsSucceed(line, isShebang)
    ensures r.Some? ==> isShebang && ShebangFields(line) != [] && !HasPythonVersion(r.value)
  {
    if !isShebang then None
    else
      var body := Trim(line[2..]);
      var fields := ShebangFields(line);
      if fields == [] then None
      else
        var program := FileName(fields[0]).value;
        if program == "env" then
          if |fields| == 1 then None
          else Some(NormaliseInterpreter(FileName(DropEnvArguments(fields)[1]).value, body, multilineExec))
        else Some(NormaliseInterpreter(program, body, multilineExec))
  }

  /** The line `#!/` passes the shebang test but its program `/` has no file name, so the
      `unwrap` panics. */
  lemma RootShebangPanics()
    ensures !ShebangUnwrapsSucceed("#!/\n", true)
  {
    RootShebangFields();
    RootHasNoFileName();
  }

  lemma RootShebangFields()
    ensures ShebangFields("#!/\n") == ["/"]
  {
    assert "#!/\n"[2..] == "/\n";
    assert TrimEnd("/\n") == "/" by {
      assert "/\n"[..1] == "/";
    }
    assert Trim("/\n") == "/";
    assert WordLength("/") == 1;
    assert "/"[1..] == [];
  }

  lemma RootHasNoFileName()
    ensures FileName("/").None?
  {
    assert IndexOf("/", '/') == 0;
    assert Split("/", '/') == ["", ""] by {
      assert "/"[..0] == "";
      assert "/"[1..] == "";
    }
    assert Components("/") == [];
  }

  /** The interpreter named by the fields of a shebang line, a program without a file name
      being treated like a missing program. */
  function FieldsInterpreter(fields: seq<string>, body: string, multilineExec: string): (r: Option<string>)
    ensures r.Some? ==> fields != [] && FileName(fields[0]).Some? && !HasPythonVersion(r.value)
    ensures fields != [] && FileName(fields[0]) == Some("env") && |fields| == 1 ==> r.None?
  {
    if fields == [] then None
    else match FileName(fields[0])
      case None => None
      case Some(program) =>
        if program == "env" then
          if |fields| == 1 then None
          else match FileName(DropEnvArguments(fields)[1])
            case None => None
            case Some(target) => Some(NormaliseInterpreter(target, body, multilineExec))
        else Some(NormaliseInterpreter(program, body, multilineExec))
  }

  /** The interpreter a shebang line names, with a program that has no file name treated like a
      line with no program. */
  function ShebangInterpreter(line: string, isShebang: bool, multilineExec: string): (r: Option<string>)
    requires isShebang ==> |line| >= 2
    ensures !isShebang ==> r.None?
    ensures isShebang && ShebangFields(line) == [] ==> r.None?
    ensures isShebang && |ShebangFields(line)| == 1 && FileName(ShebangFields(line)[0]) == Some("env") ==> r.None?
    ensures (isShebang && ShebangFields(line) != [] && FileName(ShebangFields(line)[0]).Some?
             && FileName(ShebangFields(line)[0]).value != "env") ==>
        r == Some(NormaliseInterpreter(FileName(ShebangFields(line)[0]).value, Trim(line[2..]), multilineExec))
    ensures (isShebang && |ShebangFields(line)| >= 2 && FileName(ShebangFields(line)[0]) == Some("env")
             && FileName(DropEnvArguments(ShebangFields(line))[1]).Some?) ==>
        r == Some(NormaliseInterpreter(FileName(DropEnvArguments(ShebangFields(line))[1]).value, Trim(line[2..]), multilineExec))
    ensures ShebangUnwrapsSucceed(line, isShebang) ==> r == ShebangInterpreterAsWritten(line, isShebang, multilineExec)
  {
    if !isShebang then None
    else FieldsInterpreter(ShebangFields(line), Trim(line[2..]), multilineExec)
  }

  /** `#!/` yields no interpreter once the missing file name is handled. */
  lemma RootShebangHasNoInterpreter(m: string)
    ensures ShebangInterpreter("#!/\n", true, m).None?
  {
    RootShebangPanics();
  }

  /** The loop of `resolve_languages_by_shebang` that removes `env` arguments. */
  method SkipEnvArguments(fields: seq<string>) returns (r: seq<string>)
    requires |fields| >= 2
    ensures r == DropEnvArguments(fields)
  {
    r := fields;
    while |r| > 2
      invariant |r| >= 2
      invariant DropEnvArguments(r) == DropEnvArguments(fields)
      decreases |r|
    {
      if IsEnvOption(r[1]) || IsEnvVariable(r[1]) {
        r := [r[0]] + r[2..];
        continue;
      }
      break;
    }
  }

  /** The rewriting of the program name in `resolve_languages_by_shebang`. */
  method RewriteInterpreter(program: string, body: string, multilineExec: string) returns (r: string)
    ensures r == NormaliseInterpreter(program, body, multilineExec)
  {
    r := program;
    if r == "sh" {
      r := multilineExec;
    }
    if HasPythonVersion(r) {
      r := r[..IndexOf(r, '.')];
    }
    if r == "osascript" && Contains(body, "-l") {
      r := "";
    }
  }

  /** The line processing of `resolve_languages_by_shebang`. */
  method ExtractInterpreter(line: string, isShebang: bool, multilineExec: string) returns (r: Option<string>)
    requires isShebang ==> |line| >= 2
    ensures r == ShebangInterpreter(line, isShebang, multilineExec)
  {
    if !isShebang {
      return None;
    }
    var body := Trim(line[2..]);
    var fields := SplitWhitespace(body);
    assert fields == ShebangFields(line);
    if fields == [] {
      return None;
    }
    var program := FileName(fields[0]);
    if program.None? {
      return None;
    }
    var interpreter := program.value;
    if interpreter == "env" {
      if |fields| == 1 {
        return None;
      }
      var remaining := SkipEnvArguments(fields);
      var target := FileName(remaining[1]);
      if target.None? {
        return None;
      }
      interpreter := target.value;
    }
    interpreter := RewriteInterpreter(interpreter, body, multilineExec);
    return Some(interpreter);
  }

  /** The languages the shebang strategy proposes, as `resolve_languages_by_shebang` reports them. */
  function ShebangVerdict(firstLine: Option<string>, isShebang: bool, multilineExec: string,
                          c: InMemoryLanguageContainer): (r: Result<Option<seq<Language>>, LinguistError>)
    requires firstLine.Some? && isShebang ==> |firstLine.value| >= 2
    reads c
    ensures firstLine.None? <==> r == Err(IOError)
    ensures r.Ok? && r.value.Some? ==>
      (r.value.value != [] &&
       forall k :: 0 <= k < |r.value.value| ==> r.value.value[k] in c.languages)
  {
    match firstLine
    case None => Err(IOError)
    case Some(line) =>
      match ShebangInterpreter(line, isShebang, multilineExec)
      case None => Ok(None)
      case Some(interpreter) => Ok(c.GetLanguagesByInterpreter(interpreter))
  }

  /** `resolve_languages_by_shebang`: an unopenable file is an I/O error; otherwise the languages
      listing the extracted interpreter, or `None`. */
  method ResolveLanguagesByShebang(firstLine: Option<string>, isShebang: bool, multilineExec: string,
                                   c: InMemoryLanguageContainer)
    returns (r: Result<Option<seq<Language>>, LinguistError>)
    requires firstLine.Some? && isShebang ==> |firstLine.value| >= 2
    ensures r == ShebangVerdict(firstLine, isShebang, multilineExec, c)
  {
    if firstLine.None? {
      return Err(IOError);
    }
    var interpreter := ExtractInterpreter(firstLine.value, isShebang, multilineExec);
    if interpreter.None? {
      return Ok(None);
    }
    var results := c.GetLanguagesByInterpreter(interpreter.value);
    return Ok(results);
  }

  // ---------------------------------------------------------------------------
  // The vote tally of resolve_language

  /** Count after one more vote for `name`: a first vote starts the entry at 1 and adds 1. */
  function Bump(counts: map<string, nat>, name: string): (r: map<string, nat>)
    ensures r.Keys == counts.Keys + {name}
    ensures name in counts ==> r[name] == counts[name] + 1
    ensures name !in counts ==> r[name] == 2
    ensures forall k :: k in counts && k != name ==> r[k] == counts[k]
  {
    counts[name := (if name in counts then counts[name] else 1) + 1]
  }

  /** Counts after voting, in order, for every name of `names`. */
  function Tally(counts: map<string, nat>, names: seq<string>): (r: map<string, nat>)
    ensures r.Keys == counts.Keys + set k | 0 <= k < |names| :: names[k]
    ensures forall n :: n in counts && n !in names ==> r[n] == counts[n]
    ensures forall n :: n in counts ==> r[n] >= counts[n]
    decreases |names|
  {
    if names == [] then counts else Bump(Tally(counts, names[..|names| - 1]), names[|names| - 1])
  }

  /** Voting for `a` then for `b` is voting for `a + b`. */
  lemma {:induction false} TallyAppend(counts: map<string, nat>, a: seq<string>, b: seq<string>)
    ensures Tally(Tally(counts, a), b) == Tally(counts, a + b)
    decreases |b|
  {
    if b == [] {
      assert a + b == a;
    } else {
      assert (a + b)[..|a + b| - 1] == a + b[..|b| - 1];
      TallyAppend(counts, a, b[..|b| - 1]);
    }
  }

  /** Starting from no entries, a name's count is 1 plus its number of votes. */
  lemma {:induction false} TallyCounts(names: seq<string>)
    ensures forall k :: k in Tally(map[], names) <==> k in names
    ensures Tally(map[], names) == map[] <==> names == []
    ensures forall k :: k in names ==> Tally(map[], names)[k] == 1 + Seqs.Count(names, k)
    decreases |names|
  {
    if names != [] {
      var init := names[..|names| - 1];
      TallyCounts(init);
      forall k | k in names
        ensures Tally(map[], names)[k] == 1 + Seqs.Count(names, k)
      {
        TallyCountStep(names, k);
      }
    }
  }

  /** The count of `k` after the last vote of `names`, given the counts before it. */
  lemma TallyCountStep(names: seq<string>, k: string)
    requires names != [] && k in names
    requires var init := names[..|names| - 1];
      forall n :: n in init ==> Tally(map[], init)[n] == 1 + Seqs.Count(init, n)
    ensures Tally(map[], names)[k] == 1 + Seqs.Count(names, k)
  {
    var init, last := names[..|names| - 1], names[|names| - 1];
    assert names == init + [last];
    Seqs.CountAppend(init, [last], k);
  }

  /** `probabilities.entry(..).or_insert(1) += 1` for every name, in order. */
  method AddVotes(counts: map<string, nat>, names: seq<string>) returns (r: map<string, nat>)
    ensures r == Tally(counts, names)
  {
    r := counts;
    for i := 0 to |names|
      invariant r == Tally(counts, names[..i])
    {
      assert names[..i + 1][..i] == names[..i];
      r := Bump(r, names[i]);
    }
    assert names[..|names|] == names;
  }

  /** The first entry after sorting by count and reversing: a name with a maximal count.
      Among equal counts the order is the map's, which is unspecified. */
  method MostLikely(counts: map<string, nat>) returns (best: Option<string>)
    ensures best.None? <==> counts == map[]
    ensures best.Some? ==> best.value in counts && forall k :: k in counts ==> counts[k] <= counts[best.value]
  {
    best := None;
    var pending := counts.Keys;
    while pending != {}
      invariant pending <= counts.Keys
      invariant best.None? <==> pending == counts.Keys
      invariant best.Some? ==>
        (best.value in counts &&
         forall k :: k in counts && k !in pending ==> counts[k] <= counts[best.value])
      decreases pending
    {
      var k :| k in pending;
      if best.None? || counts[k] > counts[best.value] {
        best := Some(k);
      }
      pending := pending - {k};
    }
    if best.None? {
      assert counts.Keys == {};
      assert counts == map[];
    }
  }

  /** What `resolve_language` reads of a file: its path, the outcome of the binary probe, the
      first line (`None` when the file cannot be opened) with the verdict of the shebang test
      and the program `determine_multiline_exec` finds after it, and the whole text (`None`
      when it cannot be read as a string). */
  datatype FileProbe = FileProbe(
    path: string,
    access: FileAccess,
    firstLine: Option<string>,
    isShebang: bool,
    multilineExec: string,
    text: Option<string>)

  /** What the file demands of its caller: a sane read count, and `#!` in a shebang line. */
  predicate WellFormedProbe(f: FileProbe) {
    (f.access.ReadBytes? ==> f.access.count <= BinaryProbeSize && f.access.count <= |f.access.content|) &&
    (f.firstLine.Some? && f.isShebang ==> |f.firstLine.value| >= 2)
  }

  /** Lowercased names, one vote per language. */
  function LowerNames(langs: seq<Language>): (r: seq<string>)
    ensures |r| == |langs| && forall k :: 0 <= k < |langs| ==> r[k] == ToLower(langs[k].name)
  {
    Seqs.Map(langs, (l: Language) => ToLower(l.name))
  }

  /** `v` is the lowercased name of a registered language. */
  ghost predicate Registered(c: InMemoryLanguageContainer, v: string)
    reads c
  {
    exists i :: 0 <= i < |c.languages| && ToLower(c.languages[i].name) == v
  }

  lemma LowerNamesRegistered(langs: seq<Language>, c: InMemoryLanguageContainer)
    requires forall k :: 0 <= k < |langs| ==> langs[k] in c.languages
    ensures forall v :: v in LowerNames(langs) ==> Registered(c, v)
  {
    forall v | v in LowerNames(langs)
      ensures Registered(c, v)
    {
      var k :| 0 <= k < |langs| && LowerNames(langs)[k] == v;
      var i :| 0 <= i < |c.languages| && c.languages[i] == langs[k];
    }
  }

  /** The votes of the file-name strategy. */
  function FilenameVotes(path: string, c: InMemoryLanguageContainer): (r: seq<string>)
    reads c
    ensures forall v :: v in r ==> Registered(c, v)
  {
    match ResolveLanguagesByFilename(path, c)
    case Ok(langs) => LowerNamesRegistered(langs, c); LowerNames(langs)
    case Err(_) => []
  }

  /** The votes of the shebang strategy. */
  function ShebangVotes(f: FileProbe, c: InMemoryLanguageContainer): (r: seq<string>)
    requires WellFormedProbe(f)
    reads c
    ensures forall v :: v in r ==> Registered(c, v)
  {
    match ShebangVerdict(f.firstLine, f.isShebang, f.multilineExec, c)
    case Ok(Some(langs)) => LowerNamesRegistered(langs, c); LowerNames(langs)
    case _ => []
  }

  /** The votes of the extension strategy. */
  function ExtensionVotes(path: string, c: InMemoryLanguageContainer): (r: seq<string>)
    reads c
    ensures forall v :: v in r ==> Registered(c, v)
  {
    match ResolveLanguagesByExtension(path, c)
    case Ok(langs) => LowerNamesRegistered(langs, c); LowerNames(langs)
    case Err(_) => []
  }

  /** The vote of the content strategy. */
  function ContentVotes(f: FileProbe, c: InMemoryLanguageContainer, re: RegexEngine): (r: seq<string>)
    reads c
    ensures forall v :: v in r ==> Registered(c, v)
  {
    match ContentVerdict(f.path, f.text, c, re)
    case Ok(Some(lang)) => LowerNamesRegistered([lang], c); LowerNames([lang])
    case _ => []
  }

  /** All votes the four strategies cast, in the order `resolve_language` casts them; each is
      the lowercased name of a registered language. */
  function Votes(f: FileProbe, c: InMemoryLanguageContainer, re: RegexEngine): (r: seq<string>)
    requires WellFormedProbe(f)
    reads c
    ensures forall v :: v in r ==> Registered(c, v)
  {
    FilenameVotes(f.path, c) + ShebangVotes(f, c) + ExtensionVotes(f.path, c) + ContentVotes(f, c, re)
  }

  /** A name with a maximal count is found again by `get_language_by_name`, so the final `unwrap`
      never panics. */
  lemma WinnerIsRegistered(c: InMemoryLanguageContainer, v: string)
    requires Registered(c, v)
    ensures c.GetLanguageByName(v).Some? && ToLower(c.GetLanguageByName(v).value.name) == v
  {
    var i :| 0 <= i < |c.languages| && ToLower(c.languages[i].name) == v;
    ToLowerIdempotent(c.languages[i].name);
  }

  /** The votes `resolve_language` takes from `resolve_languages_by_shebang`. */
  method CastShebangVotes(f: FileProbe, c: InMemoryLanguageContainer) returns (v: seq<string>)
    requires WellFormedProbe(f)
    ensures v == ShebangVotes(f, c)
  {
    var byShebang := ResolveLanguagesByShebang(f.firstLine, f.isShebang, f.multilineExec, c);
    v := [];
    if byShebang.Ok? && byShebang.value.Some? {
      v := LowerNames(byShebang.value.value);
    }
  }

  /** The vote `resolve_language` takes from `resolve_language_by_content`. */
  method CastContentVotes(f: FileProbe, c: InMemoryLanguageContainer, re: RegexEngine) returns (v: seq<string>)
    ensures v == ContentVotes(f, c, re)
  {
    var byContent := ResolveLanguageByContent(f.path, f.text, c, re);
    v := [];
    if byContent.Ok? && byContent.value.Some? {
      v := LowerNames([byContent.value.value]);
    }
  }

  /** The four strategies of `resolve_language`, each adding a vote per language it proposes. */
  method CollectVotes(f: FileProbe, c: InMemoryLanguageContainer, re: RegexEngine)
    returns (probabilities: map<string, nat>)
    requires WellFormedProbe(f)
    ensures probabilities == Tally(map[], Votes(f, c, re))
  {
    var v1 := FilenameVotes(f.path, c);
    probabilities := AddVotes(map[], v1);
    var v2 := CastShebangVotes(f, c);
    probabilities := AddVotes(probabilities, v2);
    var v3 := ExtensionVotes(f.path, c);
    probabilities := AddVotes(probabilities, v3);
    var v4 := CastContentVotes(f, c, re);
    probabilities := AddVotes(probabilities, v4);
    TallyAppend(map[], v1, v2);
    TallyAppend(map[], v1 + v2, v3);
    TallyAppend(map[], v1 + v2 + v3, v4);
  }

  /** The tally is non-empty and its winner is a registered language with the most votes, the
      first registered under that lowercased name. */
  ghost predicate WinsVote(votes: seq<string>, c: InMemoryLanguageContainer, r: Result<Option<Language>, LinguistError>)
    reads c
  {
    (votes == [] ==> r == Err(LanguageNotFound)) &&
    (votes != [] ==>
      r.Ok? && r.value.Some? && r.value.value in c.languages &&
      r.value == c.GetLanguageByName(r.value.value.name) &&
      ToLower(r.value.value.name) in votes &&
      forall v :: v in votes ==> Seqs.Count(votes, v) <= Seqs.Count(votes, ToLower(r.value.value.name)))
  }

  /** The end of `resolve_language`: the most likely name, looked up again in the container. */
  method PickLanguage(probabilities: map<string, nat>, ghost votes: seq<string>, c: InMemoryLanguageContainer)
    returns (r: Result<Option<Language>, LinguistError>)
    requires probabilities == Tally(map[], votes)
    requires forall v :: v in votes ==> Registered(c, v)
    ensures WinsVote(votes, c, r)
  {
    TallyCounts(votes);
    var best := MostLikely(probabilities);
    if best.None? {
      return Err(LanguageNotFound);
    }
    var winner := best.value;
    WinnerIsRegistered(c, winner);
    var lang := c.GetLanguageByName(winner).value;
    c.LookupIgnoresCase(lang.name, winner);
    return Ok(Some(lang));
  }

  /** `resolve_language`: a binary file has no language; otherwise every strategy votes and a
      name with the most votes wins; with no votes at all the language is not found. */
  method ResolveLanguage(f: FileProbe, c: InMemoryLanguageContainer, re: RegexEngine)
    returns (r: Result<Option<Language>, LinguistError>)
    requires WellFormedProbe(f)
    ensures f.access.CannotCanonicalize? || f.access.CannotOpen? ==> r == Err(IOError)
    ensures f.access.ReadBytes? && HasZeroByte(f.access.content[..f.access.count]) ==> r == Ok(None)
    ensures (!f.access.CannotCanonicalize? && !f.access.CannotOpen? &&
             !(f.access.ReadBytes? && HasZeroByte(f.access.content[..f.access.count]))) ==>
      WinsVote(Votes(f, c, re), c, r)
  {
    var binary := IsBinary(f.access);
    if binary.Err? {
      return Err(IOError);
    }
    if binary.value {
      return Ok(None);
    }
    var probabilities := CollectVotes(f, c, re);
    r := PickLanguage(probabilities, Votes(f, c, re), c);
  }
}
