/** Path and content predicates (linguist/src/utils.rs): configuration extensions, dotfiles,
    vendored paths, binary content, and the two placeholders for documentation and generated files. */
module Utils {
  import opened Wrappers
  import opened Text
  import opened Paths

  newtype byte = x: int | 0 <= x < 256

  /** An uninterpreted regular-expression engine: whether a pattern compiles, and whether a
      compiled pattern matches a text somewhere. */
  datatype RegexEngine = RegexEngine(compiles: string -> bool, isMatch: (string, string) -> bool)

  /** Extensions that mark a configuration file. */
  const ConfigurationExtensions: seq<string> := ["xml", "json", "toml", "yaml", "ini", "sql"]

  /** `is_configuration`: the path has an extension and it is one of the six listed. */
  predicate IsConfiguration(file: string)
    ensures IsConfiguration(file) ==> FileName(file).Some? && '.' in FileName(file).value[1..]
  {
    match Extension(file)
    case Some(ext) => ext in ConfigurationExtensions
    case None => false
  }

  /** A name `stem.ext` with a non-empty stem (`..json` included) is a configuration file exactly
      when `ext` is listed; a name that is only `.json` (a dotfile) has no extension and is not one. */
  lemma ConfigurationByName(p: string, stem: string, ext: string)
    requires FileName(p) == Some(stem + "." + ext)
    requires '.' !in ext
    ensures stem != "" ==> (IsConfiguration(p) <==> ext in ConfigurationExtensions)
    ensures stem == "" ==> !IsConfiguration(p)
  {
    if stem != "" {
      ExtensionOfName(p, stem, ext);
    } else {
      var n := stem + "." + ext;
      assert n[1..] == ext;
    }
  }

  /** `is_documentation`: always false. */
  predicate IsDocumentation(file: string)
    ensures !IsDocumentation(file)
  {
    false
  }

  /** `is_generated`: always false. */
  predicate IsGenerated(file: string)
    ensures !IsGenerated(file)
  {
    false
  }

  /** `is_dotfile`: the file name starts with `.` and is not `.` itself. */
  predicate IsDotfile(file: string)
    ensures IsDotfile(file) ==> FileName(file).Some? && |FileName(file).value| >= 2
  {
    match FileName(file)
    case Some(name) => name[0] == '.' && name != "."
    case None => false
  }

  /** Since a file name is never `.`, the second test of `is_dotfile` never decides anything. */
  lemma DotfileIsLeadingDot(file: string)
    ensures IsDotfile(file) <==> FileName(file).Some? && FileName(file).value[0] == '.'
  {
  }

  /** A dotfile whose only dot is the leading one has no extension. */
  lemma DotfileWithoutExtension(file: string)
    requires IsDotfile(file) && '.' !in FileName(file).value[1..]
    ensures Extension(file).None?
  {
  }

  /** Some rule of `rules` matches `text`. */
  ghost predicate AnyRuleMatches(rules: seq<string>, text: string, re: RegexEngine) {
    exists i :: 0 <= i < |rules| && re.isMatch(rules[i], text)
  }

  /** The scan of `is_vendor` reaches no rule that fails to compile (an `unwrap` there panics). */
  ghost predicate VendorScanCompiles(rules: seq<string>, text: string, re: RegexEngine) {
    forall i :: 0 <= i < |rules| && (forall j :: 0 <= j < i ==> !re.isMatch(rules[j], text)) ==>
      re.compiles(rules[i])
  }

  /** `is_vendor`: true when at least one rule matches the path; an empty list gives false. */
  method IsVendor(file: string, rules: seq<string>, re: RegexEngine) returns (r: bool)
    requires VendorScanCompiles(rules, file, re)
    ensures r <==> AnyRuleMatches(rules, file, re)
    ensures rules == [] ==> !r
  {
    var i := 0;
    while i < |rules|
      invariant 0 <= i <= |rules|
      invariant forall j :: 0 <= j < i ==> !re.isMatch(rules[j], file)
    {
      assert re.compiles(rules[i]);
      if re.isMatch(rules[i], file) {
        return true;
      }
      i := i + 1;
    }
    return false;
  }

  /** The vendor verdict does not depend on the order of the rules. */
  lemma VendorOrderIrrelevant(a: seq<string>, b: seq<string>, text: string, re: RegexEngine)
    requires multiset(a) == multiset(b)
    ensures AnyRuleMatches(a, text, re) <==> AnyRuleMatches(b, text, re)
  {
    if AnyRuleMatches(a, text, re) {
      var i :| 0 <= i < |a| && re.isMatch(a[i], text);
      assert a[i] in multiset(b);
      var j :| 0 <= j < |b| && b[j] == a[i];
    }
    if AnyRuleMatches(b, text, re) {
      var j :| 0 <= j < |b| && re.isMatch(b[j], text);
      assert b[j] in multiset(a);
      var i :| 0 <= i < |a| && a[i] == b[j];
    }
  }

  /** What opening and reading a file gave: a failure at one of the steps, or the file's
      bytes together with the count `read` returned. */
  datatype FileAccess =
    | CannotCanonicalize
    | CannotOpen
    | ReadFailed
    | ReadBytes(content: seq<byte>, count: nat)

  /** A zero byte occurs in `bytes`. */
  predicate HasZeroByte(bytes: seq<byte>) {
    exists i :: 0 <= i < |bytes| && bytes[i] == 0
  }

  /** Size of the buffer `is_binary` reads into. */
  const BinaryProbeSize: nat := 8000

  /** `is_binary`: reads at most 8000 bytes into a buffer and reports whether one is zero. */
  method IsBinary(access: FileAccess) returns (r: Result<bool, ()>)
    requires access.ReadBytes? ==> access.count <= BinaryProbeSize && access.count <= |access.content|
    ensures access.CannotCanonicalize? || access.CannotOpen? ==> r.Err?
    ensures access.ReadFailed? ==> r == Ok(false)
    ensures access.ReadBytes? ==> r == Ok(HasZeroByte(access.content[..access.count]))
  {
    if access.CannotCanonicalize? || access.CannotOpen? {
      return Err(());
    }
    if access.ReadFailed? {
      return Ok(false);
    }
    var buffer := new byte[BinaryProbeSize](_ => 0);
    var n := access.count;
    forall k | 0 <= k < n {
      buffer[k] := access.content[k];
    }
    for i := 0 to n
      invariant forall j :: 0 <= j < n ==> buffer[j] == access.content[j]
      invariant forall j :: 0 <= j < i ==> buffer[j] != 0
    {
      if buffer[i] == 0 {
        assert access.content[..n][i] == 0;
        return Ok(true);
      }
    }
    return Ok(false);
  }
}
