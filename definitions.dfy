/** Language definitions and heuristic rules, the records every other part of the
    library passes around, and the textual form of a language's scope. */
module Definitions {
  import opened Wrappers
  import opened Text

  /** The type of a language. */
  datatype Scope = Programming | Markup | Data | Prose | Unknown

  /** A language definition: identity plus the keys it is found by. */
  datatype Language = Language(
    parent: Option<string>,
    name: string,
    aliases: seq<string>,
    scope: Scope,
    extensions: seq<string>,
    filenames: seq<string>,
    interpreters: seq<string>,
    color: Option<string>)

  /** A content check: when any of `patterns` matches, the file is `language`. */
  datatype HeuristicRule = HeuristicRule(
    language: string,
    extensions: seq<string>,
    patterns: seq<string>)

  /** `Scope::from` of a `String` or a `&str` (the two conversions are identical):
      the four known type names, in any letter case, and `Unknown` for anything else. */
  function ScopeFrom(value: string): (r: Scope)
    ensures r == Programming <==> ToLower(value) == "programming"
    ensures r == Markup <==> ToLower(value) == "markup"
    ensures r == Data <==> ToLower(value) == "data"
    ensures r == Prose <==> ToLower(value) == "prose"
  {
    match ToLower(value)
    case "programming" => Programming
    case "markup" => Markup
    case "data" => Data
    case "prose" => Prose
    case _ => Unknown
  }

  /** `Display for Scope`. */
  function ScopeDisplay(s: Scope): (r: string)
    ensures r != []
  {
    match s
    case Programming => "Programming"
    case Markup => "Markup"
    case Data => "Data"
    case Prose => "Prose"
    case Unknown => "Unknown"
  }

  /** Printing a scope and parsing it back gives the same scope, `Unknown` included. */
  lemma ScopeRoundTrip(s: Scope)
    ensures ScopeFrom(ScopeDisplay(s)) == s
  {
    match s
    case Programming =>
      assert ToLower("Programming") == "programming";
    case Markup =>
      assert ToLower("Markup") == "markup";
    case Data =>
      assert ToLower("Data") == "data";
    case Prose =>
      assert ToLower("Prose") == "prose";
    case Unknown =>
      var l := ToLower("Unknown");
      assert l[0] == 'u';
  }

  /** Parsing depends only on the lowercased text. */
  lemma ScopeIgnoresCase(a: string, b: string)
    requires ToLower(a) == ToLower(b)
    ensures ScopeFrom(a) == ScopeFrom(b)
  {
  }
}
