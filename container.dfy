/** The in-memory registry of languages and heuristic rules (linguist/src/container.rs):
    an ordered list of languages plus, per extension, an ordered duplicate-free list of rules. */
module Container {
  import opened Wrappers
  import opened Text
  import opened Paths
  import opened Definitions
  import Seqs

  /** The heuristics map after registering `rule` under `ext`. */
  function WithRule(h: map<string, seq<HeuristicRule>>, ext: string, rule: HeuristicRule)
    : (r: map<string, seq<HeuristicRule>>)
    ensures r.Keys == h.Keys + {ext}
    ensures forall e :: e in h && e != ext ==> r[e] == h[e]
    ensures ext in h && rule in h[ext] ==> r == h
    ensures ext in h && rule !in h[ext] ==> r[ext] == h[ext] + [rule]
    ensures ext !in h ==> r[ext] == [rule]
  {
    if ext in h then
      if rule in h[ext] then h else h[ext := h[ext] + [rule]]
    else
      h[ext := [rule]]
  }

  /** Registering the same rule twice is the same as registering it once. */
  lemma WithRuleIdempotent(h: map<string, seq<HeuristicRule>>, ext: string, rule: HeuristicRule)
    ensures WithRule(WithRule(h, ext, rule), ext, rule) == WithRule(h, ext, rule)
  {
  }

  /** Every rule list is non-empty and free of duplicates. */
  ghost predicate RuleListsWellFormed(h: map<string, seq<HeuristicRule>>) {
    forall e :: e in h ==> h[e] != [] && Seqs.NoDuplicates(h[e])
  }

  /** Registration keeps every rule list non-empty and free of duplicates. */
  lemma WithRuleKeepsWellFormed(h: map<string, seq<HeuristicRule>>, ext: string, rule: HeuristicRule)
    requires RuleListsWellFormed(h)
    ensures RuleListsWellFormed(WithRule(h, ext, rule))
  {
  }

  /** The key `get_languages_by_extension` looks up: the extension, or else the whole file name. */
  function ExtensionKey(file: string): (r: Option<string>)
    ensures r.None? <==> FileName(file).None?
    ensures r.Some? ==> var n := FileName(file).value;
      |r.value| <= |n| && n[|n| - |r.value|..] == r.value
    ensures r.Some? ==> var n := FileName(file).value;
      (r.value == n <==> '.' !in n || (n[0] == '.' && '.' !in n[1..]))
    ensures r.Some? && r.value != FileName(file).value ==> '.' !in r.value
  {
    match Extension(file)
    case Some(ext) => Some(ext)
    case None => FileName(file)
  }

  /** A file name `stem.ext` is looked up by `ext`. */
  lemma ExtensionKeyOfName(p: string, stem: string, ext: string)
    requires FileName(p) == Some(stem + "." + ext)
    requires '.' !in ext && stem != ""
    ensures ExtensionKey(p) == Some(ext)
  {
    ExtensionOfName(p, stem, ext);
  }

  class InMemoryLanguageContainer {
    var languages: seq<Language>
    var heuristics: map<string, seq<HeuristicRule>>

    ghost predicate Valid()
      reads this
    {
      RuleListsWellFormed(heuristics)
    }

    /** `#[derive(Default)]`: no languages, no rules. */
    constructor ()
      ensures Valid()
      ensures languages == [] && heuristics == map[]
    {
      languages := [];
      heuristics := map[];
    }

    /** Appends `lang`; earlier languages and the rules are untouched. */
    method RegisterLanguage(lang: Language)
      requires Valid()
      modifies this
      ensures Valid()
      ensures languages == old(languages) + [lang]
      ensures heuristics == old(heuristics)
    {
      languages := languages + [lang];
    }

    /** Adds `rule` at the end of the list for `ext` unless it is already there. */
    method RegisterHeuristicRule(ext: string, rule: HeuristicRule)
      requires Valid()
      modifies this
      ensures Valid()
      ensures heuristics == WithRule(old(heuristics), ext, rule)
      ensures languages == old(languages)
    {
      WithRuleKeepsWellFormed(heuristics, ext, rule);
      if ext in heuristics {
        if rule !in heuristics[ext] {
          heuristics := heuristics[ext := heuristics[ext] + [rule]];
        }
      } else {
        heuristics := heuristics[ext := [rule]];
      }
    }

    /** The first registered language whose name equals `name` ignoring case. */
    function GetLanguageByName(name: string): (r: Option<Language>)
      reads this
      ensures r.None? <==> forall i :: 0 <= i < |languages| ==> ToLower(languages[i].name) != ToLower(name)
      ensures r.Some? ==>
        exists i :: 0 <= i < |languages| && languages[i] == r.value &&
          ToLower(languages[i].name) == ToLower(name) &&
          forall j :: 0 <= j < i ==> ToLower(languages[j].name) != ToLower(name)
    {
      var lowered := ToLower(name);
      match Seqs.FirstIndex(languages, (l: Language) => ToLower(l.name) == lowered)
      case None => None
      case Some(i) => Some(languages[i])
    }

    /** The lookup depends only on the lowercased name. */
    lemma LookupIgnoresCase(a: string, b: string)
      requires ToLower(a) == ToLower(b)
      ensures GetLanguageByName(a) == GetLanguageByName(b)
    {
      var ra, rb := GetLanguageByName(a), GetLanguageByName(b);
      if ra.Some? {
        var i :| 0 <= i < |languages| && languages[i] == ra.value && ToLower(languages[i].name) == ToLower(a) &&
          forall j :: 0 <= j < i ==> ToLower(languages[j].name) != ToLower(a);
        var k :| 0 <= k < |languages| && languages[k] == rb.value && ToLower(languages[k].name) == ToLower(b) &&
          forall j :: 0 <= j < k ==> ToLower(languages[j].name) != ToLower(b);
        assert !(i < k) && !(k < i);
      }
    }

    /** The languages listing the path's extension (or, without one, its file name),
        in registration order; `None` rather than an empty list. */
    function GetLanguagesByExtension(file: string): (r: Option<seq<Language>>)
      reads this
      ensures ExtensionKey(file).None? ==> r.None?
      ensures r.Some? <==>
        ExtensionKey(file).Some? &&
        exists i :: 0 <= i < |languages| && ExtensionKey(file).value in languages[i].extensions
      ensures r.Some? ==>
        r.value != [] &&
        r.value == Seqs.Filter(languages, (l: Language) => ExtensionKey(file).value in l.extensions)
      ensures r.Some? ==> forall k :: 0 <= k < |r.value| ==>
        r.value[k] in languages && ExtensionKey(file).value in r.value[k].extensions
    {
      match ExtensionKey(file)
      case None => None
      case Some(key) =>
        var candidates := Seqs.Filter(languages, (l: Language) => key in l.extensions);
        if candidates != [] then
          assert candidates[0] in languages;
          Some(candidates)
        else None
    }

    /** The languages listing the whole path, exactly as given, among their file names. */
    function GetLanguagesByFilename(file: string): (r: Option<seq<Language>>)
      reads this
      ensures r.Some? <==> exists i :: 0 <= i < |languages| && file in languages[i].filenames
      ensures r.Some? ==>
        r.value != [] &&
        r.value == Seqs.Filter(languages, (l: Language) => file in l.filenames)
      ensures r.Some? ==> forall k :: 0 <= k < |r.value| ==>
        r.value[k] in languages && file in r.value[k].filenames
    {
      var candidates := Seqs.Filter(languages, (l: Language) => file in l.filenames);
      if candidates != [] then
        assert candidates[0] in languages;
        Some(candidates)
      else None
    }

    /** The rules stored under the path's extension; `None` without an extension. */
    function GetHeuristicsByExtension(file: string): (r: Option<seq<HeuristicRule>>)
      reads this
      ensures Extension(file).None? ==> r.None?
      ensures r.Some? <==> Extension(file).Some? && Extension(file).value in heuristics
      ensures r.Some? ==> r.value == heuristics[Extension(file).value]
      ensures Valid() && r.Some? ==> r.value != [] && Seqs.NoDuplicates(r.value)
    {
      match Extension(file)
      case None => None
      case Some(ext) => if ext in heuristics then Some(heuristics[ext]) else None
    }

    /** The languages listing `interpreter` exactly (case-sensitive), in registration order. */
    function GetLanguagesByInterpreter(interpreter: string): (r: Option<seq<Language>>)
      reads this
      ensures r.Some? <==> exists i :: 0 <= i < |languages| && interpreter in languages[i].interpreters
      ensures r.Some? ==>
        r.value != [] &&
        r.value == Seqs.Filter(languages, (l: Language) => interpreter in l.interpreters)
      ensures r.Some? ==> forall k :: 0 <= k < |r.value| ==>
        r.value[k] in languages && interpreter in r.value[k].interpreters
    {
      var candidates := Seqs.Filter(languages, (l: Language) => interpreter in l.interpreters);
      if candidates != [] then
        assert candidates[0] in languages;
        Some(candidates)
      else None
    }
  }
}
