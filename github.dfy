/** Loading GitHub Linguist's data files (linguist/src/github.rs) once they have been parsed:
    language definitions, the heuristics document flattened into `HeuristicRule`s, and the
    vendor and documentation pattern lists. */
module Github {
  import opened Wrappers
  import opened Text
  import opened Paths
  import opened Errors
  import opened Definitions
  import opened Serde
  import Seqs

  // ---------------------------------------------------------------------------
  // Language definitions

  /** One entry of GitHub Linguist's `languages.yml`; `name` is never read from the document. */
  datatype GhLanguageDef = GhLanguageDef(
    color: Option<string>,
    name: string,
    scope: string,
    aliases: Option<seq<string>>,
    extensions: Option<seq<string>>,
    filenames: Option<seq<string>>,
    interpreters: Option<seq<string>>,
    group: Option<string>)

  /** An extension as `Path::extension` reports it: the first `.` removed. */
  function NormaliseExtension(ext: string): (r: string)
    ensures '.' !in ext ==> r == ext
    ensures ext != [] && ext[0] == '.' ==> r == ext[1..]
    ensures '.' in ext ==> |r| == |ext| - 1
  {
    RemoveFirst(ext, '.')
  }

  /** Only the first dot goes, wherever it is; later dots stay. */
  lemma NormaliseRemovesFirstDot(before: string, after: string)
    requires '.' !in before
    ensures NormaliseExtension(before + "." + after) == before + after
  {
    var s := before + "." + after;
    assert s[|before|] == '.';
    assert s[..|before|] == before;
    assert IndexOf(s, '.') == |before|;
    assert s[|before| + 1..] == after;
  }

  function NormaliseExtensions(exts: seq<string>): (r: seq<string>)
    ensures |r| == |exts| && forall k :: 0 <= k < |exts| ==> r[k] == NormaliseExtension(exts[k])
  {
    Seqs.Map(exts, NormaliseExtension)
  }

  /** `TryInto<Language> for GhLanguageDef`: it never fails. */
  function GhTryInto(def: GhLanguageDef): (r: Result<Language, LinguistError>)
    ensures r.Ok?
    ensures r.value.name == def.name && r.value.color == def.color && r.value.parent == def.group
    ensures r.value.scope == ScopeFrom(def.scope)
    ensures (def.aliases.None? ==> r.value.aliases == []) && (def.aliases.Some? ==> r.value.aliases == def.aliases.value)
    ensures (def.filenames.None? ==> r.value.filenames == []) &&
            (def.filenames.Some? ==> r.value.filenames == def.filenames.value)
    ensures (def.interpreters.None? ==> r.value.interpreters == []) &&
            (def.interpreters.Some? ==> r.value.interpreters == def.interpreters.value)
    ensures (def.extensions.None? ==> r.value.extensions == []) &&
            (def.extensions.Some? ==> r.value.extensions == NormaliseExtensions(def.extensions.value))
  {
    Ok(Language(
      def.group,
      def.name,
      def.aliases.GetOr([]),
      ScopeFrom(def.scope),
      NormaliseExtensions(def.extensions.GetOr([])),
      def.filenames.GetOr([]),
      def.interpreters.GetOr([]),
      def.color))
  }

  /** `load_github_linguist_languages` after parsing: a missing file is FileNotFound; otherwise
      `deserialize_languages` with the conversion above, which succeeds whenever the document parses. */
  method LoadGithubLinguistLanguages(exists_: bool, parsed: Option<map<string, GhLanguageDef>>)
    returns (r: Result<seq<Language>, LinguistError>)
    ensures !exists_ ==> r == Err(FileNotFound)
    ensures exists_ ==> DeserializedFrom(parsed, GhTryInto, r)
    ensures exists_ ==> (r.Ok? <==> parsed.Some?)
  {
    if !exists_ {
      return Err(FileNotFound);
    }
    r := DeserializeLanguages(parsed, GhTryInto);
  }

  // ---------------------------------------------------------------------------
  // The heuristics document

  /** The language of a rule: one name or several. */
  datatype RuleLanguage = LanguageName(name: string) | LanguageNames(names: seq<string>)

  /** A pattern: one regular expression or several alternatives. */
  datatype PatternValue = Pattern(pattern: string) | Patterns(patterns: seq<string>)

  /** An `and` entry: its own pattern and/or a reference to named patterns. */
  datatype NamedPattern = NamedPattern(pattern: Option<string>, namedPattern: Option<PatternValue>)

  datatype Rule = Rule(language: RuleLanguage, andRules: Option<seq<NamedPattern>>, pattern: Option<PatternValue>)

  datatype Disambiguation = Disambiguation(extensions: seq<string>, rules: seq<Rule>)

  datatype YamlContent = YamlContent(disambiguations: seq<Disambiguation>, namedPatterns: map<string, RuleLanguage>)

  /** `Display for RuleLanguage`: a single value as it is, several joined by `|`. */
  function RuleLanguageDisplay(l: RuleLanguage): string {
    match l
    case LanguageName(v) => v
    case LanguageNames(vs) => Join(vs, "|")
  }

  /** `Display for PatternValue`, the same rendering. */
  function PatternValueDisplay(p: PatternValue): string {
    match p
    case Pattern(v) => v
    case Patterns(vs) => Join(vs, "|")
  }

  /** A one-element list renders as its single value. */
  lemma SingletonRendersAlone(v: string)
    ensures RuleLanguageDisplay(LanguageNames([v])) == RuleLanguageDisplay(LanguageName(v))
    ensures PatternValueDisplay(Patterns([v])) == PatternValueDisplay(Pattern(v))
  {
  }

  /** Splitting a rendered list of several values at `|` gives the values back, when none of them
      contains `|` itself. */
  lemma {:induction false} JoinSplitRoundTrip(vs: seq<string>)
    requires vs != [] && forall k :: 0 <= k < |vs| ==> '|' !in vs[k]
    ensures Split(Join(vs, "|"), '|') == vs
  {
    if |vs| > 1 {
      JoinSplitRoundTrip(vs[1..]);
      assert Join(vs, "|") == vs[0] + ['|'] + Join(vs[1..], "|");
      SplitAtFirst(vs[0], Join(vs[1..], "|"), '|');
      assert [vs[0]] + vs[1..] == vs;
    }
  }

  /** Renderings of a rule language and of a pattern round-trip through splitting at `|`. */
  lemma DisplaySplits(vs: seq<string>)
    requires vs != [] && forall k :: 0 <= k < |vs| ==> '|' !in vs[k]
    ensures Split(RuleLanguageDisplay(LanguageNames(vs)), '|') == vs
    ensures Split(PatternValueDisplay(Patterns(vs)), '|') == vs
  {
    JoinSplitRoundTrip(vs);
  }

  /** The language recorded for a rule: several languages are recorded as the empty name. */
  function RuleLanguageName(l: RuleLanguage): (r: string)
    ensures l.LanguageName? ==> r == l.name
    ensures l.LanguageNames? ==> r == ""
  {
    match l
    case LanguageName(v) => v
    case LanguageNames(_) => ""
  }

  /** The renderings of the named patterns `names` refers to, unknown names skipped. */
  function ResolvedNames(names: seq<string>, named: map<string, RuleLanguage>): (r: seq<string>)
    ensures |r| <= |names|
    decreases |names|
  {
    if names == [] then []
    else
      var last := names[|names| - 1];
      ResolvedNames(names[..|names| - 1], named) +
        (if last in named then [RuleLanguageDisplay(named[last])] else [])
  }

  /** Unknown references contribute nothing: resolving only the known names gives the same list. */
  lemma {:induction false} UnknownNamesSkipped(names: seq<string>, named: map<string, RuleLanguage>)
    ensures ResolvedNames(names, named) == ResolvedNames(Seqs.Filter(names, (n: string) => n in named), named)
    ensures |ResolvedNames(names, named)| == |Seqs.Filter(names, (n: string) => n in named)|
    decreases |names|
  {
    if names != [] {
      var init := names[..|names| - 1];
      var last := names[|names| - 1];
      assert names == init + [last];
      UnknownNamesSkipped(init, named);
      Seqs.FilterAppend(init, [last], (n: string) => n in named);
      var known := Seqs.Filter(init, (n: string) => n in named);
      if last in named {
        assert Seqs.Filter([last], (n: string) => n in named) == [last];
        assert (known + [last])[..|known + [last]| - 1] == known;
      } else {
        assert Seqs.Filter([last], (n: string) => n in named) == [];
        assert known + [] == known;
      }
    }
  }

  /** The names a named-pattern reference lists. */
  function ReferencedNames(p: PatternValue): seq<string> {
    match p
    case Pattern(v) => [v]
    case Patterns(vs) => vs
  }

  /** The entry's own pattern, if it has one. */
  function OwnPattern(entry: NamedPattern): seq<string> {
    if entry.pattern.Some? then [entry.pattern.value] else []
  }

  /** The resolved named patterns of the entry's reference, if it has one. */
  function ReferencePatterns(entry: NamedPattern, named: map<string, RuleLanguage>): seq<string> {
    if entry.namedPattern.Some? then ResolvedNames(ReferencedNames(entry.namedPattern.value), named) else []
  }

  /** Patterns one `and` entry contributes: its own pattern, then its resolved reference(s). */
  function EntryPatterns(entry: NamedPattern, named: map<string, RuleLanguage>): seq<string> {
    OwnPattern(entry) + ReferencePatterns(entry, named)
  }

  /** Patterns all `and` entries contribute, entry after entry. */
  function AndPatterns(entries: seq<NamedPattern>, named: map<string, RuleLanguage>): seq<string>
    decreases |entries|
  {
    if entries == [] then []
    else AndPatterns(entries[..|entries| - 1], named) + EntryPatterns(entries[|entries| - 1], named)
  }

  lemma AndPatternsStep(refs: seq<NamedPattern>, i: nat, named: map<string, RuleLanguage>)
    requires i < |refs|
    ensures AndPatterns(refs[..i + 1], named) == AndPatterns(refs[..i], named) + EntryPatterns(refs[i], named)
  {
    assert refs[..i + 1][..i] == refs[..i];
  }

  /** The patterns of an emitted rule: the rule's own pattern first, then the `and` entries. */
  function RulePatterns(rule: Rule, named: map<string, RuleLanguage>): seq<string> {
    (match rule.pattern
     case Some(p) => [PatternValueDisplay(p)]
     case None => []) +
    (match rule.andRules
     case Some(entries) => AndPatterns(entries, named)
     case None => [])
  }

  /** The rule emitted for `rule` of `d`. */
  function RuleOf(d: Disambiguation, rule: Rule, named: map<string, RuleLanguage>): (r: HeuristicRule)
    ensures r.extensions == NormaliseExtensions(d.extensions)
    ensures r.language == RuleLanguageName(rule.language)
    ensures r.patterns == RulePatterns(rule, named)
  {
    HeuristicRule(RuleLanguageName(rule.language), NormaliseExtensions(d.extensions), RulePatterns(rule, named))
  }

  /** A rule's own pattern comes first and its `and` patterns end the list. */
  lemma RulePatternsOrder(rule: Rule, named: map<string, RuleLanguage>)
    ensures var ps := RulePatterns(rule, named);
      rule.pattern.Some? ==> ps != [] && ps[0] == PatternValueDisplay(rule.pattern.value)
    ensures rule.andRules.None? ==> |RulePatterns(rule, named)| == (if rule.pattern.Some? then 1 else 0)
    ensures var ps := RulePatterns(rule, named);
      rule.andRules.Some? ==> var tail := AndPatterns(rule.andRules.value, named);
        |tail| <= |ps| && ps[|ps| - |tail|..] == tail
  {
  }

  /** The rules emitted for one disambiguation, one per rule in order. */
  function DisambiguationRules(d: Disambiguation, named: map<string, RuleLanguage>): (r: seq<HeuristicRule>)
    ensures |r| == |d.rules| && forall k :: 0 <= k < |d.rules| ==> r[k] == RuleOf(d, d.rules[k], named)
  {
    seq(|d.rules|, k requires 0 <= k < |d.rules| => RuleOf(d, d.rules[k], named))
  }

  /** The rules emitted for a whole document, disambiguation after disambiguation. */
  function Flatten(ds: seq<Disambiguation>, named: map<string, RuleLanguage>): (r: seq<HeuristicRule>)
    ensures |r| == RuleCount(ds)
    decreases |ds|
  {
    if ds == [] then [] else Flatten(ds[..|ds| - 1], named) + DisambiguationRules(ds[|ds| - 1], named)
  }

  /** Number of (disambiguation, rule) pairs in `ds`. */
  function RuleCount(ds: seq<Disambiguation>): nat
    decreases |ds|
  {
    if ds == [] then 0 else RuleCount(ds[..|ds| - 1]) + |ds[|ds| - 1].rules|
  }

  lemma {:induction false} RuleCountPrefix(ds: seq<Disambiguation>, n: nat)
    requires n <= |ds|
    ensures RuleCount(ds[..n]) <= RuleCount(ds)
    decreases |ds|
  {
    if n < |ds| {
      assert ds[..|ds| - 1][..n] == ds[..n];
      RuleCountPrefix(ds[..|ds| - 1], n);
    } else {
      assert ds[..n] == ds;
    }
  }

  /** Exactly one rule per (disambiguation, rule) pair, in document order: the `ri`-th rule of the
      `di`-th disambiguation sits after the rules of all disambiguations before it, and carries
      that disambiguation's whole extension list. */
  lemma {:induction false} FlattenPlacesEveryRule(ds: seq<Disambiguation>, named: map<string, RuleLanguage>,
                                                  di: nat, ri: nat)
    requires di < |ds| && ri < |ds[di].rules|
    ensures |Flatten(ds, named)| == RuleCount(ds)
    ensures RuleCount(ds[..di]) + ri < RuleCount(ds)
    ensures Flatten(ds, named)[RuleCount(ds[..di]) + ri] == RuleOf(ds[di], ds[di].rules[ri], named)
    decreases |ds|
  {
    var init := ds[..|ds| - 1];
    if di == |ds| - 1 {
      assert ds[..di] == init;
      FlattenLastRules(ds, named, ri);
    } else {
      assert init[di] == ds[di];
      assert init[..di] == ds[..di];
      FlattenPlacesEveryRule(init, named, di, ri);
      FlattenKeepsEarlier(ds, named, RuleCount(ds[..di]) + ri);
    }
  }

  /** The rules of the last disambiguation follow those of the earlier ones. */
  lemma FlattenLastRules(ds: seq<Disambiguation>, named: map<string, RuleLanguage>, ri: nat)
    requires ds != [] && ri < |ds[|ds| - 1].rules|
    ensures RuleCount(ds[..|ds| - 1]) + ri < |Flatten(ds, named)|
    ensures Flatten(ds, named)[RuleCount(ds[..|ds| - 1]) + ri] == DisambiguationRules(ds[|ds| - 1], named)[ri]
  {
    var earlier, last := Flatten(ds[..|ds| - 1], named), DisambiguationRules(ds[|ds| - 1], named);
    assert Flatten(ds, named) == earlier + last;
  }

  /** Appending a disambiguation keeps the rules already emitted in place. */
  lemma FlattenKeepsEarlier(ds: seq<Disambiguation>, named: map<string, RuleLanguage>, i: nat)
    requires ds != [] && i < RuleCount(ds[..|ds| - 1])
    ensures i < |Flatten(ds, named)|
    ensures Flatten(ds, named)[i] == Flatten(ds[..|ds| - 1], named)[i]
  {
    var earlier, last := Flatten(ds[..|ds| - 1], named), DisambiguationRules(ds[|ds| - 1], named);
    assert (earlier + last)[i] == earlier[i];
  }

  /** The inner loop over the names of a `Patterns` reference. */
  method ResolveReferences(vs: seq<string>, named: map<string, RuleLanguage>) returns (patterns: seq<string>)
    ensures patterns == ResolvedNames(vs, named)
  {
    patterns := [];
    for j := 0 to |vs|
      invariant patterns == ResolvedNames(vs[..j], named)
    {
      assert vs[..j + 1][..j] == vs[..j];
      if vs[j] in named {
        patterns := patterns + [RuleLanguageDisplay(named[vs[j]])];
      }
    }
    assert vs[..|vs|] == vs;
  }

  /** What one `and` entry pushes. */
  method PushEntry(entry: NamedPattern, named: map<string, RuleLanguage>) returns (patterns: seq<string>)
    ensures patterns == EntryPatterns(entry, named)
  {
    patterns := [];
    if entry.pattern.Some? {
      patterns := [entry.pattern.value];
    }
    if entry.namedPattern.Some? {
      match entry.namedPattern.value {
        case Pattern(v) =>
          assert ResolvedNames([v], named) ==
            ResolvedNames([], named) + (if v in named then [RuleLanguageDisplay(named[v])] else []);
          if v in named {
            patterns := patterns + [RuleLanguageDisplay(named[v])];
          }
        case Patterns(vs) =>
          var resolved := ResolveReferences(vs, named);
          patterns := patterns + resolved;
      }
    }
    assert patterns == OwnPattern(entry) + ReferencePatterns(entry, named);
  }

  /** The loop over the `and` entries of a rule. */
  method PushAndEntries(refs: seq<NamedPattern>, named: map<string, RuleLanguage>) returns (patterns: seq<string>)
    ensures patterns == AndPatterns(refs, named)
  {
    patterns := [];
    for i := 0 to |refs|
      invariant patterns == AndPatterns(refs[..i], named)
    {
      AndPatternsStep(refs, i, named);
      var pushed := PushEntry(refs[i], named);
      patterns := patterns + pushed;
    }
    assert refs[..|refs|] == refs;
  }

  /** The pattern list of one rule, built by pushing as `load_github_linguist_heuristics` does. */
  method BuildPatterns(rule: Rule, named: map<string, RuleLanguage>) returns (patterns: seq<string>)
    ensures patterns == RulePatterns(rule, named)
  {
    patterns := [];
    if rule.pattern.Some? {
      patterns := [PatternValueDisplay(rule.pattern.value)];
    }
    if rule.andRules.Some? {
      var pushed := PushAndEntries(rule.andRules.value, named);
      patterns := patterns + pushed;
    }
  }

  /** The inner loop of `load_github_linguist_heuristics`: one rule pushed per rule of `d`. */
  method PushDisambiguation(start: seq<HeuristicRule>, d: Disambiguation, named: map<string, RuleLanguage>)
    returns (rules: seq<HeuristicRule>)
    ensures rules == start + DisambiguationRules(d, named)
  {
    rules := start;
    var extensions := NormaliseExtensions(d.extensions);
    for j := 0 to |d.rules|
      invariant rules == start + DisambiguationRules(d, named)[..j]
    {
      var rule := d.rules[j];
      var patterns := BuildPatterns(rule, named);
      rules := rules + [HeuristicRule(RuleLanguageName(rule.language), extensions, patterns)];
      assert DisambiguationRules(d, named)[..j + 1] ==
             DisambiguationRules(d, named)[..j] + [RuleOf(d, rule, named)];
    }
    assert DisambiguationRules(d, named)[..|d.rules|] == DisambiguationRules(d, named);
  }

  /** `load_github_linguist_heuristics` after reading and parsing: an unreadable file is an I/O
      error, a document that does not parse gives no rules, and otherwise the flattened rules. */
  method LoadGithubLinguistHeuristics(readable: bool, doc: Option<YamlContent>)
    returns (r: Result<seq<HeuristicRule>, LinguistError>)
    ensures !readable ==> r == Err(IOError)
    ensures readable && doc.None? ==> r == Ok([])
    ensures readable && doc.Some? ==> r == Ok(Flatten(doc.value.disambiguations, doc.value.namedPatterns))
  {
    if !readable {
      return Err(IOError);
    }
    var rules: seq<HeuristicRule> := [];
    if doc.Some? {
      var data := doc.value;
      var ds := data.disambiguations;
      for i := 0 to |ds|
        invariant rules == Flatten(ds[..i], data.namedPatterns)
      {
        assert ds[..i + 1][..i] == ds[..i];
        rules := PushDisambiguation(rules, ds[i], data.namedPatterns);
      }
      assert ds[..|ds|] == ds;
    }
    return Ok(rules);
  }

  // ---------------------------------------------------------------------------
  // Vendor and documentation patterns

  /** The filter loop of both pattern loaders: the entries not flagged as unsupported regular
      expression syntax, in their order. */
  method KeepSupported(raw: seq<string>, unsupported: string -> bool) returns (data: seq<string>)
    ensures data == Seqs.Filter(raw, (p: string) => !unsupported(p))
  {
    data := [];
    for i := 0 to |raw|
      invariant data == Seqs.Filter(raw[..i], (p: string) => !unsupported(p))
    {
      assert raw[..i + 1] == raw[..i] + [raw[i]];
      Seqs.FilterAppend(raw[..i], [raw[i]], (p: string) => !unsupported(p));
      if !unsupported(raw[i]) {
        data := data + [raw[i]];
      }
    }
    assert raw[..|raw|] == raw;
  }

  /** Every supported entry is kept, every unsupported one dropped, and nothing else appears. */
  lemma KeptExactlySupported(raw: seq<string>, unsupported: string -> bool)
    ensures forall p :: p in Seqs.Filter(raw, (q: string) => !unsupported(q)) <==> p in raw && !unsupported(p)
  {
    var kept := Seqs.Filter(raw, (q: string) => !unsupported(q));
    forall p | p in raw && !unsupported(p)
      ensures p in kept
    {
      var i :| 0 <= i < |raw| && raw[i] == p;
    }
  }

  /** `load_github_vendors` after reading and parsing. */
  method LoadGithubVendors(readable: bool, raw: seq<string>, unsupported: string -> bool)
    returns (r: Result<seq<string>, LinguistError>)
    ensures !readable ==> r == Err(IOError)
    ensures readable ==> r == Ok(Seqs.Filter(raw, (p: string) => !unsupported(p)))
  {
    if !readable {
      return Err(IOError);
    }
    var data := KeepSupported(raw, unsupported);
    return Ok(data);
  }

  /** `load_github_documentation` after reading and parsing: the same filter. */
  method LoadGithubDocumentation(readable: bool, raw: seq<string>, unsupported: string -> bool)
    returns (r: Result<seq<string>, LinguistError>)
    ensures !readable ==> r == Err(IOError)
    ensures readable ==> r == Ok(Seqs.Filter(raw, (p: string) => !unsupported(p)))
  {
    if !readable {
      return Err(IOError);
    }
    var data := KeepSupported(raw, unsupported);
    return Ok(data);
  }
}
