# linguist-rs language identification, modelled in Dafny

This project models the core of linguist-rs. linguist-rs decides which programming language a file is written in, using language definitions taken from GitHub Linguist. The model covers:

- **Registries.** `InMemoryLanguageContainer` (`container.dfy`) holds the languages in registration order plus heuristic rules keyed by extension. `LanguageSet` (`language_set.dfy`) is the simpler ordered list of `LanguageInfo`.
- **Resolution strategies** (`resolver.dfy`):
  - by file name and by extension;
  - by shebang line, reduced to the interpreter it names;
  - by content, where the first matching heuristic rule decides;
  - `resolve_language`, which tallies one vote per candidate under its lowercased name and returns a name with a maximal count.
- **Path predicates** (`utils.dfy`): configuration file, dotfile, vendored path, binary content, documentation and generated files.
- **Conversion of parsed definitions** (`github.dfy`, `serde.dfy`):
  - GitHub Linguist's language definitions become `Language` values;
  - the heuristics document is flattened into an ordered rule list;
  - vendor and documentation pattern lists are filtered;
  - static languages are converted and deserialized maps are named after their keys.
- **The build crate** (`build.dfy`): the `Config` builder, and the writers that turn a `Language` or a `HeuristicRule` into Rust source text. The writers are proved against readers of that text, so a generated literal denotes the value it was written from whenever its texts hold no carriage return. rustc refuses a bare carriage return in a string literal, and reads a carriage return before a line feed as the line feed alone, so the reader refuses one too.

Shared definitions:

- `definitions.dfy`: `Language`, `Scope` and `HeuristicRule`.
- `errors.dfy`: `LinguistError`.
- `paths.dfy`: `Path::file_name` and `Path::extension` as string functions.
- `text.dfy`: ASCII lowercasing, trimming and splitting at Unicode whitespace, and joining.
- `seqs.dfy`: sequence helpers.
- `wrappers.dfy`: `Option` and `Result`.

Where the source changes state in place, the model does too:

- the registries and `Config` are classes whose methods update their fields;
- loops (the `env` argument removal, the vote tally, the flattening and filter loops, the deserialization loop) are methods with loop invariants;
- each such method is proved equal to a specification function, and the properties are proved about that function.

Regular expressions are represented by a `RegexEngine` value: a `compiles` predicate and an `isMatch` predicate, both left abstract. The small fixed expressions of the shebang strategy are written out as character tests.

GitHub Linguist, whose definitions this library uses, applies its strategies as a cascade that narrows the candidates and ends in a Bayesian classifier. linguist-rs does not: `resolve_language` adds votes from each strategy, and it has no classifier, modeline or aggregation code. The model follows linguist-rs.

## Model

| member | source | states |
|---|---|---|
| Container.InMemoryLanguageContainer.constructor | linguist/src/container.rs:24-27 | a new container has no languages and no heuristic rules |
| Container.InMemoryLanguageContainer.RegisterLanguage | linguist/src/container.rs:30-32 | the language is appended after every earlier one; the heuristics map is unchanged |
| Container.WithRule | linguist/src/container.rs:35-44 | keys become the old keys plus the extension; a rule already listed changes nothing; a new rule goes at the end of its extension's list; an unseen extension gets a one-rule list; other extensions keep their lists |
| Container.InMemoryLanguageContainer.RegisterHeuristicRule | linguist/src/container.rs:35-44 | the heuristics map becomes `WithRule` of the old map; the languages are unchanged |
| Container.WithRuleIdempotent | linguist/src/container.rs:35-44 | registering the same rule twice under the same extension is the same as registering it once |
| Container.WithRuleKeepsWellFormed | linguist/src/container.rs:35-44 | registration keeps every extension's rule list free of duplicates |
| Container.InMemoryLanguageContainer.GetLanguageByName | linguist/src/container.rs:48-52 | None exactly when no language's lowercased name equals the lowercased query; otherwise the first such language in registration order |
| Container.InMemoryLanguageContainer.LookupIgnoresCase | linguist/src/container.rs:48-52 | two names with the same lowercase find the same language |
| Paths.FileName | linguist/src/utils.rs:19-24 | the file name is the last normal component of the path, never empty, `.` or `..`, and absent when the path ends in `..` or has no component |
| Paths.Extension | linguist/src/utils.rs:7-9 | the text after the last `.` of the file name; absent when the name has no `.` or its only `.` is the leading one |
| Paths.FileNameOfChild | linguist/src/utils.rs:19-24 | the file name of `dir/name` is `name` |
| Paths.ExtensionOfName | linguist/src/utils.rs:7-9 | a file name `stem.ext`, with a non-empty stem (`.` included, so `..json` has extension `json`) and no dot in `ext`, has extension `ext` |
| Container.ExtensionKey | linguist/src/container.rs:55-61 | a key exists exactly when the path has a file name; it is a suffix of that name; it is the whole name exactly when the name has no dot beyond a leading one, and otherwise holds no dot |
| Container.ExtensionKeyOfName | linguist/src/container.rs:55-61 | a file name `stem.ext` with a non-empty stem (`.` included) and a dot-free `ext` is looked up by `ext` |
| Container.InMemoryLanguageContainer.GetLanguagesByExtension | linguist/src/container.rs:54-74 | Some exactly when a language lists the key; then exactly the languages listing it, in registration order, never an empty list |
| Container.InMemoryLanguageContainer.GetLanguagesByFilename | linguist/src/container.rs:76-91 | Some exactly when a language lists the whole path as given; then all such languages in order, never an empty list |
| Container.InMemoryLanguageContainer.GetHeuristicsByExtension | linguist/src/container.rs:94-102 | None for a path without an extension or with an unregistered one; otherwise exactly the stored list for that extension, which in a valid container is non-empty and free of duplicates |
| Container.InMemoryLanguageContainer.GetLanguagesByInterpreter | linguist/src/container.rs:104-116 | Some exactly when a language lists the interpreter (case-sensitive); then all such languages in order, never an empty list |
| Definitions.ScopeFrom | linguist/src/resolver.rs:46-68 | each of the four scope names maps to its variant exactly when the lowercased input equals it; anything else is Unknown |
| Definitions.ScopeIgnoresCase | linguist/src/resolver.rs:46-68 | inputs with the same lowercase form parse to the same scope |
| Definitions.ScopeDisplay | linguist/src/resolver.rs:70-80 | every scope prints as a non-empty name |
| Definitions.ScopeRoundTrip | linguist/src/resolver.rs:46-80 | printing any of the five scopes and parsing the text back gives the same scope |
| Resolver.ResolveLanguagesByFilename | linguist/src/resolver.rs:95-103 | LanguageNotFound exactly when no language lists the path; otherwise a non-empty list of registered languages that list it |
| Resolver.ResolveLanguagesByExtension | linguist/src/resolver.rs:106-114 | LanguageNotFound exactly when there is no key or no language lists it; otherwise a non-empty list of registered languages that list the key |
| Resolver.RulesVerdict | linguist/src/resolver.rs:127-137 | errors are only LanguageNotFound or a pattern that fails to compile; a language found is a registered one |
| Resolver.FirstMatchDecides | linguist/src/resolver.rs:127-134 | when rule k is the first whose joined patterns match, the verdict is the language named by rule k |
| Resolver.EarlierRuleWins | linguist/src/resolver.rs:127-134 | of two matching rules, the earlier one decides |
| Resolver.NoMatchIsNotFound | linguist/src/resolver.rs:127-137 | when no rule matches, the verdict is LanguageNotFound |
| Resolver.UnknownRuleLanguage | linguist/src/resolver.rs:131-133 | a deciding rule whose language is not registered gives Ok(None) |
| Resolver.ContentVerdict | linguist/src/resolver.rs:118-138 | unreadable content gives FileNotFound; no rules for the extension gives LanguageNotFound; a language found is registered |
| Resolver.ResolveLanguageByContent | linguist/src/resolver.rs:118-138 | the rule loop with early return computes `ContentVerdict` |
| Resolver.DropEnvArguments | linguist/src/resolver.rs:180-187 | the program is kept; at least two fields remain; only option and `$VAR` arguments directly after the program are removed; they are removed only while more than two fields remain; the rest keeps its order |
| Resolver.SkipEnvArguments | linguist/src/resolver.rs:180-187 | the in-place removal loop computes `DropEnvArguments` |
| Resolver.DigitRun | linguist/src/resolver.rs:201 | the length of the longest prefix of ASCII digits |
| Resolver.PythonVersionCut | linguist/src/resolver.rs:201-204 | `python` followed by digits and a dot is cut at that dot |
| Resolver.OsascriptWithLanguageFlag | linguist/src/resolver.rs:207-209 | `osascript` on a line containing `-l` becomes the empty interpreter |
| Resolver.RewriteInterpreter | linguist/src/resolver.rs:196-209 | the `sh`, python-version and `osascript` rewrites compute `NormaliseInterpreter` |
| Resolver.ShebangInterpreter | linguist/src/resolver.rs:155-209 | no shebang or no field gives no interpreter; a lone `env` gives none; a first program other than `env` gives that program's normalised name; `env` followed by fields gives the normalised name of the first field left after the `env` arguments; whenever the source's file-name unwraps succeed, it agrees with the source's extraction |
| Resolver.FieldsInterpreter | linguist/src/resolver.rs:161-194 | an interpreter is found only when there is a first field with a file name, and it never carries a python version suffix; a lone `env` gives none |
| Resolver.ShebangInterpreterAsWritten | linguist/src/resolver.rs:155-209 | the source's extraction, with its file-name unwraps as a precondition: an interpreter comes only from a shebang line with a field, and carries no python version suffix |
| Resolver.NormaliseInterpreter | linguist/src/resolver.rs:196-209 | the result never carries a python version suffix; a name other than `sh` with no version suffix is kept unless it is `osascript` on a line containing `-l`; `sh` is replaced by the multiline interpreter under the same conditions |
| Resolver.ExtractInterpreter | linguist/src/resolver.rs:155-209 | the extraction with its `env` loop computes `ShebangInterpreter` |
| Resolver.ShebangVerdict | linguist/src/resolver.rs:141-217 | an unopenable file is exactly the IOError case; a language list found is non-empty and registered |
| Resolver.ResolveLanguagesByShebang | linguist/src/resolver.rs:141-217 | computes `ShebangVerdict` |
| Resolver.Bump | linguist/src/resolver.rs:233-235 | one vote adds the name to the keys; a counted name goes up by one, a new name starts at 2; other names keep their counts |
| Resolver.Tally | linguist/src/resolver.rs:229-258 | the keys become the old keys plus the voted names; names without a vote keep their counts; no count goes down |
| Resolver.TallyAppend | linguist/src/resolver.rs:229-258 | tallying two vote lists in turn equals tallying their concatenation, so the strategies' votes accumulate into one count |
| Resolver.TallyCounts | linguist/src/resolver.rs:229-258 | the counted names are exactly the voted names; no votes leave the map empty; each name counts 1 plus its number of votes |
| Resolver.AddVotes | linguist/src/resolver.rs:231-237 | the per-candidate insertion loop computes `Tally` |
| Resolver.MostLikely | linguist/src/resolver.rs:261-266 | None exactly for an empty map; otherwise a name whose count is maximal |
| Resolver.LowerNamesRegistered | linguist/src/resolver.rs:234 | every lowercased candidate name belongs to a registered language |
| Resolver.LowerNames | linguist/src/resolver.rs:232-234 | one vote per candidate, in order: its name lowercased |
| Resolver.FilenameVotes | linguist/src/resolver.rs:231-237 | every file-name vote is the lowercased name of a registered language |
| Resolver.ShebangVotes | linguist/src/resolver.rs:239-245 | every shebang vote is the lowercased name of a registered language |
| Resolver.ExtensionVotes | linguist/src/resolver.rs:247-253 | every extension vote is the lowercased name of a registered language |
| Resolver.ContentVotes | linguist/src/resolver.rs:255-259 | the content vote, if any, is the lowercased name of a registered language |
| Resolver.CastShebangVotes | linguist/src/resolver.rs:239-245 | the loop over the shebang candidates computes `ShebangVotes` |
| Resolver.CastContentVotes | linguist/src/resolver.rs:255-259 | the content strategy's vote computes `ContentVotes` |
| Resolver.Votes | linguist/src/resolver.rs:231-259 | every vote from the four strategies is the lowercased name of a registered language |
| Resolver.WinnerIsRegistered | linguist/src/resolver.rs:268-270 | looking up a voted name finds a language with that lowercased name, so the final `unwrap` cannot fail |
| Resolver.CollectVotes | linguist/src/resolver.rs:229-259 | the counts are the tally of all votes from the four strategies |
| Resolver.PickLanguage | linguist/src/resolver.rs:261-273 | no votes gives LanguageNotFound; otherwise a registered language whose lowercased name has a maximal count, the first registered under that name |
| Resolver.ResolveLanguage | linguist/src/resolver.rs:221-274 | an unreadable file gives IOError; a binary file gives Ok(None) before any strategy; otherwise the result wins the vote: the first registered language under a name with a maximal count |
| Resolver.RootShebangPanics | linguist/src/resolver.rs:165-170 | the line `#!/` fails the file-name unwrap of the source |
| Resolver.RootShebangHasNoInterpreter | linguist/src/resolver.rs:161-170 | the corrected extraction gives no interpreter for `#!/` |
| Utils.IsConfiguration | linguist/src/utils.rs:4-12 | a configuration file has a file name with a dot after its first character |
| Utils.ConfigurationByName | linguist/src/utils.rs:4-12 | a file name `stem.ext` with a non-empty stem (`..json` included) is a configuration file exactly when `ext` is one of xml, json, toml, yaml, ini, sql; a name that is only `.ext` has no extension and is not one |
| Utils.IsDocumentation | linguist/src/utils.rs:14-16 | no file is documentation |
| Utils.IsDotfile | linguist/src/utils.rs:19-29 | a dotfile has a file name of at least two characters |
| Utils.DotfileIsLeadingDot | linguist/src/utils.rs:19-29 | a dotfile is exactly a path whose file name starts with `.` |
| Utils.DotfileWithoutExtension | linguist/src/utils.rs:19-29 | a dotfile with no further dot has no extension |
| Utils.IsVendor | linguist/src/utils.rs:32-44 | true exactly when some rule matches the path; false for no rules |
| Utils.VendorOrderIrrelevant | linguist/src/utils.rs:32-44 | the verdict does not depend on the order of the rules |
| Utils.IsBinary | linguist/src/utils.rs:48-70 | canonicalize or open failures give Err; a failed read gives Ok(false); otherwise true exactly when a zero byte is among the bytes read into the 8000-byte buffer |
| Utils.IsGenerated | linguist/src/utils.rs:72-74 | no file is generated |
| LanguageSets.LanguageSet.constructor | linguist/src/lib.rs:23-34 | a new set is empty |
| LanguageSets.LanguageSet.RegisterLanguage | linguist/src/lib.rs:73-79 | appends, duplicates included, and returns Ok |
| LanguageSets.WithoutFirstNamed | linguist/src/lib.rs:81-90 | no change when the name is absent; otherwise one entry fewer; nothing new appears |
| LanguageSets.WithoutFirstNamedAt | linguist/src/lib.rs:81-90 | the result is the list with exactly the first entry of that name cut out, the rest in order |
| LanguageSets.RemovalDropsOneNamed | linguist/src/lib.rs:81-90 | entries with other names are kept in order; the count of that name drops by one, or stays zero |
| LanguageSets.LanguageSet.RemoveLanguageByName | linguist/src/lib.rs:81-90 | the position search and removal give `WithoutFirstNamed` of the old list, and return Ok |
| LanguageSets.FirstWithExtension | linguist/src/lib.rs:92-102 | None exactly when no language lists the extension; otherwise the earliest one that does |
| LanguageSets.FirstExtensionIndex | linguist/src/lib.rs:92-102 | the earliest index whose extensions contain the argument determines the result |
| LanguageSets.RegisteredIsFound | linguist/src/lib.rs:73-102 | registering a language does not change an existing answer, and answers a query no earlier language answered |
| LanguageSets.LanguageSet.ResolveLanguageByExtension | linguist/src/lib.rs:92-102 | computes `FirstWithExtension`: a registered language listing the extension, or None exactly when none does |
| LanguageSets.InfoOf | linguist/src/lib.rs:61-66 | the entry takes its name from the key; scope and colour are copied; a missing extension list becomes empty |
| LanguageSets.LanguageSet.LoadFromPath | linguist/src/lib.rs:38-71 | a missing path is exactly FileNotFound; a parse failure gives an empty set; otherwise one entry per key, with distinct names, each equal to `InfoOf` its definition |
| Serde.FromStaticLanguage | linguist/src/serde.rs:22-58 | name, parent and colour are copied; scope is `ScopeFrom` of the scope text; each absent list becomes empty and each present list is copied in order |
| Serde.AbsentIsEmpty | linguist/src/serde.rs:50-54 | an absent list and an empty present list convert alike |
| Serde.Renamed | linguist/src/serde.rs:81 | the language takes the given name |
| Serde.DeserializeLanguages | linguist/src/serde.rs:64-91 | a parse failure gives DeserializationError; Ok exactly when every conversion succeeds; then one language per key, named after its key, with distinct names covering all keys |
| Serde.DeserializeStrings | linguist/src/serde.rs:94-104 | a parse failure is exactly DeserializationError; otherwise the parsed list unchanged |
| Github.NormaliseRemovesFirstDot | linguist/src/github.rs:45 | only the first `.` of an extension is removed, wherever it is; later dots stay |
| Github.NormaliseExtensions | linguist/src/github.rs:41-46 | every extension is normalised, in order |
| Github.GhTryInto | linguist/src/github.rs:25-50 | conversion always succeeds; absent lists become empty; `group` becomes `parent`; scope goes through `ScopeFrom`; extensions lose their first dot |
| Github.LoadGithubLinguistLanguages | linguist/src/github.rs:52-61 | a missing path gives FileNotFound; otherwise the deserialization of the parsed map with `GhTryInto`, which is Ok exactly when the document parsed |
| Github.SingletonRendersAlone | linguist/src/github.rs:84-107 | a one-element multiple value renders like the single value |
| Github.DisplaySplits | linguist/src/github.rs:84-107 | a multiple value renders as its elements joined by `\|`, recovered by splitting at `\|` when no element contains one |
| Github.JoinSplitRoundTrip | linguist/src/github.rs:88 | splitting a `\|`-joined list of `\|`-free strings gives the list back |
| Github.ResolvedNames | linguist/src/github.rs:164-173 | resolving references yields at most one pattern per reference |
| Github.UnknownNamesSkipped | linguist/src/github.rs:164-173 | references to unknown named patterns are skipped: the result equals resolving only the known ones, one pattern each |
| Github.AndPatternsStep | linguist/src/github.rs:155-178 | each `and` entry adds its own pattern and then its resolved references after those of the earlier entries |
| Github.RuleLanguageName | linguist/src/github.rs:132-137 | a single-language rule keeps its name; a rule naming several languages gets the empty name |
| Github.RuleOf | linguist/src/github.rs:132-153 | the emitted rule's language is `RuleLanguageName` of the rule's, so a multi-language rule gets an empty name; the extensions are the disambiguation's, each normalised; the patterns are the rule's pattern list |
| Github.RulePatternsOrder | linguist/src/github.rs:151-178 | the rule's own pattern, when present, comes first and the `and` patterns end the list; without `and` entries there is at most the own pattern |
| Github.NormaliseExtension | linguist/src/github.rs:145 | a dot-free extension is unchanged; a leading dot is dropped; an extension with a dot loses exactly one character |
| Github.DisambiguationRules | linguist/src/github.rs:131-180 | one emitted rule per rule of a disambiguation, in document order |
| Github.Flatten | linguist/src/github.rs:130-180 | flattening emits exactly as many rules as the document has (disambiguation, rule) pairs |
| Github.FlattenPlacesEveryRule | linguist/src/github.rs:130-180 | rule `ri` of disambiguation `di` is emitted at the position after all rules of earlier disambiguations |
| Github.RuleCountPrefix | linguist/src/github.rs:130-131 | the earlier disambiguations hold no more rules than the whole document |
| Github.ResolveReferences | linguist/src/github.rs:162-175 | the loop over a reference computes `ResolvedNames` |
| Github.PushEntry | linguist/src/github.rs:156-176 | pushing one `and` entry computes `EntryPatterns` |
| Github.PushAndEntries | linguist/src/github.rs:155-178 | the loop over the `and` entries computes `AndPatterns` |
| Github.BuildPatterns | linguist/src/github.rs:151-178 | the pattern pushes for one rule compute `RulePatterns` |
| Github.PushDisambiguation | linguist/src/github.rs:131-179 | the inner loop appends, after the rules already built, the rules of one disambiguation in order |
| Github.LoadGithubLinguistHeuristics | linguist/src/github.rs:122-185 | an unreadable file gives IOError; a document that fails to parse gives Ok of no rules; otherwise Ok of the flattened document |
| Github.KeepSupported | linguist/src/github.rs:191-196 | keeps exactly the entries not flagged as unsupported, in order |
| Github.KeptExactlySupported | linguist/src/github.rs:191-196 | an entry survives exactly when it was in the list and is supported |
| Github.LoadGithubVendors | linguist/src/github.rs:187-199 | an unreadable file gives IOError; otherwise the supported entries in order |
| Github.LoadGithubDocumentation | linguist/src/github.rs:201-213 | an unreadable file gives IOError; otherwise the supported entries in order |
| Build.Config.constructor | linguist-build/src/lib.rs:34-41 | a new configuration has the given output path and no definitions |
| Build.Config.AddDefinition | linguist-build/src/lib.rs:81-84 | exactly one definition is appended; earlier definitions and the output path are unchanged |
| Build.PlainNeedsNoEscape | linguist-build/src/lib.rs:350 | escaping leaves a text with no `\` and no `"` unchanged |
| Build.EscapePattern | linguist-build/src/lib.rs:350 | a pattern with no backslash and no quote is written unchanged |
| Build.EscapePatternIsEscape | linguist-build/src/lib.rs:350 | replacing backslashes first and then quotes escapes every character in one pass |
| Build.QuotesFirstIsWrong | linguist-build/src/lib.rs:350 | for every pattern holding a quote, the opposite order (quotes first) gives a different text than the escape, because the backslash inserted before each quote is doubled again |
| Build.EscapeLength | linguist-build/src/lib.rs:350 | the escape adds exactly one character per backslash and per quote |
| Build.QuoteEscapeAddsBackslashes | linguist-build/src/lib.rs:350 | escaping quotes adds exactly one backslash per quote |
| Build.ReplaceAllLength | linguist-build/src/lib.rs:350 | replacing a character by a two-character text lengthens the text by one per occurrence |
| Build.ReadEscaped | linguist-build/src/lib.rs:350 | an escaped text holding no carriage return, followed by a closing quote, is read back as the original text |
| Build.EscapedCarriageReturnIsRefused | linguist-build/src/lib.rs:350 | an escaped text holding a carriage return is refused by the literal reader, as rustc refuses it |
| Build.PatternLiteralRoundTrip | linguist-build/src/lib.rs:341-359 | every pattern holding no carriage return, whatever quotes or backslashes it holds, is read back from its generated literal |
| Build.CarriageReturnIsRefused | linguist-build/src/lib.rs:341-359 | a pattern holding a carriage return is not read back from its generated literal |
| Build.ParseRenderedItems | linguist-build/src/lib.rs:233-301 | a non-empty list of quoted items, none holding a carriage return, joined by `", "` is read back item for item |
| Build.WriteLanguageDefinition | linguist-build/src/lib.rs:221-312 | the text starts with `&StaticLanguage {` and ends with `}` |
| Build.ParseOptionFieldOf | linguist-build/src/lib.rs:225-229 | an optional text field holding no quote, backslash or carriage return is read back as written, `None` included |
| Build.ParseListFieldOf | linguist-build/src/lib.rs:233-301 | an empty list is written as `None` and a non-empty one as `Some(&[...])`; both are read back when no item holds a quote, backslash or carriage return |
| Build.LanguageLiteralRoundTrip | linguist-build/src/lib.rs:221-312 | reading a generated language literal gives its fields in the order written, with empty lists read as absent, when its texts hold no quote, backslash or carriage return |
| Build.ScopeDisplayIsPlain | linguist-build/src/lib.rs:251 | the printed scope needs no escaping and holds no carriage return |
| Build.GenerateThenLoad | linguist-build/src/lib.rs:221-312 | converting the read-back literal to a `Language` gives back the language it was written from, scope and empty lists included, when its texts hold no quote, backslash or carriage return |
| Build.ParseExtensionsField | linguist-build/src/lib.rs:321-339 | the extensions field is read back as written, `vec![]` for none, when no extension holds a quote, backslash or carriage return |
| Build.ParsePatternsField | linguist-build/src/lib.rs:341-359 | the patterns field is read back as written, `vec![]` for none, whatever quotes or backslashes the patterns hold, as long as none holds a carriage return |
| Build.WriteHeuristicDefinition | linguist-build/src/lib.rs:315-363 | the text starts with `HeuristicRule {language: "` and ends with `}` |
| Build.HeuristicLiteralRoundTrip | linguist-build/src/lib.rs:315-363 | a generated rule literal is read back as the rule it was written from, when its language and extensions hold no quote, backslash or carriage return and its patterns no carriage return |
| Build.QuotedLanguageIsCut | linguist-build/src/lib.rs:319 | a quote in a language name, which is written verbatim, ends the name early, so the rule is not read back as written; a carriage return in the name stops the reading altogether |

## Left out

- Reading files, opening them and parsing YAML are left out. Each operation takes what it would have read as a parameter: a file-exists flag, the parsed map or list as an `Option` (None for a parse failure), the first line, the content, or the bytes read.
- `Config::default` reads the `OUT_DIR` environment variable; the constructor takes the output path as a parameter instead.
- Downloading definitions and writing the generated files (`download_from_url`, `generate_*`, `generate` in linguist-build) are network and file I/O and are left out.
- Regular expressions are not interpreted. Compilation and matching are the `compiles` and `isMatch` predicates of a `RegexEngine` parameter.
- The helpers `has_shebang`, `determine_multiline_exec` and `is_unsupported_regex_syntax` are not part of this model. Their results are parameters (`isShebang`, `multilineExec`, `unsupported`). The `unwrap` on `determine_multiline_exec` is taken to succeed.
- Lowercasing is ASCII only. Unicode case mapping and the UTF-8 conversions that `unwrap` (`to_str`) are left out, because paths and names are modelled as strings.
- Utils.IsVendor: only the compile `unwrap` is a precondition (`VendorScanCompiles`). The match `unwrap` is not modelled: `isMatch` is total, while `fancy_regex` can return an error from `is_match` (for example when its backtracking limit is exceeded), and the source then panics.
- Github.LoadGithubVendors and Github.LoadGithubDocumentation: a YAML list that fails to parse panics in the source; the model takes the parsed list, so that panic is not modelled.
- LanguageSets.LanguageSet.LoadFromPath: the read `expect` is not modelled, and a definition map is taken in place of the file's text.
- Resolver.MostLikely and Resolver.PickLanguage: hash-map iteration order decides between names with equal counts. The model picks some maximal name and does not say which.
- Serde.DeserializeLanguages and LanguageSets.LanguageSet.LoadFromPath: for the same reason the output order is unspecified, and the contracts state membership and naming, not order.
- Utils.IsBinary: the source turns its unit error into the caller's error with `?`, and no conversion from `()` into `LinguistError` is among these files; `resolve_language` maps it to IOError.
- Build.GenerateThenLoad and Build.HeuristicLiteralRoundTrip: language names, aliases, extensions, file names, interpreters, colours and parents are written verbatim, without escaping. The round trips therefore require these texts to hold no quote or backslash (`Plain`); Build.QuotedLanguageIsCut shows what happens otherwise.
- Build.ReadLiteral, Build.ReadEscaped, Build.PatternLiteralRoundTrip, Build.ParseRenderedItems, Build.ParseOptionFieldOf, Build.ParseListFieldOf, Build.LanguageLiteralRoundTrip, Build.GenerateThenLoad, Build.ParseExtensionsField, Build.ParsePatternsField and Build.HeuristicLiteralRoundTrip: a text holding a carriage return is outside the round trips. rustc rejects a bare carriage return in a string literal and reads CR LF as LF, so such a literal does not denote its text. The reader refuses the carriage return (Build.CarriageReturnIsRefused), and every round trip requires its texts to be free of one (`LiteralSafe`, part of `Plain`).
- Resolver.ShebangVerdict, Resolver.ResolveLanguagesByShebang, Resolver.ShebangVotes and Resolver.ResolveLanguage use the corrected extraction (`ShebangInterpreter`). A first line whose program, or whose program after `env`, has no file name (`#!/`, `#!.`, `#!..`, `#!/usr/bin/env ..`) gives Ok(None) or no vote there, where the source panics (see Findings).
- The `debug!` logging of the ordered probabilities is left out.
- `linguist/src/error.rs` is mirrored as the `LinguistError` datatype; its conversions carry no behaviour to prove.
- The demo program under `examples/gh-linguist` calls functions that are not part of this model, and is left out.

## Findings

| source | as written | input that shows it | evidently intended | confidence | as-written member | corrected member |
|---|---|---|---|---|---|---|
| linguist/src/resolver.rs:165-170 | the program token's `Path::file_name` is unwrapped, and the same is done for the token after `env` at lines 188-192 | a file whose first line is `#!/`: the token `/` has no file name, so resolving by shebang panics | treat a program without a file name like a line with no program, giving `Ok(None)` | not executed | Resolver.RootShebangPanics | Resolver.RootShebangHasNoInterpreter |
