/** The code generator of linguist-build/src/lib.rs: its configuration, and the Rust source text
    it writes for a language definition and for a heuristic rule, together with a reader for that
    text that shows what the generated literals denote once compiled and loaded again. */
module Build {
  import opened Wrappers
  import opened Text
  import opened Definitions
  import opened Serde
  import Seqs

  // ---------------------------------------------------------------------------
  // Configuration

  /** Where a definition comes from: a local file or a URL to download. */
  datatype Location = PathLocation(path: string) | UrlLocation(url: string)

  /** The artifact a definition generates. */
  datatype Kind = Languages | Heuristics | Vendors | Documentation

  datatype Definition = Definition(name: string, location: Location, kind: Kind)

  class Config {
    var outPath: string
    var definitions: seq<Definition>

    /** `Config::new`/`Default`, given the value of `OUT_DIR`: no definitions yet. */
    constructor (outDir: string)
      ensures outPath == outDir && definitions == []
    {
      outPath := outDir;
      definitions := [];
    }

    /** `add_definition`: appends one definition and keeps everything else. */
    method AddDefinition(definition: Definition)
      modifies this
      ensures definitions == old(definitions) + [definition]
      ensures outPath == old(outPath)
    {
      definitions := definitions + [definition];
    }
  }

  // ---------------------------------------------------------------------------
  // Rust string literals

  /** One character as it must appear inside a Rust string literal of the generated code. */
  function EscapeChar(c: char): string {
    if c == '\\' then "\\\\" else if c == '"' then "\\\"" else [c]
  }

  /** The literal body denoting `s`: backslashes and quotes are preceded by a backslash. */
  function Escape(s: string): (r: string)
    ensures |r| >= |s|
  {
    if s == [] then [] else EscapeChar(s[0]) + Escape(s[1..])
  }

  /** How `write_heuristic_definition` escapes a pattern: backslashes doubled, then quotes escaped. */
  function EscapePattern(p: string): (r: string)
    ensures '\\' !in p && '"' !in p ==> r == p
  {
    ReplaceAll(ReplaceAll(p, '\\', "\\\\"), '"', "\\\"")
  }

  /** The two replacements in that order escape every character correctly. */
  lemma {:induction false} EscapePatternIsEscape(p: string)
    ensures EscapePattern(p) == Escape(p)
  {
    if p != [] {
      var head := if p[0] == '\\' then "\\\\" else [p[0]];
      var tail := ReplaceAll(p[1..], '\\', "\\\\");
      assert ReplaceAll(p, '\\', "\\\\") == head + tail;
      ReplaceAllAppend(head, tail, '"', "\\\"");
      if p[0] == '"' {
        assert ReplaceAll(head, '"', "\\\"") == "\\\"" + ReplaceAll([], '"', "\\\"");
      }
      EscapePatternIsEscape(p[1..]);
    }
  }

  /** The opposite order: quotes escaped first, then backslashes doubled. */
  function QuotesFirstEscape(p: string): string {
    ReplaceAll(ReplaceAll(p, '"', "\\\""), '\\', "\\\\")
  }

  /** The opposite order is wrong for every pattern holding a quote: the backslash added in front
      of the quote is doubled again, so the text is longer than the escape. */
  lemma QuotesFirstIsWrong(p: string)
    requires '"' in p
    ensures QuotesFirstEscape(p) != Escape(p)
  {
    var once := ReplaceAll(p, '"', "\\\"");
    ReplaceAllLength(p, '"', "\\\"");
    ReplaceAllLength(once, '\\', "\\\\");
    QuoteEscapeAddsBackslashes(p);
    EscapeLength(p);
  }

  /** Replacing a character by two characters adds one character per occurrence. */
  lemma {:induction false} ReplaceAllLength(s: string, c: char, rep: string)
    requires |rep| == 2
    ensures |ReplaceAll(s, c, rep)| == |s| + Seqs.Count(s, c)
  {
    if s != [] {
      ReplaceAllLength(s[1..], c, rep);
    }
  }

  /** Escaping quotes adds one backslash per quote. */
  lemma {:induction false} QuoteEscapeAddsBackslashes(s: string)
    ensures Seqs.Count(ReplaceAll(s, '"', "\\\""), '\\') == Seqs.Count(s, '\\') + Seqs.Count(s, '"')
  {
    if s != [] {
      var head := if s[0] == '"' then "\\\"" else [s[0]];
      assert ReplaceAll(s, '"', "\\\"") == head + ReplaceAll(s[1..], '"', "\\\"");
      Seqs.CountAppend(head, ReplaceAll(s[1..], '"', "\\\""), '\\');
      if s[0] == '"' {
        assert Seqs.Count(head, '\\') == 1 by {
          assert head[1..] == "\"";
          assert head[1..][1..] == [];
        }
      }
      QuoteEscapeAddsBackslashes(s[1..]);
    }
  }

  /** The escape adds one backslash per backslash and per quote. */
  lemma {:induction false} EscapeLength(s: string)
    ensures |Escape(s)| == |s| + Seqs.Count(s, '\\') + Seqs.Count(s, '"')
  {
    if s != [] {
      EscapeLength(s[1..]);
    }
  }

  /** Text that a Rust string literal can hold as written: rustc rejects a bare carriage return
      in a literal and reads a carriage return before a line feed as the line feed alone. */
  predicate LiteralSafe(s: string) {
    '\r' !in s
  }

  /** Text that needs no escaping. */
  predicate Unescaped(s: string) {
    '"' !in s && '\\' !in s
  }

  /** Text that needs no escaping, and that a literal holds as written. */
  predicate Plain(s: string) {
    Unescaped(s) && LiteralSafe(s)
  }

  lemma {:induction false} PlainNeedsNoEscape(s: string)
    requires Unescaped(s)
    ensures Escape(s) == s
  {
    if s != [] {
      assert s == [s[0]] + s[1..];
      PlainNeedsNoEscape(s[1..]);
    }
  }

  /** A value read from the front of a text, and the text after it. */
  datatype Parsed<T> = Parsed(value: T, rest: string)

  /** Reads the body of a string literal up to its closing quote, decoding `\\` and `\"`; a
      carriage return in the body is refused, as rustc refuses it. */
  function ReadLiteral(s: string): (r: Option<Parsed<string>>)
    ensures r.Some? ==> |r.value.rest| < |s|
    decreases |s|
  {
    if s == [] then None
    else if s[0] == '"' then Some(Parsed([], s[1..]))
    else if s[0] == '\r' then None
    else if s[0] == '\\' then
      if |s| >= 2 && (s[1] == '\\' || s[1] == '"') then
        match ReadLiteral(s[2..])
        case None => None
        case Some(p) => Some(Parsed([s[1]] + p.value, p.rest))
      else None
    else
      match ReadLiteral(s[1..])
      case None => None
      case Some(p) => Some(Parsed([s[0]] + p.value, p.rest))
  }

  /** Reading an escaped literal gives back the original text: escaping round-trips. */
  lemma {:induction false} ReadEscaped(p: string, rest: string)
    requires LiteralSafe(p)
    ensures ReadLiteral(Escape(p) + "\"" + rest) == Some(Parsed(p, rest))
  {
    var s := Escape(p) + "\"" + rest;
    if p == [] {
      assert s == "\"" + rest;
      assert s[1..] == rest;
    } else {
      ReadEscaped(p[1..], rest);
      var tail := Escape(p[1..]) + "\"" + rest;
      assert s == EscapeChar(p[0]) + tail;
      if p[0] == '\\' || p[0] == '"' {
        assert s[2..] == tail;
      } else {
        assert s[1..] == tail;
      }
      assert [p[0]] + p[1..] == p;
    }
  }

  /** Unescaping the emitted pattern literal returns the pattern. */
  lemma PatternLiteralRoundTrip(p: string, rest: string)
    requires LiteralSafe(p)
    ensures ReadLiteral(EscapePattern(p) + "\"" + rest) == Some(Parsed(p, rest))
  {
    EscapePatternIsEscape(p);
    ReadEscaped(p, rest);
  }

  /** An escaped text holding a carriage return is not read back: the reader refuses the literal. */
  lemma {:induction false} EscapedCarriageReturnIsRefused(p: string, rest: string)
    requires !LiteralSafe(p)
    ensures ReadLiteral(Escape(p) + "\"" + rest).None?
  {
    var s := Escape(p) + "\"" + rest;
    var tail := Escape(p[1..]) + "\"" + rest;
    assert s == EscapeChar(p[0]) + tail;
    if p[0] != '\r' {
      assert p == [p[0]] + p[1..];
      EscapedCarriageReturnIsRefused(p[1..], rest);
      if p[0] == '\\' || p[0] == '"' {
        assert s[2..] == tail;
      } else {
        assert s[1..] == tail;
      }
    }
  }

  /** A pattern holding a carriage return is not read back from its generated literal. */
  lemma CarriageReturnIsRefused(p: string, rest: string)
    requires !LiteralSafe(p)
    ensures ReadLiteral(EscapePattern(p) + "\"" + rest).None?
  {
    EscapePatternIsEscape(p);
    EscapedCarriageReturnIsRefused(p, rest);
  }

  /** What remains after the literal text `lit`, if the text starts with it. */
  function Expect(lit: string, s: string): (r: Option<string>)
    ensures r.Some? ==> |r.value| == |s| - |lit|
  {
    if StartsWith(s, lit) then Some(s[|lit|..]) else None
  }

  lemma ExpectPrefix(lit: string, rest: string)
    ensures Expect(lit, lit + rest) == Some(rest)
  {
    assert (lit + rest)[..|lit|] == lit;
    assert (lit + rest)[|lit|..] == rest;
  }

  // ---------------------------------------------------------------------------
  // Lists of quoted items

  /** An item of a generated list: `pre`, a quoted literal, then `post`. */
  function ParseItem(s: string, pre: string, post: string): (r: Option<Parsed<string>>)
    ensures r.Some? ==> |r.value.rest| < |s|
  {
    match Expect(pre + "\"", s)
    case None => None
    case Some(s1) =>
      match ReadLiteral(s1)
      case None => None
      case Some(lit) =>
        match Expect(post, lit.rest)
        case None => None
        case Some(s2) => Some(Parsed(lit.value, s2))
  }

  /** Items separated by `", "`. */
  function ParseItems(s: string, pre: string, post: string): (r: Option<Parsed<seq<string>>>)
    ensures r.Some? ==> |r.value.rest| < |s|
    decreases |s|
  {
    match ParseItem(s, pre, post)
    case None => None
    case Some(item) =>
      if StartsWith(item.rest, ", ") then
        match ParseItems(item.rest[2..], pre, post)
        case None => None
        case Some(more) => Some(Parsed([item.value] + more.value, more.rest))
      else Some(Parsed([item.value], item.rest))
  }

  /** The text of an item whose literal body is the escaped value. */
  function ItemText(pre: string, x: string, post: string): string {
    pre + "\"" + Escape(x) + "\"" + post
  }

  lemma ParseItemText(pre: string, x: string, post: string, rest: string)
    requires LiteralSafe(x)
    ensures ParseItem(ItemText(pre, x, post) + rest, pre, post) == Some(Parsed(x, rest))
  {
    var s := ItemText(pre, x, post) + rest;
    assert s == (pre + "\"") + (Escape(x) + "\"" + (post + rest));
    ExpectPrefix(pre + "\"", Escape(x) + "\"" + (post + rest));
    ReadEscaped(x, post + rest);
    ExpectPrefix(post, rest);
  }

  /** A rendered non-empty list is read back item for item, when `render` writes each item as an
      escaped literal between `pre` and `post` and the text after the list does not go on with
      another separator. */
  lemma {:induction false} ParseRenderedItems(xs: seq<string>, render: string -> string, pre: string, post: string,
                                              rest: string)
    requires xs != []
    requires forall k :: 0 <= k < |xs| ==> render(xs[k]) == ItemText(pre, xs[k], post)
    requires forall k :: 0 <= k < |xs| ==> LiteralSafe(xs[k])
    requires !StartsWith(rest, ", ")
    ensures ParseItems(Join(Seqs.Map(xs, render), ", ") + rest, pre, post) == Some(Parsed(xs, rest))
    decreases |xs|
  {
    var rendered := Seqs.Map(xs, render);
    if |xs| == 1 {
      assert Join(rendered, ", ") == ItemText(pre, xs[0], post);
      ParseItemText(pre, xs[0], post, rest);
      assert xs == [xs[0]];
    } else {
      assert rendered[1..] == Seqs.Map(xs[1..], render);
      var more := Join(Seqs.Map(xs[1..], render), ", ");
      assert Join(rendered, ", ") + rest == ItemText(pre, xs[0], post) + (", " + (more + rest));
      ParseItemText(pre, xs[0], post, ", " + (more + rest));
      assert (", " + (more + rest))[..2] == ", ";
      assert (", " + (more + rest))[2..] == more + rest;
      ParseRenderedItems(xs[1..], render, pre, post, rest);
      assert [xs[0]] + xs[1..] == xs;
    }
  }

  /** A rendered list starts with the first item's `pre` and quote. */
  lemma RenderedItemsStart(xs: seq<string>, render: string -> string, pre: string, post: string)
    requires xs != []
    requires forall k :: 0 <= k < |xs| ==> render(xs[k]) == ItemText(pre, xs[k], post)
    ensures StartsWith(Join(Seqs.Map(xs, render), ", "), pre + "\"")
  {
    var rendered := Seqs.Map(xs, render);
    var first := ItemText(pre, xs[0], post);
    if |xs| == 1 {
      assert Join(rendered, ", ") == first;
    } else {
      assert Join(rendered, ", ") == first + ", " + Join(rendered[1..], ", ");
    }
    assert first[..|pre| + 1] == pre + "\"";
  }

  // ---------------------------------------------------------------------------
  // write_language_definition

  /** `format!("\"{}\"", s)`: the text inserted verbatim between quotes. */
  function Quote(x: string): string {
    "\"" + x + "\""
  }

  /** An optional text field: `key: Some("x")` or `key: None`, then `tail`. */
  function OptionField(key: string, v: Option<string>, tail: string): string {
    match v
    case Some(x) => key + ": Some(\"" + x + "\")" + tail
    case None => key + ": None" + tail
  }

  /** A text field: `key: "x", `. */
  function TextField(key: string, x: string): string {
    key + ": \"" + x + "\", "
  }

  /** A list field: `key: None, ` when empty, else `key: Some(&[...]), ` of quoted items. */
  function ListField(key: string, xs: seq<string>): string {
    if xs == [] then key + ": None, "
    else key + ": Some(&[" + Join(Seqs.Map(xs, Quote), ", ") + "]), "
  }

  /** `write_language_definition`: a `StaticLanguage` literal with the fields in a fixed order. */
  function WriteLanguageDefinition(lang: Language): (r: string)
    ensures StartsWith(r, "&StaticLanguage {") && r[|r| - 1] == '}'
  {
    var r := "&StaticLanguage {" +
      (OptionField("parent", lang.parent, ", ") +
      (TextField("name", lang.name) +
      (ListField("aliases", lang.aliases) +
      (TextField("scope", ScopeDisplay(lang.scope)) +
      (ListField("extensions", lang.extensions) +
      (ListField("filenames", lang.filenames) +
      (ListField("interpreters", lang.interpreters) +
      (OptionField("color", lang.color, " ") + "}"))))))));
    assert r[..17] == "&StaticLanguage {";
    r
  }

  function ParseOptionField(s: string, key: string, tail: string): Option<Parsed<Option<string>>> {
    match Expect(key + ": None" + tail, s)
    case Some(r) => Some(Parsed(None, r))
    case None =>
      match Expect(key + ": Some(\"", s)
      case None => None
      case Some(s1) =>
        match ReadLiteral(s1)
        case None => None
        case Some(lit) =>
          match Expect(")" + tail, lit.rest)
          case None => None
          case Some(s2) => Some(Parsed(Some(lit.value), s2))
  }

  function ParseTextField(s: string, key: string): Option<Parsed<string>> {
    match Expect(key + ": \"", s)
    case None => None
    case Some(s1) =>
      match ReadLiteral(s1)
      case None => None
      case Some(lit) =>
        match Expect(", ", lit.rest)
        case None => None
        case Some(s2) => Some(Parsed(lit.value, s2))
  }

  function ParseListField(s: string, key: string): Option<Parsed<Option<seq<string>>>> {
    match Expect(key + ": None, ", s)
    case Some(r) => Some(Parsed(None, r))
    case None =>
      match Expect(key + ": Some(&[", s)
      case None => None
      case Some(s1) =>
        match ParseItems(s1, "", "")
        case None => None
        case Some(items) =>
          match Expect("]), ", items.rest)
          case None => None
          case Some(s2) => Some(Parsed(Some(items.value), s2))
  }

  lemma ParseOptionFieldOf(key: string, v: Option<string>, tail: string, rest: string)
    requires v.Some? ==> Plain(v.value)
    ensures ParseOptionField(OptionField(key, v, tail) + rest, key, tail) == Some(Parsed(v, rest))
  {
    match v
    case None =>
      assert OptionField(key, v, tail) + rest == (key + ": None" + tail) + rest;
      ExpectPrefix(key + ": None" + tail, rest);
    case Some(x) =>
      ParsePresentOption(key, x, tail, rest);
  }

  lemma ParsePresentOption(key: string, x: string, tail: string, rest: string)
    requires Plain(x)
    ensures ParseOptionField(OptionField(key, Some(x), tail) + rest, key, tail) == Some(Parsed(Some(x), rest))
  {
    PlainNeedsNoEscape(x);
    var s := OptionField(key, Some(x), tail) + rest;
    var none := key + ": None" + tail;
    assert s[|key| + 2] == 'S';
    assert none[|key| + 2] == 'N';
    assert Expect(none, s).None?;
    var after := Escape(x) + "\"" + ((")" + tail) + rest);
    assert s == (key + ": Some(\"") + after;
    ExpectPrefix(key + ": Some(\"", after);
    ReadEscaped(x, (")" + tail) + rest);
    ExpectPrefix(")" + tail, rest);
  }

  lemma ParseTextFieldOf(key: string, x: string, rest: string)
    requires Plain(x)
    ensures ParseTextField(TextField(key, x) + rest, key) == Some(Parsed(x, rest))
  {
    PlainNeedsNoEscape(x);
    var s := TextField(key, x) + rest;
    assert s == (key + ": \"") + (Escape(x) + "\"" + (", " + rest));
    ExpectPrefix(key + ": \"", Escape(x) + "\"" + (", " + rest));
    ReadEscaped(x, ", " + rest);
    ExpectPrefix(", ", rest);
  }

  /** The list that a generated list field denotes: `None` for an empty list. */
  function NonEmpty(xs: seq<string>): Option<seq<string>> {
    if xs == [] then None else Some(xs)
  }

  lemma ParseListFieldOf(key: string, xs: seq<string>, rest: string)
    requires forall k :: 0 <= k < |xs| ==> Plain(xs[k])
    ensures ParseListField(ListField(key, xs) + rest, key) == Some(Parsed(NonEmpty(xs), rest))
  {
    if xs == [] {
      ExpectPrefix(key + ": None, ", rest);
    } else {
      ParsePresentList(key, xs, rest);
    }
  }

  lemma ParsePresentList(key: string, xs: seq<string>, rest: string)
    requires xs != [] && forall k :: 0 <= k < |xs| ==> Plain(xs[k])
    ensures ParseListField(ListField(key, xs) + rest, key) == Some(Parsed(Some(xs), rest))
  {
    var items := Join(Seqs.Map(xs, Quote), ", ");
    var s := ListField(key, xs) + rest;
    assert s == (key + ": Some(&[") + (items + ("]), " + rest));
    var none := key + ": None, ";
    assert s[|key| + 2] == 'S';
    assert none[|key| + 2] == 'N';
    assert Expect(none, s).None?;
    ExpectPrefix(key + ": Some(&[", items + ("]), " + rest));
    QuotedItems(xs);
    assert ("]), " + rest)[0] == ']';
    ParseRenderedItems(xs, Quote, "", "", "]), " + rest);
    ExpectPrefix("]), ", rest);
  }

  /** For text without quotes or backslashes, quoting is writing an item literal. */
  lemma QuotedItems(xs: seq<string>)
    requires forall k :: 0 <= k < |xs| ==> Unescaped(xs[k])
    ensures forall k :: 0 <= k < |xs| ==> Quote(xs[k]) == ItemText("", xs[k], "")
  {
    forall k | 0 <= k < |xs|
      ensures Quote(xs[k]) == ItemText("", xs[k], "")
    {
      PlainNeedsNoEscape(xs[k]);
    }
  }

  /** Reads a generated `StaticLanguage` literal, field after field. */
  function ParseLanguageDefinition(s: string): Option<StaticLanguage> {
    match Expect("&StaticLanguage {", s)
    case None => None
    case Some(s0) => ReadParent(s0, StaticLanguage("", "", None, None, None, None, None, None))
  }

  function ReadParent(s: string, acc: StaticLanguage): Option<StaticLanguage> {
    match ParseOptionField(s, "parent", ", ")
    case None => None
    case Some(f) => ReadName(f.rest, acc.(parent := f.value))
  }

  function ReadName(s: string, acc: StaticLanguage): Option<StaticLanguage> {
    match ParseTextField(s, "name")
    case None => None
    case Some(f) => ReadAliases(f.rest, acc.(name := f.value))
  }

  function ReadAliases(s: string, acc: StaticLanguage): Option<StaticLanguage> {
    match ParseListField(s, "aliases")
    case None => None
    case Some(f) => ReadScope(f.rest, acc.(aliases := f.value))
  }

  function ReadScope(s: string, acc: StaticLanguage): Option<StaticLanguage> {
    match ParseTextField(s, "scope")
    case None => None
    case Some(f) => ReadExtensions(f.rest, acc.(scope := f.value))
  }

  function ReadExtensions(s: string, acc: StaticLanguage): Option<StaticLanguage> {
    match ParseListField(s, "extensions")
    case None => None
    case Some(f) => ReadFilenames(f.rest, acc.(extensions := f.value))
  }

  function ReadFilenames(s: string, acc: StaticLanguage): Option<StaticLanguage> {
    match ParseListField(s, "filenames")
    case None => None
    case Some(f) => ReadInterpreters(f.rest, acc.(filenames := f.value))
  }

  function ReadInterpreters(s: string, acc: StaticLanguage): Option<StaticLanguage> {
    match ParseListField(s, "interpreters")
    case None => None
    case Some(f) => ReadColor(f.rest, acc.(interpreters := f.value))
  }

  function ReadColor(s: string, acc: StaticLanguage): Option<StaticLanguage> {
    match ParseOptionField(s, "color", " ")
    case None => None
    case Some(f) => if f.rest == "}" then Some(acc.(color := f.value)) else None
  }

  /** A language all of whose texts are written into the literal without escaping problems. */
  predicate PlainLanguage(lang: Language) {
    (lang.parent.Some? ==> Plain(lang.parent.value)) &&
    Plain(lang.name) &&
    (forall k :: 0 <= k < |lang.aliases| ==> Plain(lang.aliases[k])) &&
    (forall k :: 0 <= k < |lang.extensions| ==> Plain(lang.extensions[k])) &&
    (forall k :: 0 <= k < |lang.filenames| ==> Plain(lang.filenames[k])) &&
    (forall k :: 0 <= k < |lang.interpreters| ==> Plain(lang.interpreters[k])) &&
    (lang.color.Some? ==> Plain(lang.color.value))
  }

  /** The `StaticLanguage` a generated literal denotes: empty lists become `None`, and the scope
      is its display name. */
  function StaticOf(lang: Language): StaticLanguage {
    StaticLanguage(lang.name, ScopeDisplay(lang.scope), NonEmpty(lang.aliases), NonEmpty(lang.extensions),
                   NonEmpty(lang.filenames), NonEmpty(lang.interpreters), lang.color, lang.parent)
  }

  lemma {:induction false} LanguageLiteralRoundTrip(lang: Language)
    requires PlainLanguage(lang)
    ensures ParseLanguageDefinition(WriteLanguageDefinition(lang)) == Some(StaticOf(lang))
  {
    var t8 := OptionField("color", lang.color, " ") + "}";
    var t7 := ListField("interpreters", lang.interpreters) + t8;
    var t6 := ListField("filenames", lang.filenames) + t7;
    var t5 := ListField("extensions", lang.extensions) + t6;
    var t4 := TextField("scope", ScopeDisplay(lang.scope)) + t5;
    var t3 := ListField("aliases", lang.aliases) + t4;
    var t2 := TextField("name", lang.name) + t3;
    var t1 := OptionField("parent", lang.parent, ", ") + t2;
    var a0 := StaticLanguage("", "", None, None, None, None, None, None);
    var a1 := a0.(parent := lang.parent);
    var a2 := a1.(name := lang.name);
    var a3 := a2.(aliases := NonEmpty(lang.aliases));
    var a4 := a3.(scope := ScopeDisplay(lang.scope));
    var a5 := a4.(extensions := NonEmpty(lang.extensions));
    var a6 := a5.(filenames := NonEmpty(lang.filenames));
    var a7 := a6.(interpreters := NonEmpty(lang.interpreters));
    assert a7.(color := lang.color) == StaticOf(lang);

    ParseOptionFieldOf("color", lang.color, " ", "}");
    assert ReadColor(t8, a7) == Some(StaticOf(lang));
    ParseListFieldOf("interpreters", lang.interpreters, t8);
    assert ReadInterpreters(t7, a6) == ReadColor(t8, a7);
    ParseListFieldOf("filenames", lang.filenames, t7);
    assert ReadFilenames(t6, a5) == ReadInterpreters(t7, a6);
    ParseListFieldOf("extensions", lang.extensions, t6);
    assert ReadExtensions(t5, a4) == ReadFilenames(t6, a5);
    ScopeDisplayIsPlain(lang.scope);
    ParseTextFieldOf("scope", ScopeDisplay(lang.scope), t5);
    assert ReadScope(t4, a3) == ReadExtensions(t5, a4);
    ParseListFieldOf("aliases", lang.aliases, t4);
    assert ReadAliases(t3, a2) == ReadScope(t4, a3);
    ParseTextFieldOf("name", lang.name, t3);
    assert ReadName(t2, a1) == ReadAliases(t3, a2);
    ParseOptionFieldOf("parent", lang.parent, ", ", t2);
    assert ReadParent(t1, a0) == ReadName(t2, a1);
    assert WriteLanguageDefinition(lang) == "&StaticLanguage {" + t1;
    ExpectPrefix("&StaticLanguage {", t1);
  }

  lemma ScopeDisplayIsPlain(s: Scope)
    ensures Plain(ScopeDisplay(s))
  {
  }

  /** Generating a language and loading the generated literal back gives the same language:
      list contents, the scope, the name, the colour and the parent all survive. */
  lemma GenerateThenLoad(lang: Language)
    requires PlainLanguage(lang)
    ensures ParseLanguageDefinition(WriteLanguageDefinition(lang)).Some?
    ensures FromStaticLanguage(ParseLanguageDefinition(WriteLanguageDefinition(lang)).value) == lang
  {
    LanguageLiteralRoundTrip(lang);
    ScopeRoundTrip(lang.scope);
  }

  // ---------------------------------------------------------------------------
  // write_heuristic_definition

  /** An extension of a generated rule: inserted verbatim. */
  function ExtensionItem(ext: string): string {
    "OsString::from(\"" + ext + "\")"
  }

  /** A pattern of a generated rule: escaped. */
  function PatternItem(pattern: string): string {
    "\"" + EscapePattern(pattern) + "\".to_string()"
  }

  /** A `vec![...]` field of rendered items: `empty` closes a field with no items. */
  function VecField(key: string, rendered: seq<string>, empty: string): string {
    if rendered == [] then key + ": vec![" + empty
    else key + ": vec![" + Join(rendered, ", ") + "], "
  }

  function ExtensionsField(exts: seq<string>): string {
    VecField("extensions", Seqs.Map(exts, ExtensionItem), "], ")
  }

  function PatternsField(patterns: seq<string>): string {
    VecField("patterns", Seqs.Map(patterns, PatternItem), "] ")
  }

  /** `write_heuristic_definition`: a `HeuristicRule` literal; only the patterns are escaped. */
  function WriteHeuristicDefinition(rule: HeuristicRule): (r: string)
    ensures StartsWith(r, "HeuristicRule {language: \"") && r[|r| - 1] == '}'
  {
    "HeuristicRule {language: \"" + (rule.language + ("\"" + RuleFields(rule)))
  }

  /** What follows the language name's literal. */
  function RuleFields(rule: HeuristicRule): string {
    ".to_string(), " + (ExtensionsField(rule.extensions) + (PatternsField(rule.patterns) + "}"))
  }

  /** A `vec![...]` field: `empty` right after the bracket for no items, else items and `], `. */
  function ParseVecField(s: string, key: string, pre: string, post: string, empty: string)
    : Option<Parsed<seq<string>>>
  {
    match Expect(key + ": vec![" + empty, s)
    case Some(r) => Some(Parsed([], r))
    case None => ParseVecItems(s, key, pre, post)
  }

  function ParseVecItems(s: string, key: string, pre: string, post: string): Option<Parsed<seq<string>>> {
    match Expect(key + ": vec![", s)
    case None => None
    case Some(s1) =>
      match ParseItems(s1, pre, post)
      case None => None
      case Some(items) =>
        match Expect("], ", items.rest)
        case None => None
        case Some(s2) => Some(Parsed(items.value, s2))
  }

  lemma ParseEmptyVec(key: string, pre: string, post: string, empty: string, rest: string)
    ensures ParseVecField(key + ": vec![" + empty + rest, key, pre, post, empty) == Some(Parsed([], rest))
  {
    ExpectPrefix(key + ": vec![" + empty, rest);
  }

  lemma ParsePresentVec(key: string, xs: seq<string>, render: string -> string, pre: string, post: string,
                        empty: string, rest: string)
    requires xs != [] && empty != [] && empty[0] != (pre + "\"")[0]
    requires forall k :: 0 <= k < |xs| ==> render(xs[k]) == ItemText(pre, xs[k], post)
    requires forall k :: 0 <= k < |xs| ==> LiteralSafe(xs[k])
    ensures ParseVecField(key + ": vec![" + Join(Seqs.Map(xs, render), ", ") + "], " + rest, key, pre, post, empty)
            == Some(Parsed(xs, rest))
  {
    var items := Join(Seqs.Map(xs, render), ", ");
    var s := key + ": vec![" + items + "], " + rest;
    var head := key + ": vec![";
    RenderedItemsStart(xs, render, pre, post);
    assert s[|head|] == items[0] == (pre + "\"")[0];
    assert (head + empty)[|head|] == empty[0];
    assert Expect(head + empty, s).None?;
    ParseVecItemsOf(key, xs, render, pre, post, rest);
  }

  lemma ParseVecItemsOf(key: string, xs: seq<string>, render: string -> string, pre: string, post: string,
                        rest: string)
    requires xs != []
    requires forall k :: 0 <= k < |xs| ==> render(xs[k]) == ItemText(pre, xs[k], post)
    requires forall k :: 0 <= k < |xs| ==> LiteralSafe(xs[k])
    ensures ParseVecItems(key + ": vec![" + Join(Seqs.Map(xs, render), ", ") + "], " + rest, key, pre, post)
            == Some(Parsed(xs, rest))
  {
    var items := Join(Seqs.Map(xs, render), ", ");
    var head := key + ": vec![";
    assert head + items + "], " + rest == head + (items + ("], " + rest));
    ExpectPrefix(head, items + ("], " + rest));
    assert ("], " + rest)[0] == ']';
    ParseRenderedItems(xs, render, pre, post, "], " + rest);
    ExpectPrefix("], ", rest);
  }

  /** Plain extensions are written as item literals. */
  lemma ExtensionItems(exts: seq<string>)
    requires forall k :: 0 <= k < |exts| ==> Unescaped(exts[k])
    ensures forall k :: 0 <= k < |exts| ==> ExtensionItem(exts[k]) == ItemText("OsString::from(", exts[k], ")")
  {
    forall k | 0 <= k < |exts|
      ensures ExtensionItem(exts[k]) == ItemText("OsString::from(", exts[k], ")")
    {
      PlainNeedsNoEscape(exts[k]);
    }
  }

  /** A pattern is written as an item literal. */
  lemma PatternItemText(pattern: string)
    ensures PatternItem(pattern) == ItemText("", pattern, ".to_string()")
  {
    EscapePatternIsEscape(pattern);
    assert "" + "\"" == "\"";
    assert "\".to_string()" == "\"" + ".to_string()";
  }

  /** Every pattern is written as an item literal. */
  lemma PatternItems(patterns: seq<string>)
    ensures forall k :: 0 <= k < |patterns| ==> PatternItem(patterns[k]) == ItemText("", patterns[k], ".to_string()")
  {
    forall k | 0 <= k < |patterns|
      ensures PatternItem(patterns[k]) == ItemText("", patterns[k], ".to_string()")
    {
      PatternItemText(patterns[k]);
    }
  }

  /** A rendered field is read back item for item, when no item text starts like `empty`. */
  lemma ParseVecFieldOf(key: string, xs: seq<string>, render: string -> string, pre: string, post: string,
                        empty: string, rest: string)
    requires empty != [] && empty[0] != (pre + "\"")[0]
    requires forall k :: 0 <= k < |xs| ==> render(xs[k]) == ItemText(pre, xs[k], post)
    requires forall k :: 0 <= k < |xs| ==> LiteralSafe(xs[k])
    ensures ParseVecField(VecField(key, Seqs.Map(xs, render), empty) + rest, key, pre, post, empty)
            == Some(Parsed(xs, rest))
  {
    if xs == [] {
      ParseEmptyVec(key, pre, post, empty, rest);
    } else {
      ParsePresentVec(key, xs, render, pre, post, empty, rest);
    }
  }

  lemma ParseExtensionsField(exts: seq<string>, rest: string)
    requires forall k :: 0 <= k < |exts| ==> Plain(exts[k])
    ensures ParseVecField(ExtensionsField(exts) + rest, "extensions", "OsString::from(", ")", "], ") ==
            Some(Parsed(exts, rest))
  {
    ExtensionItems(exts);
    ParseVecFieldOf("extensions", exts, ExtensionItem, "OsString::from(", ")", "], ", rest);
  }

  lemma ParsePatternsField(patterns: seq<string>, rest: string)
    requires forall k :: 0 <= k < |patterns| ==> LiteralSafe(patterns[k])
    ensures ParseVecField(PatternsField(patterns) + rest, "patterns", "", ".to_string()", "] ") ==
            Some(Parsed(patterns, rest))
  {
    PatternItems(patterns);
    ParseVecFieldOf("patterns", patterns, PatternItem, "", ".to_string()", "] ", rest);
  }

  /** Reads a generated `HeuristicRule` literal: the language, then the extensions, then the patterns. */
  function ParseHeuristicDefinition(s: string): Option<HeuristicRule> {
    match Expect("HeuristicRule {language: \"", s)
    case None => None
    case Some(s0) =>
      match ReadLiteral(s0)
      case None => None
      case Some(language) => ReadRuleExtensions(language.rest, language.value)
  }

  function ReadRuleExtensions(s: string, language: string): (r: Option<HeuristicRule>)
    ensures r.Some? ==> r.value.language == language
  {
    match Expect(".to_string(), ", s)
    case None => None
    case Some(s1) =>
      match ParseVecField(s1, "extensions", "OsString::from(", ")", "], ")
      case None => None
      case Some(extensions) => ReadRulePatterns(extensions.rest, language, extensions.value)
  }

  function ReadRulePatterns(s: string, language: string, extensions: seq<string>): (r: Option<HeuristicRule>)
    ensures r.Some? ==> r.value.language == language && r.value.extensions == extensions
  {
    match ParseVecField(s, "patterns", "", ".to_string()", "] ")
    case None => None
    case Some(patterns) =>
      if patterns.rest == "}" then Some(HeuristicRule(language, extensions, patterns.value)) else None
  }

  /** The fields after the language name are read back as written. */
  lemma {:induction false} RuleFieldsRoundTrip(rule: HeuristicRule)
    requires forall k :: 0 <= k < |rule.extensions| ==> Plain(rule.extensions[k])
    requires forall k :: 0 <= k < |rule.patterns| ==> LiteralSafe(rule.patterns[k])
    ensures ReadRuleExtensions(RuleFields(rule), rule.language) == Some(rule)
  {
    var t3 := PatternsField(rule.patterns) + "}";
    var t2 := ExtensionsField(rule.extensions) + t3;
    ParsePatternsField(rule.patterns, "}");
    assert ReadRulePatterns(t3, rule.language, rule.extensions) == Some(rule);
    ParseExtensionsField(rule.extensions, t3);
    ExpectPrefix(".to_string(), ", t2);
  }

  /** A plain language name is read back from its literal, and the rest of the text decides. */
  lemma ReadPlainLanguage(name: string, fields: string)
    requires Plain(name)
    ensures ParseHeuristicDefinition("HeuristicRule {language: \"" + (name + ("\"" + fields))) ==
            ReadRuleExtensions(fields, name)
  {
    PlainNeedsNoEscape(name);
    assert name + ("\"" + fields) == Escape(name) + "\"" + fields;
    ExpectPrefix("HeuristicRule {language: \"", Escape(name) + "\"" + fields);
    ReadEscaped(name, fields);
  }

  /** A generated rule denotes the rule it was written from, whatever its patterns contain, as
      long as the verbatim language name and extensions contain no quote or backslash. */
  lemma {:induction false} HeuristicLiteralRoundTrip(rule: HeuristicRule)
    requires Plain(rule.language)
    requires forall k :: 0 <= k < |rule.extensions| ==> Plain(rule.extensions[k])
    requires forall k :: 0 <= k < |rule.patterns| ==> LiteralSafe(rule.patterns[k])
    ensures ParseHeuristicDefinition(WriteHeuristicDefinition(rule)) == Some(rule)
  {
    RuleFieldsRoundTrip(rule);
    ReadPlainLanguage(rule.language, RuleFields(rule));
  }

  /** A quote in a language name, which is written verbatim, ends the name's literal early: the
      generated rule is read back, if at all, with the name cut at that quote. */
  lemma QuotedLanguageIsCut(name: string, tail: string, extensions: seq<string>, patterns: seq<string>)
    requires Unescaped(name)
    ensures var rule := HeuristicRule(name + "\"" + tail, extensions, patterns);
            var back := ParseHeuristicDefinition(WriteHeuristicDefinition(rule));
            back.Some? ==> back.value.language == name != rule.language
  {
    var rule := HeuristicRule(name + "\"" + tail, extensions, patterns);
    var t1 := tail + ("\"" + RuleFields(rule));
    PlainNeedsNoEscape(name);
    assert rule.language + ("\"" + RuleFields(rule)) == Escape(name) + "\"" + t1;
    ExpectPrefix("HeuristicRule {language: \"", Escape(name) + "\"" + t1);
    if LiteralSafe(name) {
      ReadEscaped(name, t1);
    } else {
      EscapedCarriageReturnIsRefused(name, t1);
    }
  }
}
