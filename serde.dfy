/** Turning parsed definitions into `Language` records (linguist/src/serde.rs): the conversion of
    the statically generated `StaticLanguage` form and the generic loop over a parsed map. */
module Serde {
  import opened Wrappers
  import opened Errors
  import opened Definitions

  /** The borrowed, statically generated form of a language; absent lists are `None`. */
  datatype StaticLanguage = StaticLanguage(
    name: string,
    scope: string,
    aliases: Option<seq<string>>,
    extensions: Option<seq<string>>,
    filenames: Option<seq<string>>,
    interpreters: Option<seq<string>>,
    color: Option<string>,
    parent: Option<string>)

  /** `From<&StaticLanguage> for Language`. */
  function FromStaticLanguage(value: StaticLanguage): (r: Language)
    ensures r.name == value.name && r.parent == value.parent && r.color == value.color
    ensures r.scope == ScopeFrom(value.scope)
    ensures (value.aliases.None? ==> r.aliases == []) && (value.aliases.Some? ==> r.aliases == value.aliases.value)
    ensures (value.extensions.None? ==> r.extensions == []) &&
            (value.extensions.Some? ==> r.extensions == value.extensions.value)
    ensures (value.filenames.None? ==> r.filenames == []) &&
            (value.filenames.Some? ==> r.filenames == value.filenames.value)
    ensures (value.interpreters.None? ==> r.interpreters == []) &&
            (value.interpreters.Some? ==> r.interpreters == value.interpreters.value)
  {
    Language(
      value.parent,
      value.name,
      value.aliases.GetOr([]),
      ScopeFrom(value.scope),
      value.extensions.GetOr([]),
      value.filenames.GetOr([]),
      value.interpreters.GetOr([]),
      value.color)
  }

  /** An absent list and an empty list convert alike: the conversion cannot tell them apart. */
  lemma AbsentIsEmpty(value: StaticLanguage)
    ensures FromStaticLanguage(value.(aliases := None, extensions := None, filenames := None, interpreters := None)) ==
            FromStaticLanguage(value.(aliases := Some([]), extensions := Some([]), filenames := Some([]), interpreters := Some([])))
  {
  }

  /** A language with its name replaced by the map key it was stored under. */
  function Renamed(lang: Language, name: string): (r: Language)
    ensures r.name == name
  {
    lang.(name := name)
  }

  /** The outcome `deserialize_languages` promises for an already parsed document: a document
      that does not parse, or one entry that does not convert, is a DeserializationError;
      otherwise one language per entry, named by its key, with the rest from the conversion. */
  ghost predicate DeserializedFrom<T>(parsed: Option<map<string, T>>, convert: T -> Result<Language, LinguistError>,
                                      r: Result<seq<Language>, LinguistError>)
  {
    (parsed.None? ==> r == Err(DeserializationError)) &&
    (r.Err? ==> r.error == DeserializationError) &&
    (parsed.Some? ==>
      (r.Ok? <==> forall name :: name in parsed.value ==> convert(parsed.value[name]).Ok?) &&
      (r.Ok? ==>
        |r.value| == |parsed.value.Keys| &&
        (forall i, j :: 0 <= i < j < |r.value| ==> r.value[i].name != r.value[j].name) &&
        (forall i :: 0 <= i < |r.value| ==>
          r.value[i].name in parsed.value &&
          convert(parsed.value[r.value[i].name]).Ok? &&
          r.value[i] == Renamed(convert(parsed.value[r.value[i].name]).value, r.value[i].name)) &&
        (forall name :: name in parsed.value ==> exists i :: 0 <= i < |r.value| && r.value[i].name == name)))
  }

  /** `deserialize_languages` after parsing: the map is visited in an unspecified order. */
  method DeserializeLanguages<T>(parsed: Option<map<string, T>>, convert: T -> Result<Language, LinguistError>)
    returns (r: Result<seq<Language>, LinguistError>)
    ensures DeserializedFrom(parsed, convert, r)
  {
    if parsed.None? {
      return Err(DeserializationError);
    }
    var data := parsed.value;
    var languages: seq<Language> := [];
    var pending := data.Keys;
    while pending != {}
      invariant pending <= data.Keys
      invariant |languages| + |pending| == |data.Keys|
      invariant forall name :: name in data && name !in pending ==> convert(data[name]).Ok?
      invariant forall i :: 0 <= i < |languages| ==>
        languages[i].name in data && languages[i].name !in pending &&
        convert(data[languages[i].name]).Ok? &&
        languages[i] == Renamed(convert(data[languages[i].name]).value, languages[i].name)
      invariant forall i, j :: 0 <= i < j < |languages| ==> languages[i].name != languages[j].name
      invariant forall name :: name in data && name !in pending ==>
        exists i :: 0 <= i < |languages| && languages[i].name == name
      decreases pending
    {
      var name :| name in pending;
      match convert(data[name]) {
        case Ok(lang) =>
          ghost var before := languages;
          languages := languages + [Renamed(lang, name)];
          assert languages[|languages| - 1].name == name;
          assert forall i :: 0 <= i < |before| ==> languages[i] == before[i];
        case Err(_) =>
          return Err(DeserializationError);
      }
      pending := pending - {name};
    }
    return Ok(languages);
  }

  /** `deserialize_strings` after parsing: a document that is not a list of strings is a
      DeserializationError, and a list is returned as it is. */
  function DeserializeStrings(parsed: Option<seq<string>>): (r: Result<seq<string>, LinguistError>)
    ensures parsed.None? <==> r == Err(DeserializationError)
    ensures parsed.Some? ==> r == Ok(parsed.value)
  {
    match parsed
    case None => Err(DeserializationError)
    case Some(data) => Ok(data)
  }
}
