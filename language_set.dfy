/** The simple `LanguageSet` API of linguist/src/lib.rs: a list of `LanguageInfo` records that
    can be loaded from a definition file, extended, pruned by name and queried by extension. */
module LanguageSets {
  import opened Wrappers
  import Seqs

  /** A lightweight language record: name, scope as free text, extensions and colour. */
  datatype LanguageInfo = LanguageInfo(name: string, scope: string, extensions: seq<string>, color: Option<string>)

  /** The only error the set reports: the definition file does not exist. */
  datatype LanguageSetError = FileNotFound

  /** One entry of the definition file as the loader reads it. */
  datatype LanguageDef = LanguageDef(color: Option<string>, scope: string, extensions: Option<seq<string>>)

  /** The record the loader builds for the entry `name`; absent extensions become an empty list. */
  function InfoOf(name: string, def: LanguageDef): (r: LanguageInfo)
    ensures r.name == name && r.scope == def.scope && r.color == def.color
    ensures def.extensions.None? ==> r.extensions == []
    ensures def.extensions.Some? ==> r.extensions == def.extensions.value
  {
    LanguageInfo(name, def.scope, def.extensions.GetOr([]), def.color)
  }

  predicate NamedAs(lang: LanguageInfo, name: string) {
    lang.name == name
  }

  /** The list after removing the first record called `name`, if there is one. */
  function WithoutFirstNamed(langs: seq<LanguageInfo>, name: string): (r: seq<LanguageInfo>)
    ensures (forall i :: 0 <= i < |langs| ==> langs[i].name != name) ==> r == langs
    ensures (exists i :: 0 <= i < |langs| && langs[i].name == name) ==> |r| == |langs| - 1
    ensures forall i :: 0 <= i < |r| ==> r[i] in langs
  {
    if langs == [] then []
    else if langs[0].name == name then langs[1..]
    else [langs[0]] + WithoutFirstNamed(langs[1..], name)
  }

  /** Removing the first record called `name` is cutting it out at its position. */
  lemma {:induction false} WithoutFirstNamedAt(langs: seq<LanguageInfo>, name: string, i: nat)
    requires i < |langs| && langs[i].name == name
    requires forall j :: 0 <= j < i ==> langs[j].name != name
    ensures WithoutFirstNamed(langs, name) == langs[..i] + langs[i + 1..]
  {
    if i == 0 {
      assert langs[..0] + langs[1..] == langs[1..];
    } else {
      assert langs[0].name != name;
      assert WithoutFirstNamed(langs, name) == [langs[0]] + WithoutFirstNamed(langs[1..], name);
      WithoutFirstNamedAt(langs[1..], name, i - 1);
      assert langs[..i] == [langs[0]] + langs[1..][..i - 1];
      assert langs[i + 1..] == langs[1..][i..];
    }
  }

  /** The records not called `name`. */
  function Others(langs: seq<LanguageInfo>, name: string): seq<LanguageInfo> {
    Seqs.Filter(langs, (l: LanguageInfo) => !NamedAs(l, name))
  }

  /** Number of records called `name`. */
  function NamedCount(langs: seq<LanguageInfo>, name: string): (n: nat)
    ensures n <= |langs|
  {
    if langs == [] then 0 else (if langs[0].name == name then 1 else 0) + NamedCount(langs[1..], name)
  }

  /** Removal takes out exactly one record called `name` when there is one, and leaves every
      other record in its order. */
  lemma {:induction false} RemovalDropsOneNamed(langs: seq<LanguageInfo>, name: string)
    ensures Others(WithoutFirstNamed(langs, name), name) == Others(langs, name)
    ensures NamedCount(WithoutFirstNamed(langs, name), name) ==
            if NamedCount(langs, name) == 0 then 0 else NamedCount(langs, name) - 1
  {
    if langs != [] {
      if langs[0].name != name {
        RemovalDropsOneNamed(langs[1..], name);
        assert WithoutFirstNamed(langs, name)[1..] == WithoutFirstNamed(langs[1..], name);
      }
    }
  }

  /** The first record listing `ext`, as `resolve_language_by_extension` finds it. */
  function FirstWithExtension(langs: seq<LanguageInfo>, ext: string): (r: Option<LanguageInfo>)
    ensures r.None? <==> forall i :: 0 <= i < |langs| ==> ext !in langs[i].extensions
    ensures r.Some? ==> (exists i :: 0 <= i < |langs| && langs[i] == r.value &&
                          forall j :: 0 <= j < i ==> ext !in langs[j].extensions)
    ensures r.Some? ==> ext in r.value.extensions
  {
    if langs == [] then None
    else if ext in langs[0].extensions then Some(langs[0])
    else FirstWithExtension(langs[1..], ext)
  }

  /** Registering a record that lists `ext` makes the extension resolve, to that record when no
      earlier one lists it, and never changes an answer that was already there. */
  lemma {:induction false} RegisteredIsFound(langs: seq<LanguageInfo>, lang: LanguageInfo, ext: string)
    ensures FirstWithExtension(langs, ext).Some? ==>
      FirstWithExtension(langs + [lang], ext) == FirstWithExtension(langs, ext)
    ensures FirstWithExtension(langs, ext).None? && ext in lang.extensions ==>
      FirstWithExtension(langs + [lang], ext) == Some(lang)
  {
    if langs == [] {
      assert langs + [lang] == [lang];
    } else {
      assert (langs + [lang])[1..] == langs[1..] + [lang];
      RegisteredIsFound(langs[1..], lang, ext);
    }
  }

  class LanguageSet {
    var languages: seq<LanguageInfo>

    /** `LanguageSet::new` and `Default`: an empty set. */
    constructor ()
      ensures languages == []
    {
      languages := [];
    }

    /** `register_language`: appends the record, even when its name is taken, and succeeds. */
    method RegisterLanguage(lang: LanguageInfo) returns (r: Result<(), LanguageSetError>)
      modifies this
      ensures languages == old(languages) + [lang]
      ensures r == Ok(())
    {
      languages := languages + [lang];
      r := Ok(());
    }

    /** `remove_language_by_name`: removes the first record with exactly this name, if any, and
      succeeds either way. */
    method RemoveLanguageByName(name: string) returns (r: Result<(), LanguageSetError>)
      modifies this
      ensures languages == WithoutFirstNamed(old(languages), name)
      ensures r == Ok(())
    {
      var idx := Seqs.Position(languages, (l: LanguageInfo) => NamedAs(l, name));
      if idx.Some? {
        WithoutFirstNamedAt(languages, name, idx.value);
        languages := languages[..idx.value] + languages[idx.value + 1..];
      }
      r := Ok(());
    }

    /** `resolve_language_by_extension`: the first record whose extensions contain `ext`. */
    method ResolveLanguageByExtension(ext: string) returns (r: Option<LanguageInfo>)
      ensures r == FirstWithExtension(languages, ext)
      ensures r.Some? ==> r.value in languages && ext in r.value.extensions
      ensures r.None? <==> forall i :: 0 <= i < |languages| ==> ext !in languages[i].extensions
    {
      var idx := Seqs.Position(languages, (l: LanguageInfo) => ext in l.extensions);
      if idx.Some? {
        FirstExtensionIndex(languages, ext, idx.value);
        return Some(languages[idx.value]);
      }
      return None;
    }

    /** `load_from_path`: a missing file is an error; a file that does not parse gives an empty
        set; otherwise one record per entry, named by its key, in the map's unspecified order. */
    static method LoadFromPath(exists_: bool, parsed: Option<map<string, LanguageDef>>)
      returns (r: Result<LanguageSet, LanguageSetError>)
      ensures !exists_ <==> r == Err(FileNotFound)
      ensures r.Ok? ==> fresh(r.value)
      ensures exists_ && parsed.None? ==> r.Ok? && r.value.languages == []
      ensures exists_ && parsed.Some? ==>
        (r.Ok? &&
         |r.value.languages| == |parsed.value.Keys| &&
         (forall i, j :: 0 <= i < j < |r.value.languages| ==> r.value.languages[i].name != r.value.languages[j].name) &&
         (forall i :: 0 <= i < |r.value.languages| ==>
            r.value.languages[i].name in parsed.value &&
            r.value.languages[i] == InfoOf(r.value.languages[i].name, parsed.value[r.value.languages[i].name])) &&
         (forall name :: name in parsed.value ==>
            exists i :: 0 <= i < |r.value.languages| && r.value.languages[i].name == name))
    {
      if !exists_ {
        return Err(FileNotFound);
      }
      var ls := new LanguageSet();
      if parsed.Some? {
        var defs := parsed.value;
        var pending := defs.Keys;
        while pending != {}
          invariant pending <= defs.Keys
          invariant |ls.languages| + |pending| == |defs.Keys|
          invariant forall i :: 0 <= i < |ls.languages| ==>
            ls.languages[i].name in defs && ls.languages[i].name !in pending &&
            ls.languages[i] == InfoOf(ls.languages[i].name, defs[ls.languages[i].name])
          invariant forall i, j :: 0 <= i < j < |ls.languages| ==> ls.languages[i].name != ls.languages[j].name
          invariant forall name :: name in defs && name !in pending ==>
            exists i :: 0 <= i < |ls.languages| && ls.languages[i].name == name
          decreases pending
        {
          var name :| name in pending;
          ghost var before := ls.languages;
          ls.languages := ls.languages + [InfoOf(name, defs[name])];
          assert ls.languages[|ls.languages| - 1].name == name;
          assert forall i :: 0 <= i < |before| ==> ls.languages[i] == before[i];
          pending := pending - {name};
        }
      }
      return Ok(ls);
    }
  }

  lemma FirstExtensionIndex(langs: seq<LanguageInfo>, ext: string, i: nat)
    requires i < |langs| && ext in langs[i].extensions
    requires forall j :: 0 <= j < i ==> ext !in langs[j].extensions
    ensures FirstWithExtension(langs, ext) == Some(langs[i])
  {
    if i > 0 {
      FirstExtensionIndex(langs[1..], ext, i - 1);
    }
  }
}
