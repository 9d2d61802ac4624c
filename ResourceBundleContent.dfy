/** One localisation resource bundle: its base name and every key with its
    translations, one `Translation(language, value)` per entry. The content is
    an insertion-ordered multimap that allows duplicate entries, kept here as a
    sequence of (key, translation) entries. */
module ResourceBundles {
  import opened CommaJoin
  import opened Multimaps

  /** A language tag; equal when the tags are equal. */
  datatype Language = Language(tag: string)

  /** One translated value of a key; equality is structural. */
  datatype Translation = Translation(lang: Language, value: string)

  /** One entry of a bundle's content: a bundle key and one of its translations. */
  type Entry = (string, Translation)

  /** One parsed property: its key and its value fragments (one for a plain value). */
  datatype Property = Property(key: string, valueList: seq<string>)

  /** The parsed property file of one language, properties in the property map's
      iteration order. */
  datatype LanguageFile = LanguageFile(lang: Language, properties: seq<Property>)

  /** The entry one property of a `lang` file contributes: its fragments joined by commas. */
  function TranslationOf(lang: Language, p: Property): (e: Entry)
    ensures e.0 == p.key && e.1.lang == lang
    ensures |p.valueList| == 1 ==> e.1.value == p.valueList[0]
    ensures |p.valueList| > 1 ==> ',' in e.1.value
  {
    (p.key, Translation(lang, Join(p.valueList)))
  }

  /** Every entry one language's properties contribute, in property order. */
  function FilePuts(lang: Language, props: seq<Property>): (r: seq<Entry>)
    ensures |r| == |props|
    ensures forall j :: 0 <= j < |r| ==> r[j] == TranslationOf(lang, props[j])
  {
    seq(|props|, j requires 0 <= j < |props| => TranslationOf(lang, props[j]))
  }

  /** Every entry put while reading the files in order, duplicates included. */
  function Puts(files: seq<LanguageFile>): (r: seq<Entry>)
  {
    if files == [] then []
    else
      var last := files[|files| - 1];
      Puts(files[..|files| - 1]) + FilePuts(last.lang, last.properties)
  }

  /** Reading one more property of the current file extends the entries put by its entry. */
  lemma PutsStep(earlier: seq<Entry>, lang: Language, props: seq<Property>, j: nat)
    requires j < |props|
    ensures earlier + FilePuts(lang, props[..j + 1])
      == (earlier + FilePuts(lang, props[..j])) + [TranslationOf(lang, props[j])]
  {
    assert FilePuts(lang, props[..j + 1]) == FilePuts(lang, props[..j]) + [TranslationOf(lang, props[j])];
  }

  /** Finishing a file: its entries, read to the end, are what `Puts` adds for it. */
  lemma FilesStep(files: seq<LanguageFile>, i: nat)
    requires i < |files|
    ensures Puts(files[..i]) + FilePuts(files[i].lang, files[i].properties[..|files[i].properties|])
      == Puts(files[..i + 1])
  {
    assert files[i].properties[..|files[i].properties|] == files[i].properties;
    assert files[..i + 1][..i] == files[..i];
  }

  /** Entry `e` is what property `j` of file `i` contributes. */
  predicate YieldedBy(files: seq<LanguageFile>, i: int, j: int, e: Entry)
  {
    0 <= i < |files| && 0 <= j < |files[i].properties|
    && e == TranslationOf(files[i].lang, files[i].properties[j])
  }

  /** An entry is put exactly when some file has a property that yields it. */
  lemma {:induction false} PutsMember(files: seq<LanguageFile>, e: Entry)
    ensures e in Puts(files) <==> exists i, j :: YieldedBy(files, i, j, e)
  {
    if files != [] {
      var init, last := files[..|files| - 1], files[|files| - 1];
      var earlier, current := Puts(init), FilePuts(last.lang, last.properties);
      assert Puts(files) == earlier + current;
      PutsMember(init, e);
      if e in earlier {
        var i, j :| YieldedBy(init, i, j, e);
        assert YieldedBy(files, i, j, e);
      } else if e in current {
        var j :| 0 <= j < |current| && current[j] == e;
        assert YieldedBy(files, |files| - 1, j, e);
      }
      if exists i, j :: YieldedBy(files, i, j, e) {
        var i, j :| YieldedBy(files, i, j, e);
        if i < |init| {
          assert YieldedBy(init, i, j, e);
        } else {
          assert current[j] == e;
        }
      }
    }
  }

  /** `ks` is a possible key iteration order of the multimap filled with `puts`:
      each key put, listed once. Which order it is is not specified. */
  ghost predicate IsKeyOrder(ks: seq<string>, puts: seq<Entry>)
  {
    NoDup(ks) && forall k :: k in ks <==> k in KeysOf(puts)
  }

  /** The entries of the set-valued multimap filled with `puts`, keys iterated in
      the order `ks`: per key, each translation once, in first-put order. */
  ghost function Arrangement(puts: seq<Entry>, ks: seq<string>): (r: seq<Entry>)
  {
    Flat(ks, map k | k in ks :: Dedup(Values(puts, k)))
  }

  /** `c` is what `fromFiles` can produce from `files`, for some key order. */
  ghost predicate IsFromFilesContent(c: seq<Entry>, files: seq<LanguageFile>)
  {
    exists ks :: IsKeyOrder(ks, Puts(files)) && c == Arrangement(Puts(files), ks)
  }

  /** Invariant of the `fromFiles` loop: the multimap holds, per key, the
      de-duplicated translations put so far, and exactly the keys put so far. */
  ghost predicate Tracks(m: SetMultimap<string, Translation>, puts: seq<Entry>)
  {
    && m.Valid()
    && (forall k :: k in m.keys <==> k in KeysOf(puts))
    && (forall k :: m.Get(k) == Dedup(Values(puts, k)))
  }

  /** Putting one more entry keeps the multimap in step with the entries put. */
  lemma TracksPut(m: SetMultimap<string, Translation>, puts: seq<Entry>, k: string, t: Translation)
    requires Tracks(m, puts)
    ensures Tracks(m.Put(k, t), puts + [(k, t)])
  {
    var puts', m' := puts + [(k, t)], m.Put(k, t);
    assert m'.Valid();
    KeysOfSnoc(puts, k, t);
    assert forall k' :: k' in m'.keys <==> k' in KeysOf(puts');
    forall k' ensures m'.Get(k') == Dedup(Values(puts', k')) {
      ValuesSnoc(puts, k, t, k');
      if k' == k {
        var vs := Values(puts, k);
        DedupSnoc(vs, t);
      } else {
        assert Values(puts', k') == Values(puts, k');
      }
    }
  }

  /** Once every entry is put, the multimap's entries are the arrangement of the
      entries put, in the multimap's own key order. */
  lemma TracksEntries(m: SetMultimap<string, Translation>, puts: seq<Entry>)
    requires Tracks(m, puts)
    ensures IsKeyOrder(m.keys, puts)
    ensures m.Entries() == Arrangement(puts, m.keys)
  {
    var idx := map k | k in m.keys :: Dedup(Values(puts, k));
    assert m.vals == idx by {
      forall k | k in m.vals ensures m.vals[k] == idx[k] { assert m.Get(k) == m.vals[k]; }
    }
  }

  /** Reading a key back from an arrangement gives the key's translations put,
      each once, in first-put order. */
  lemma ArrangementValues(puts: seq<Entry>, ks: seq<string>, k: string)
    requires IsKeyOrder(ks, puts)
    ensures Values(Arrangement(puts, ks), k) == Dedup(Values(puts, k))
  {
    var idx := map k | k in ks :: Dedup(Values(puts, k));
    ValuesFlat(ks, idx, k);
    if k !in ks {
      ValuesOfAbsentKey(puts, k);
    }
  }

  /** What any `fromFiles` content holds: per key, the translations put under it,
      each once, in first-put order; no duplicate entry; exactly the entries put. */
  lemma FromFilesContentByKey(c: seq<Entry>, files: seq<LanguageFile>)
    requires IsFromFilesContent(c, files)
    ensures forall k :: Values(c, k) == Dedup(Values(Puts(files), k))
    ensures NoDup(c)
    ensures forall e :: e in c <==> e in Puts(files)
  {
    var puts := Puts(files);
    var ks :| IsKeyOrder(ks, puts) && c == Arrangement(puts, ks);
    forall k ensures Values(c, k) == Dedup(Values(puts, k)) {
      ArrangementValues(puts, ks, k);
    }
    NoDupByKey(c);
    forall e ensures e in c <==> e in puts {
      ValuesMember(c, e.0, e.1);
      ValuesMember(puts, e.0, e.1);
    }
  }

  /** Merge completeness: every property of every file yields its translation in
      the content, the value list joined by commas. */
  lemma FromFilesComplete(c: seq<Entry>, files: seq<LanguageFile>)
    requires IsFromFilesContent(c, files)
    ensures forall i, j :: 0 <= i < |files| && 0 <= j < |files[i].properties| ==>
      TranslationOf(files[i].lang, files[i].properties[j]) in c
  {
    FromFilesContentByKey(c, files);
    forall i, j | 0 <= i < |files| && 0 <= j < |files[i].properties|
      ensures TranslationOf(files[i].lang, files[i].properties[j]) in c
    {
      var e := TranslationOf(files[i].lang, files[i].properties[j]);
      PutsMember(files, e);
      assert YieldedBy(files, i, j, e);
    }
  }

  /** Nothing is invented: every entry of the content is the translation of some
      property of some file, keyed by that property's key. */
  lemma FromFilesSound(c: seq<Entry>, files: seq<LanguageFile>)
    requires IsFromFilesContent(c, files)
    ensures forall e :: e in c ==>
      exists i, j :: YieldedBy(files, i, j, e)
  {
    FromFilesContentByKey(c, files);
    forall e | e in c
      ensures exists i, j :: YieldedBy(files, i, j, e)
    {
      PutsMember(files, e);
    }
  }

  /** The input maps each language to one file. */
  predicate DistinctLanguages(files: seq<LanguageFile>)
  {
    forall i, j :: 0 <= i < |files| && 0 <= j < |files| && files[i].lang == files[j].lang ==> i == j
  }

  /** A parsed property map has each key once. */
  predicate DistinctKeys(props: seq<Property>)
  {
    forall i, j :: 0 <= i < |props| && 0 <= j < |props| && props[i].key == props[j].key ==> i == j
  }

  /** No placeholder: a key missing from a language's file has no translation in
      that language, not even an empty one. */
  lemma FromFilesNoPlaceholder(c: seq<Entry>, files: seq<LanguageFile>, i: nat, k: string)
    requires IsFromFilesContent(c, files)
    requires DistinctLanguages(files)
    requires i < |files|
    requires forall j :: 0 <= j < |files[i].properties| ==> files[i].properties[j].key != k
    ensures forall t :: (k, t) in c ==> t.lang != files[i].lang
  {
    FromFilesSound(c, files);
    forall t | (k, t) in c ensures t.lang != files[i].lang {
      var i', j :| YieldedBy(files, i', j, (k, t));
    }
  }

  /** With one file per language and each key once per file, every (key, language)
      pair has at most one entry in the content. */
  lemma FromFilesOnePerKeyAndLanguage(c: seq<Entry>, files: seq<LanguageFile>)
    requires IsFromFilesContent(c, files)
    requires DistinctLanguages(files)
    requires forall i :: 0 <= i < |files| ==> DistinctKeys(files[i].properties)
    ensures forall a, b ::
      (0 <= a < |c| && 0 <= b < |c| && c[a].0 == c[b].0 && c[a].1.lang == c[b].1.lang) ==> a == b
  {
    FromFilesContentByKey(c, files);
    FromFilesSound(c, files);
    forall a, b | 0 <= a < |c| && 0 <= b < |c| && c[a].0 == c[b].0 && c[a].1.lang == c[b].1.lang
      ensures a == b
    {
      assert c[a] in c && c[b] in c;
      var ia, ja :| YieldedBy(files, ia, ja, c[a]);
      var ib, jb :| YieldedBy(files, ib, jb, c[b]);
      assert ia == ib;
      assert DistinctKeys(files[ia].properties);
      assert ja == jb;
      assert c[a] == c[b];
    }
  }

  /** The entries put by two one-property files that share the key `k`. */
  lemma TwoFilesPuts(k: string, l1: Language, v1: string, l2: Language, v2: string)
    ensures Puts([LanguageFile(l1, [Property(k, [v1])]), LanguageFile(l2, [Property(k, [v2])])])
      == [(k, Translation(l1, v1)), (k, Translation(l2, v2))]
  {
    var f1, f2 := LanguageFile(l1, [Property(k, [v1])]), LanguageFile(l2, [Property(k, [v2])]);
    assert FilePuts(l1, [Property(k, [v1])]) == [(k, Translation(l1, v1))];
    assert FilePuts(l2, [Property(k, [v2])]) == [(k, Translation(l2, v2))];
    assert [f1, f2][..1] == [f1] && [f1][..0] == [];
    assert Puts([f1]) == [(k, Translation(l1, v1))];
  }

  /** Two translations put under one key are read back in order. */
  lemma TwoTranslationsRead(k: string, t1: Translation, t2: Translation)
    ensures Values([(k, t1), (k, t2)], k) == [t1, t2]
  {
    ValuesSnoc([(k, t1)], k, t2, k);
    assert [(k, t1)] + [(k, t2)] == [(k, t1), (k, t2)];
  }

  /** Two different translations are both kept by the de-duplication, in order. */
  lemma TwoTranslationsKept(t1: Translation, t2: Translation)
    requires t1 != t2
    ensures Dedup([t1, t2]) == [t1, t2]
  {
    DedupOfNoDup([t1, t2]);
  }

  /** Content holding exactly the entries of `puts`, all under `k`, has only the key `k`. */
  lemma OnlyKey(c: seq<Entry>, puts: seq<Entry>, k: string)
    requires forall e :: e in c <==> e in puts
    requires forall e :: e in puts ==> e.0 == k
    ensures forall e :: e in c ==> e.0 == k
  {
  }

  /** Two files that both define one key (say English `greeting=Hello` and German
      `greeting=Hallo`) give that key alone, with the two translations in reading order. */
  lemma FromFilesOneKeyTwoLanguages(c: seq<Entry>, l1: Language, v1: string, l2: Language, v2: string, k: string)
    requires l1 != l2
    requires IsFromFilesContent(c, [LanguageFile(l1, [Property(k, [v1])]), LanguageFile(l2, [Property(k, [v2])])])
    ensures Values(c, k) == [Translation(l1, v1), Translation(l2, v2)]
    ensures forall e :: e in c ==> e.0 == k
  {
    var files := [LanguageFile(l1, [Property(k, [v1])]), LanguageFile(l2, [Property(k, [v2])])];
    var t1, t2 := Translation(l1, v1), Translation(l2, v2);
    var puts := [(k, t1), (k, t2)];
    TwoFilesPuts(k, l1, v1, l2, v2);
    FromFilesContentByKey(c, files);
    assert Values(c, k) == Dedup(Values(puts, k));
    TwoTranslationsRead(k, t1, t2);
    TwoTranslationsKept(t1, t2);
    OnlyKey(c, puts, k);
  }

  /** The in-memory bundle. The base name never changes; the content is an
      insertion-ordered entry list that accepts duplicates. */
  class ResourceBundleContent {
    const bundleBaseName: string
    var content: seq<Entry>

    /** Copies the given entries, in their order, into a new bundle. The entries
        are a value: later changes elsewhere cannot reach this bundle's content. */
    constructor (bundleBaseName: string, entries: seq<Entry>)
      ensures this.bundleBaseName == bundleBaseName
      ensures content == entries
    {
      this.bundleBaseName := bundleBaseName;
      content := [];
      content := content + entries;
    }

    /** The base name the bundle was created with. */
    function GetBundleBaseName(): (r: string)
      ensures r == bundleBaseName
    {
      bundleBaseName
    }

    /** All entries, in insertion order. */
    function GetContent(): (r: seq<Entry>)
      reads this
      ensures r == content
    {
      content
    }

    /** Appends one entry, even if the very same entry is already present; the
        translations of every other key stay as they were. */
    method AddTranslation(bundleKey: string, translation: Translation)
      modifies this
      ensures content == old(content) + [(bundleKey, translation)]
      ensures forall k ::
        Values(content, k) == Values(old(content), k) + (if k == bundleKey then [translation] else [])
      ensures multiset(content)[(bundleKey, translation)]
        == multiset(old(content))[(bundleKey, translation)] + 1
    {
      content := content + [(bundleKey, translation)];
      forall k ensures Values(content, k)
        == Values(old(content), k) + (if k == bundleKey then [translation] else [])
      {
        ValuesSnoc(old(content), bundleKey, translation, k);
      }
    }

    /** A new, empty bundle with the given base name. */
    static method ForName(bundleName: string) returns (b: ResourceBundleContent)
      ensures fresh(b)
      ensures b.bundleBaseName == bundleName && b.content == []
    {
      b := new ResourceBundleContent(bundleName, []);
    }

    /** A new bundle with this one's base name, holding the translations of all
        the files: every property of every file put, with its value list joined by
        commas, into a multimap that keeps each (key, translation) once and each
        key's translations in the order they were first put. The key order of the
        result is not specified. This bundle is left as it was. */
    method FromFiles(files: seq<LanguageFile>) returns (r: ResourceBundleContent)
      ensures fresh(r)
      ensures r.bundleBaseName == bundleBaseName
      ensures content == old(content)
      ensures IsFromFilesContent(r.content, files)
    {
      var translations: SetMultimap<string, Translation> := Empty();
      var i := 0;
      while i < |files|
        invariant 0 <= i <= |files|
        invariant Tracks(translations, Puts(files[..i]))
      {
        var lang := files[i].lang;
        var props := files[i].properties;
        var j := 0;
        assert Puts(files[..i]) + FilePuts(lang, props[..j]) == Puts(files[..i]);
        while j < |props|
          invariant 0 <= j <= |props|
          invariant Tracks(translations, Puts(files[..i]) + FilePuts(lang, props[..j]))
        {
          var p := props[j];
          ghost var done := Puts(files[..i]) + FilePuts(lang, props[..j]);
          TracksPut(translations, done, p.key, Translation(lang, Join(p.valueList)));
          translations := translations.Put(p.key, Translation(lang, Join(p.valueList)));
          PutsStep(Puts(files[..i]), lang, props, j);
          j := j + 1;
        }
        FilesStep(files, i);
        i := i + 1;
      }
      assert files[..i] == files;
      TracksEntries(translations, Puts(files));
      r := new ResourceBundleContent(bundleBaseName, translations.Entries());
    }
  }
}
