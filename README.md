# ResourceBundleContent of i18nbinder, in Dafny

i18nbinder gathers the per-language property files of a localisation resource
bundle (`messages_de.properties`, `messages_en.properties`, ...) into one
in-memory `ResourceBundleContent`. That object holds the bundle's base name and
a multimap from each property key to its `Translation(language, value)`
entries. This project models that class and proves what its operations do.

- `CommaJoin.dfy`: module `CommaJoin`. It models how a list-valued property is
  flattened into one translation value: the fragments joined with `,`, as
  Guava's `Joiner.on(",")` does. It also gives a splitting function and proves
  exactly when splitting undoes the join.
- `Multimaps.dfy`: module `Multimaps`. Multimaps are modelled as sequences of
  (key, value) entries. `Values(s, k)` is what `get(k)` returns. `Dedup` keeps
  the first occurrence of each element. `SetMultimap` stands in for the local
  multimap that `fromFiles` fills: Guava's `hashKeys().linkedHashSetValues()`,
  where each key holds each value at most once, in insertion order.
- `ResourceBundleContent.dfy`: module `ResourceBundles`.
  - `Language`, `Translation`, `Property` (a key with its value fragments) and
    `LanguageFile` (one language with its parsed properties, in the property
  map's iteration order; with each key once per file, the result does not
  depend on that order).
  - The class `ResourceBundleContent`. Its base name is a `const`. Its content
    is a mutable `seq` of entries, which stands in for the `LinkedListMultimap`:
    insertion order, duplicates allowed.
  - The specification of `fromFiles`:
    - `Puts(files)` is every entry put, in reading order.
    - `Arrangement(puts, ks)` is the entries of the filled multimap when its
      keys come out in the order `ks`.
    - `IsFromFilesContent(c, files)` says that `c` is such an arrangement for
      some key order.
  - Lemmas about every content that `fromFiles` can produce.

`fromFiles` takes a `Map<Language, File>` and parses each file with an external
property-file library. The model replaces that argument with a sequence of
already-parsed `LanguageFile`s, in the order the map hands out its entries. The
method itself needs neither distinct languages nor distinct keys. The lemmas
that need them take them as hypotheses (`DistinctLanguages`, `DistinctKeys`).

The key order of the `fromFiles` result is the hash order of
`MultimapBuilder.hashKeys()`, which nothing specifies. The model's multimap
keeps keys in first-put order internally. `FromFiles` promises only that the
result is grouped by key in *some* order of the keys put. Within each key, it
promises the translations in first-put order with duplicates removed.

Where the source's comments and its code differ, the model follows the code:
- The class comment calls the class immutable and thread-safe, but
  `addTranslation` changes the content in place.
- The Javadoc of `fromFiles` announces an `InconsistentBundleBaseNameException`,
  but no code path throws it.

The model also follows the code where it departs from the design of the
bundle, which asks for at most one translation per key and language:
- `addTranslation` appends every entry it is given, duplicates included.
- The de-duplication in `fromFiles` compares whole translations, so two
  different values under the same key and language would both be kept. With
  one file per language and each key once per file, this cannot happen
  (`FromFilesOnePerKeyAndLanguage`).

## Model

| member | source | states |
|---|---|---|
| `ResourceBundles.ResourceBundleContent.constructor` | i18nbinder-core/src/main/java/org/omnaest/i18nbinder/internal/ResourceBundleContent.java:75-79 | the new bundle has the given base name, and its content is the given entries in their order; the entries are a value, so later changes to the source multimap cannot reach it |
| `ResourceBundles.ResourceBundleContent.GetBundleBaseName` | i18nbinder-core/src/main/java/org/omnaest/i18nbinder/internal/ResourceBundleContent.java:91-93 | returns the base name the bundle was created with |
| `ResourceBundles.ResourceBundleContent.GetContent` | i18nbinder-core/src/main/java/org/omnaest/i18nbinder/internal/ResourceBundleContent.java:102-104 | returns the stored entries, in insertion order |
| `ResourceBundles.ResourceBundleContent.AddTranslation` | i18nbinder-core/src/main/java/org/omnaest/i18nbinder/internal/ResourceBundleContent.java:107-109 | appends exactly one entry (key, translation), even if an identical entry is already present: its multiplicity grows by one; the key's translations gain that translation at the end; every other key's translations are unchanged; the base name is a constant |
| `ResourceBundles.ResourceBundleContent.ForName` | i18nbinder-core/src/main/java/org/omnaest/i18nbinder/internal/ResourceBundleContent.java:122-125 | a new bundle with the given base name and no entries |
| `ResourceBundles.ResourceBundleContent.FromFiles` | i18nbinder-core/src/main/java/org/omnaest/i18nbinder/internal/ResourceBundleContent.java:136-157 | returns a fresh bundle carrying the receiver's base name; the receiver's content is unchanged; the new content is an arrangement of the entries put (grouped by key, in some key order, each key's translations de-duplicated in first-put order); proved with loop invariants over the nested loop |
| `CommaJoin.Join` | i18nbinder-core/src/main/java/org/omnaest/i18nbinder/internal/ResourceBundleContent.java:152 | a one-fragment value list is stored unchanged; a list of two or more fragments always leaves a comma in the value |
| `CommaJoin.JoinSnoc` | i18nbinder-core/src/main/java/org/omnaest/i18nbinder/internal/ResourceBundleContent.java:152 | for a non-empty list, appending fragment x extends the value by "," followed by x |
| `CommaJoin.JoinAppend` | i18nbinder-core/src/main/java/org/omnaest/i18nbinder/internal/ResourceBundleContent.java:152 | joining two non-empty lists is joining each and putting one comma between |
| `CommaJoin.Split` | i18nbinder-core/src/main/java/org/omnaest/i18nbinder/internal/ResourceBundleContent.java:152 | the partial inverse of the join: at least one piece, none containing a comma |
| `CommaJoin.SplitCommaFree` | i18nbinder-core/src/main/java/org/omnaest/i18nbinder/internal/ResourceBundleContent.java:152 | a value without commas reads back as a one-fragment list |
| `CommaJoin.SplitAfterPiece` | i18nbinder-core/src/main/java/org/omnaest/i18nbinder/internal/ResourceBundleContent.java:152 | a comma-free first fragment followed by a comma is split off as the first piece |
| `CommaJoin.SplitJoin` | i18nbinder-core/src/main/java/org/omnaest/i18nbinder/internal/ResourceBundleContent.java:152 | round trip: a non-empty list of comma-free fragments is recovered from its joined value |
| `CommaJoin.JoinIsLossy` | i18nbinder-core/src/main/java/org/omnaest/i18nbinder/internal/ResourceBundleContent.java:152 | the flattening loses information: `["de,en"]` and `["de", "en"]` give the same value, and so do the empty list and `[""]` |
| `Multimaps.Dedup` | i18nbinder-core/src/main/java/org/omnaest/i18nbinder/internal/ResourceBundleContent.java:137 | the linked-hash-set value order: no element twice, exactly the elements of the input, no longer than the input |
| `Multimaps.DedupOfNoDup` | i18nbinder-core/src/main/java/org/omnaest/i18nbinder/internal/ResourceBundleContent.java:137 | de-duplicating a duplicate-free sequence changes nothing |
| `Multimaps.Values` | i18nbinder-core/src/main/java/org/omnaest/i18nbinder/internal/ResourceBundleContent.java:102-104 | the reference definition of a multimap's `get(k)`: the values of the entries with key k, in entry order, never more than there are entries; `ValuesMember`, `ValuesAppend` and `ValuesSnoc` state its properties |
| `Multimaps.ValuesMember` | i18nbinder-core/src/main/java/org/omnaest/i18nbinder/internal/ResourceBundleContent.java:102-104 | a translation is among a key's translations exactly when the entry (key, translation) is in the content |
| `Multimaps.ValuesSnoc` | i18nbinder-core/src/main/java/org/omnaest/i18nbinder/internal/ResourceBundleContent.java:108 | appending an entry adds its value to its own key's values only |
| `Multimaps.SetMultimap.Put` | i18nbinder-core/src/main/java/org/omnaest/i18nbinder/internal/ResourceBundleContent.java:152 | a put into the set-valued multimap keeps it well formed; the key set gains the key; the key's values gain the value at the end unless it is already there; other keys are untouched |
| `Multimaps.SetMultimap.Entries` | i18nbinder-core/src/main/java/org/omnaest/i18nbinder/internal/ResourceBundleContent.java:156 | the entries handed to the new bundle: no duplicate entry, and reading a key back gives exactly that key's values |
| `Multimaps.Empty` | i18nbinder-core/src/main/java/org/omnaest/i18nbinder/internal/ResourceBundleContent.java:137 | the freshly built multimap is well formed and holds nothing under any key |
| `ResourceBundles.TranslationOf` | i18nbinder-core/src/main/java/org/omnaest/i18nbinder/internal/ResourceBundleContent.java:152 | the entry one property of a language's file contributes: the property's key with a translation in that language; a one-fragment value list is stored unchanged, and a longer list always leaves a comma in the value |
| `ResourceBundles.PutsMember` | i18nbinder-core/src/main/java/org/omnaest/i18nbinder/internal/ResourceBundleContent.java:139-153 | an entry is put while reading the files exactly when some property of some file yields it: that property's key, with the file's language and the joined value list |
| `ResourceBundles.TracksPut` | i18nbinder-core/src/main/java/org/omnaest/i18nbinder/internal/ResourceBundleContent.java:150-153 | one put keeps the multimap equal, key by key, to the de-duplicated entries read so far |
| `ResourceBundles.TracksEntries` | i18nbinder-core/src/main/java/org/omnaest/i18nbinder/internal/ResourceBundleContent.java:156 | after the loop, the multimap's entries are the arrangement of all entries put, in the multimap's own key order |
| `ResourceBundles.ArrangementValues` | i18nbinder-core/src/main/java/org/omnaest/i18nbinder/internal/ResourceBundleContent.java:137 | in any arrangement, a key's translations are the ones put under it, each once, in first-put order |
| `ResourceBundles.FromFilesContentByKey` | i18nbinder-core/src/main/java/org/omnaest/i18nbinder/internal/ResourceBundleContent.java:136-156 | in any content `fromFiles` produces: each key's translations are the de-duplicated ones put; no (key, translation) entry occurs twice, so a pair read twice is kept once; the entries are exactly the entries put |
| `ResourceBundles.FromFilesComplete` | i18nbinder-core/src/main/java/org/omnaest/i18nbinder/internal/ResourceBundleContent.java:139-153 | for every language l and every property with key k and value list vs in l's file, the content holds (k, Translation(l, vs joined by commas)) |
| `ResourceBundles.FromFilesSound` | i18nbinder-core/src/main/java/org/omnaest/i18nbinder/internal/ResourceBundleContent.java:139-154 | nothing is invented: every entry is the translation of some property of some file, under that property's key |
| `ResourceBundles.FromFilesNoPlaceholder` | i18nbinder-core/src/main/java/org/omnaest/i18nbinder/internal/ResourceBundleContent.java:139-154 | with one file per language, a key missing from a language's file has no translation in that language; no empty placeholder is added |
| `ResourceBundles.FromFilesOneKeyTwoLanguages` | i18nbinder-core/src/main/java/org/omnaest/i18nbinder/internal/ResourceBundleContent.java:139-153 | two files in different languages that both define one key (English `greeting=Hello`, German `greeting=Hallo`) give that key alone, with both translations in reading order |
| `ResourceBundles.FromFilesOnePerKeyAndLanguage` | i18nbinder-core/src/main/java/org/omnaest/i18nbinder/internal/ResourceBundleContent.java:136-153 | with one file per language and each key once per file, each (key, language) pair has at most one entry |

## Left out

- Property-file loading and parsing, Java-style unicode escaping and the file encoding are done by the external `PropertyFile` library. They are file I/O, so `fromFiles` takes parsed properties instead of files.
- `ResourceBundles.ResourceBundleContent.FromFiles`: promises only some key order, not which one. The source's key order is Guava's hash order, which nothing specifies. The model computes keys in first-put order but does not promise it.
- `ResourceBundles.ResourceBundleContent.GetContent`: returns the entries as a value. In the source the returned multimap is the live field, so a caller could change the bundle through it. That aliasing is not modelled.
- `ResourceBundles.ResourceBundleContent.constructor`: takes the entries as a value. Copying from a mutable multimap and the independence that follows are given by value semantics, not proved about aliased objects.
- The Java classes `Language` and `Translation` are not part of this model. The model makes both datatypes, a `Language` holding a tag and a `Translation` holding a language and a value, and so gives both value equality. The de-duplication in `fromFiles` (line 137) relies on that equality.
- `toString` is text formatting for debugging only.
- The "thread-safe immutable" claim of the class comment is about concurrency, and `addTranslation` contradicts it.
- `InconsistentBundleBaseNameException` is documented for `fromFiles` but never thrown, so it has no error path.
- Java `null` is not modelled. `addTranslation` accepts a null key or a null translation, because the content multimap allows null; the model's types cannot express it. A null value fragment makes `fromFiles` throw a `NullPointerException` in the joiner; that error path is not modelled either.
- The rest of the system is not part of this model: the locale matcher, locale filter, bundle grouper, spreadsheet codec and the Maven goals (`ExportXlsMojo`).
