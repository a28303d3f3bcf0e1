# Closure Talk resource processors, modelled in Dafny

Closure Talk is a chat-story editor for two games, Blue Archive and
Arknights. For each game, a resource script builds a catalog from the
game's data:

- the **characters**, with their localized names and short names, their
  image names and their filter groups;
- the **avatar file** behind each image name;
- a **render-hint** table for some images;
- the chat **stamps**;
- the **filter categories**.

This project models the two scripts' core as functions over values, and it
proves what they promise about those values. Files, HTTP, YAML and glob
are not modelled: their results are given as inputs. Where the script
updates variables in a loop, the model also has a `method` with that
loop. Its `ensures` ties the result to the specifying function.

Blue Archive (`blue_archive/get_resources_v2.py`):

- `ba_names.dfy`
  - the legacy image-name table
  - the default translation of a character
  - the merge of that default into the translation store, with the
    protected Japanese name "初音ミク"
  - the short names
- `ba_store.dfy`: the store and its dirty flag after the whole record
  loop, including that a second run writes nothing when the character
  data has one record per id
- `ba_images.dfy`: the per-character image loop:
  - exclusion
  - legacy names
  - the text after "Portrait_"
  - the three assertions
  - the `_Collection` crop hint
- `ba_catalog.dfy`: `get_chars` as a whole:
  - group lists
  - the no-school and no-club lists and their reports
  - the returned catalog
- `ba_stamps.dfy`: `get_stamps`, which sorts the stamp files by the number
  in their name
- `ba_filters.dfy`: `get_filters`, the school and club categories

Arknights (`arknights/get_resources.py`):

- `ak_versions.dfy`: `get_github_versions`, which scans commit messages
  for the first `[XX UPDATE]` of each region
- `ak_sprites.dfy`: base sprites and `add_sprite_file`
- `ak_chars.dfy`: `get_chars`:
  - operators with their skins and Amiya's alternate forms
  - enemies
  - the language fill
  - Closure
- `ak_filters.dfy`: `get_filters`, the single "type" category

Shared modules:

- `wrappers.dfy`: `Option` and `Result`. The script's exceptions and
  failed `assert`s become `Err` values.
- `text.dfy`: the string operations the scripts use:
  - `split` and `join`
  - `str.index`
  - `strip`
  - capitalising the first letter
  - lexicographic order
- `sorting.dfy`: Python's stable `sorted`, as an insertion sort with a
  key order. It is proved sorted, a permutation and stable.
- `models.dfy`: `Character` and `FilterGroup` of `utils/models.py`, and
  sorting strings.

The constants come from the scripts:

- the Arknights language codes, and the markers "Portrait_",
  "_Collection" and "Data:"
- the region table, and Amiya's alternate forms
- Closure's id, names and file path
- the filter type ids and their selection flags

The Blue Archive language list `all_langs` is imported from
`blue_archive/common.py`, which is not part of this model. It is taken to
be the five keys of the default translation, in the order "ja", "en",
"ko", "zh-cn", "zh-tw".

Behaviour of the code that is easy to misread; the model follows the
code:

- **`get_filters` of Blue Archive** reads `gp.name[k] or ""`.
  - A null name becomes "".
  - A language missing from the record raises `KeyError`. It is not
    filled with "".
  - `BlueArchiveFilters.NormaliseName` fails with `MissingGroupName`.
- **The English default name** looks only at whether the personal reading
  is empty. It does not check the family reading.
- **The no-family English name** upper-cases only the first letter of each
  piece of the id. An empty piece (`"a__b"`) raises `IndexError`.
- **A duplicate image name** is any name already in `avatar_files`. That
  includes a second image of the same character, not only one of another
  character.
- **The group list of a character** is not deduplicated. A group id that
  is both a club and a school appears twice.
- **Order of writes.** The translation store is written before the
  reports. A listed character without images fails its report line
  (`images[0]`) after the store was written. The model returns that error
  for the whole run.
- **Arknights `get_filters`** reads the title first and then the three
  group names, in order. The first missing key is the error.

## Model

| member | source | states |
|---|---|---|
| BlueArchiveNames.LegacyImageMappings | blue_archive/get_resources_v2.py:16-20 | a basename is a key exactly when it is the last "/" segment of some non-empty value |
| BlueArchiveNames.LegacyImageMappingsLastWins | blue_archive/get_resources_v2.py:16-20 | an entry maps its segment back to its own key unless a later non-empty entry has the same segment |
| BlueArchiveNames.WithoutNpc | blue_archive/get_resources_v2.py:33 | keeps exactly the pieces that are not "npc", and no more pieces than it was given |
| BlueArchiveNames.CapitalizeAll | blue_archive/get_resources_v2.py:33 | succeeds exactly when every piece is non-empty; each word is its piece with the first letter upper-cased |
| BlueArchiveNames.EnglishFromId | blue_archive/get_resources_v2.py:33 | the name from the id fails exactly when a kept piece of the id is empty |
| BlueArchiveNames.EnglishFromIdWords | blue_archive/get_resources_v2.py:33 | that name splits on spaces back into one word per kept piece; each word is the capitalised piece, with the rest unchanged |
| BlueArchiveNames.NpcFilterIsCaseSensitive | blue_archive/get_resources_v2.py:33 | an example of `WithoutNpc`: the comparison is case-sensitive, so of the pieces "npc", "NPC", "Npc", "shop" only "npc" is dropped |
| BlueArchiveNames.DefaultLangData | blue_archive/get_resources_v2.py:23-45 | the default translation exists exactly when there is a family name or the id yields a name; it keeps the id, has no short names, has exactly the five languages, and has empty Chinese names |
| BlueArchiveNames.DefaultNameRules | blue_archive/get_resources_v2.py:24-34 | the Japanese, English and Korean default names in both branches; the Korean name has no outer whitespace |
| BlueArchiveNames.DefaultNameWithFamily | blue_archive/get_resources_v2.py:24-30 | with a family name, the default always exists and takes the family-branch names |
| BlueArchiveNames.BackfillKeeps | blue_archive/get_resources_v2.py:95-100 | backfilling adds exactly the missing languages, copied from the default, and keeps every stored name |
| BlueArchiveNames.MergeEntryRules | blue_archive/get_resources_v2.py:81-100 | a new id takes the default; a stored entry without "ja" is an error; a stale Japanese name brings the default's ja and en; missing languages come from the default; all else is kept; "changed" holds exactly when the entry changed |
| BlueArchiveNames.MergedName | blue_archive/get_resources_v2.py:86-100 | the merged name table of a stored entry, language by language |
| BlueArchiveNames.MergedChange | blue_archive/get_resources_v2.py:86-100 | after the merge every language is present and the Japanese name is the default's or the protected one; the change flag holds exactly when the entry changed |
| BlueArchiveNames.MergeEntryFixpoint | blue_archive/get_resources_v2.py:86-100 | an entry with every language whose Japanese name is the default's or the protected one is left as it is and not marked changed |
| BlueArchiveNames.MergeTranslation | blue_archive/get_resources_v2.py:81-100 | the merge as the script runs it equals `MergeEntry` |
| BlueArchiveNames.BackfillLanguages | blue_archive/get_resources_v2.py:95-100 | the language loop equals `Backfill`, and it reports a change exactly when a language was missing |
| BlueArchiveNames.FillShortNamesRule | blue_archive/get_resources_v2.py:102-105 | each language keeps a non-empty stored short name, otherwise takes the last space-separated word of its name; other entries are kept |
| BlueArchiveNames.ShortNamesRule | blue_archive/get_resources_v2.py:102-105 | every language gets a short name; a derived one has no space and is a suffix of the name |
| BlueArchiveNames.ComputeShortNames | blue_archive/get_resources_v2.py:102-105 | the short-name loop equals `ShortNames` |
| BlueArchiveStore.MergeAllFrame | blue_archive/get_resources_v2.py:77-100 | the store gains exactly the records' ids and keeps every other entry |
| BlueArchiveStore.MergeAllKeys | blue_archive/get_resources_v2.py:77-100 | the store's keys after the loop are its old keys plus the records' ids |
| BlueArchiveStore.MergeAllKeeps | blue_archive/get_resources_v2.py:77-100 | an entry whose id no record has is unchanged |
| BlueArchiveStore.StoreChanged | blue_archive/get_resources_v2.py:81-100 | one merge reports a change exactly when writing its entry back changes the store |
| BlueArchiveStore.MergeAllDirty | blue_archive/get_resources_v2.py:77-100 | with one record per id, the dirty flag ends up set exactly when it was set before or the store's contents changed |
| BlueArchiveStore.MergeAllSettles | blue_archive/get_resources_v2.py:77-100 | with one record per id, after the loop, every record's entry has all languages and the default's or the protected Japanese name |
| BlueArchiveStore.MergeAllFixed | blue_archive/get_resources_v2.py:77-100 | a store in which every record is settled is returned unchanged, with the flag as it was |
| BlueArchiveStore.MergeAllIdempotent | blue_archive/get_resources_v2.py:77-100 | with one record per id, a second run over the store the first run wrote changes nothing and leaves the flag clear |
| BlueArchiveImages.ResolveImagesSucceeds | blue_archive/get_resources_v2.py:116-136 | the image loop succeeds exactly when every reference that is not excluded has a canonical name, and all claimed names are non-empty, pairwise different, not yet taken, and have files that exist |
| BlueArchiveImages.ResolveImagesNames | blue_archive/get_resources_v2.py:116-132 | the names are the claimed names in order; the avatar table gains exactly them, each mapped to its file, and keeps its earlier entries |
| BlueArchiveImages.ResolveImagesList | blue_archive/get_resources_v2.py:116-132 | the claimed names in order, and the avatar table's new keys |
| BlueArchiveImages.ResolveImagesFiles | blue_archive/get_resources_v2.py:128-132 | each claimed name maps to `res_root/<img>.png`, and earlier entries are kept |
| BlueArchiveImages.ResolveImagesHints | blue_archive/get_resources_v2.py:133-136 | the hint table gains exactly the files of the claimed references whose stem ends in "_Collection" |
| BlueArchiveImages.ResolveCharImages | blue_archive/get_resources_v2.py:116-138 | the image loop as the script runs it, plus the sort, equals `CharImages` |
| BlueArchiveCatalog.MemberGroupIds | blue_archive/get_resources_v2.py:112 | a group id is listed exactly when some group with that id has the character as a member |
| BlueArchiveCatalog.GroupsOfMeaning | blue_archive/get_resources_v2.py:112 | a character's groups are sorted and are the clubs and schools that list it |
| BlueArchiveCatalog.CharImagesFresh | blue_archive/get_resources_v2.py:116-138 | one character's images are sorted, pairwise different and new to the catalog; the avatar table gains exactly them, each with an existing file, and keeps its entries |
| BlueArchiveCatalog.ResolveImagesFresh | blue_archive/get_resources_v2.py:116-136 | the claimed names are pairwise different and new, and each new entry has an existing file |
| BlueArchiveCatalog.StepKeepsImages | blue_archive/get_resources_v2.py:77-143 | one iteration keeps the image invariant: names unique across the catalog, equal to the avatar table's keys, with existing files, each list sorted |
| BlueArchiveCatalog.StepKeepsLists | blue_archive/get_resources_v2.py:77-143 | one iteration keeps the name and list invariant: full names, the character's groups, and the no-school and no-club lists |
| BlueArchiveCatalog.ProcessKeepsImages | blue_archive/get_resources_v2.py:77-143 | the whole loop keeps the image invariant |
| BlueArchiveCatalog.ProcessKeepsLists | blue_archive/get_resources_v2.py:77-143 | the whole loop keeps the name and list invariant |
| BlueArchiveCatalog.UnlistedFrom | blue_archive/get_resources_v2.py:140-143 | every listed character is one of the characters, and no group of the pool lists it |
| BlueArchiveCatalog.ReportSucceeds | blue_archive/get_resources_v2.py:150-155 | when every listed character has an image, the report has one entry per character, in order |
| BlueArchiveCatalog.ReportFails | blue_archive/get_resources_v2.py:150-155 | the report fails at the first listed character without images |
| BlueArchiveCatalog.ProcessIds | blue_archive/get_resources_v2.py:77-139 | the loop appends one character per record, with the record's id, in order |
| BlueArchiveCatalog.GetCharsRecords | blue_archive/get_resources_v2.py:52-157 | the returned characters are one per record, in order; each has a name in every language and the clubs and schools that list it |
| BlueArchiveCatalog.GetCharsImages | blue_archive/get_resources_v2.py:116-157 | the returned images are unique across characters, sorted per character, and exactly the avatar table's keys; every file exists |
| BlueArchiveCatalog.GetCharsReports | blue_archive/get_resources_v2.py:140-155 | each report lists, in order, the characters that no school (or no club) lists, with id, Japanese name and least image name |
| BlueArchiveCatalog.ReportListsHold | blue_archive/get_resources_v2.py:150-155 | a successful report over sorted image lists carries id, Japanese name and least image name |
| BlueArchiveCatalog.ProcessMerges | blue_archive/get_resources_v2.py:77-100 | the loop's store and flag are those of `MergeAll` over the same records |
| BlueArchiveCatalog.GetCharsTranslations | blue_archive/get_resources_v2.py:77-148 | the store `get_chars` writes is the merge of every record's default into the store it read, with that merge's flag |
| BlueArchiveCatalog.GetCharsDirty | blue_archive/get_resources_v2.py:145-148 | with one record per id, the store is rewritten exactly when its contents changed |
| BlueArchiveCatalog.GetCharsRerun | blue_archive/get_resources_v2.py:52-157 | with one record per id, running again on the store it wrote returns the same catalog and writes nothing |
| BlueArchiveCatalog.StepRerun | blue_archive/get_resources_v2.py:77-143 | an iteration over a settled store entry gives the same character and tables, and leaves the store and flag alone |
| BlueArchiveCatalog.ProcessRerun | blue_archive/get_resources_v2.py:77-143 | with one record per id, the whole loop over settled entries gives the same result and leaves the store and flag alone |
| BlueArchiveCatalog.WriteReport | blue_archive/get_resources_v2.py:150-155 | one report file written entry by entry equals `Report` |
| BlueArchiveCatalog.AddCharacter | blue_archive/get_resources_v2.py:78-100 | one iteration as the script runs it equals `Step` |
| BlueArchiveCatalog.AppendCharacter | blue_archive/get_resources_v2.py:101-143 | the second half of an iteration equals `Completed` |
| BlueArchiveCatalog.ProcessRecords | blue_archive/get_resources_v2.py:77-143 | the record loop equals `Process` |
| BlueArchiveCatalog.GetChars | blue_archive/get_resources_v2.py:52-157 | `get_chars` equals `GetCharsSpec` |
| BlueArchiveCatalog.WriteReports | blue_archive/get_resources_v2.py:150-157 | the two reports and the result equal `Finish` |
| BlueArchiveStamps.StampFiles | blue_archive/get_resources_v2.py:160-161 | a path is listed exactly when it is the root joined with a directory entry that ends in "_Jp.png" and does not start with "." |
| BlueArchiveStamps.ParseInt | blue_archive/get_resources_v2.py:163 | `int` succeeds exactly on stripped text with an optional sign and at least one digit |
| BlueArchiveStamps.ParseShow | blue_archive/get_resources_v2.py:163 | `int(str(n)) == n` for every integer |
| BlueArchiveStamps.StampKeyOfName | blue_archive/get_resources_v2.py:162-163 | the key of `<root>/ClanChat_Emoji_<n>_Jp.png` is `n` |
| BlueArchiveStamps.Keyed | blue_archive/get_resources_v2.py:163 | on success, every file is paired with its key, in order |
| BlueArchiveStamps.KeyedFails | blue_archive/get_resources_v2.py:163 | computing the keys fails exactly when some file has none |
| BlueArchiveStamps.SortByKeyCorrect | blue_archive/get_resources_v2.py:163 | the sort fails exactly when some file has no key; otherwise the result is a permutation ordered by key, with files of equal key in input order |
| BlueArchiveStamps.GetStampsMeaning | blue_archive/get_resources_v2.py:159-163 | `get_stamps` fails exactly when a listed `*_Jp.png` file has no integer third "_"-piece; otherwise it returns every stamp file once, ordered by that number, with ties in listing order |
| BlueArchiveFilters.NormaliseName | blue_archive/get_resources_v2.py:172-173 | succeeds exactly when every language is present; then it has exactly the five languages, with null read as ""; otherwise it names the first missing language |
| BlueArchiveFilters.NormaliseRecord | blue_archive/get_resources_v2.py:173 | one group's names succeed exactly when it names every language of the store, and then hold exactly those languages |
| BlueArchiveFilters.NormaliseAllSpec | blue_archive/get_resources_v2.py:171-173 | normalising all groups succeeds exactly when every group names every language; the result is one table per group; an error is some group's error |
| BlueArchiveFilters.NormaliseAllMeaning | blue_archive/get_resources_v2.py:171-173 | the normalised tables hold every language of each group, with null read as "" |
| BlueArchiveFilters.CategoryMeaning | blue_archive/get_resources_v2.py:169-180 | a category fails exactly when a group misses a language (that error first) or the type has no title; otherwise it is every group once, sorted by id and stable, with its names and nothing selected |
| BlueArchiveFilters.NamedPermutation | blue_archive/get_resources_v2.py:170 | sorting does not change whether every group names every language |
| BlueArchiveFilters.GetFiltersMeaning | blue_archive/get_resources_v2.py:165-182 | `get_filters` is the schools category, then the clubs category; the first failure is the result |
| BlueArchiveFilters.NormaliseGroups | blue_archive/get_resources_v2.py:171-173 | the name loop equals `NormaliseAll` |
| BlueArchiveFilters.BuildCategory | blue_archive/get_resources_v2.py:169-180 | one category as the script builds it equals `Category` |
| BlueArchiveFilters.GetFilters | blue_archive/get_resources_v2.py:165-182 | the category loop equals `GetFiltersSpec` |
| Sorting.SortByCorrect | blue_archive/get_resources_v2.py:170 | Python's `sorted` with a key: the result is sorted, a permutation of the input, and stable |
| Models.SortStrings | blue_archive/get_resources_v2.py:138 | `sorted` on strings: ordered and a permutation |
| ArknightsVersions.WithAkPrefix | arknights/get_resources.py:63 | `k` is a key exactly when `"ak-" + k` is, with the same value, and every key has that form |
| ArknightsVersions.UpdateResKeysShape | arknights/get_resources.py:39-44 | the four regions have pairwise different keys, and those keys are exactly the region languages |
| ArknightsVersions.ScanMessageMeaning | arknights/get_resources.py:52-58 | one message adds exactly the regions it is tagged for that were not yet found, with the text after its first "Data:"; it fails exactly when such a region exists and there is no "Data:" |
| ArknightsVersions.ScanMeaning | arknights/get_resources.py:50-61 | each region found before is kept; every other region gets the text after "Data:" in its first tagged message, or stays absent; the scan fails exactly when such a first message has no "Data:"; stopping early changes nothing |
| ArknightsVersions.GetGithubVersionsMeaning | arknights/get_resources.py:38-64 | "ak-"-prefixed region keys map to the text after "Data:" in the first message tagged for the region, international commits first; the keys are present exactly when such a message exists |
| ArknightsVersions.FirstTagged | arknights/get_resources.py:50-56 | the index of the first message whose start is the region's tag, or none |
| ArknightsVersions.ScanRegions | arknights/get_resources.py:52-58 | the region loop for one message equals `ScanMessage` |
| ArknightsVersions.ScanCommits | arknights/get_resources.py:50-61 | the message loop with its early exit equals `Scan` |
| ArknightsVersions.GetGithubVersions | arknights/get_resources.py:38-64 | `get_github_versions` equals `GetGithubVersionsSpec` |
| ArknightsSprites.FirstWithStem | arknights/get_resources.py:122 | the index of the first sprite with that stem, or none when no sprite has it |
| ArknightsSprites.FirstOccurrencesMembers | arknights/get_resources.py:135-143 | a stem is added exactly when it matches, is not yet used, and some sprite has it |
| ArknightsSprites.FirstOccurrencesDistinct | arknights/get_resources.py:135-143 | no stem is added twice |
| ArknightsSprites.FirstOccurrencesOrdered | arknights/get_resources.py:135-143 | the added stems come in the order of their first sprites |
| ArknightsSprites.AddMatchingImages | arknights/get_resources.py:135-143 | the sprite loop appends exactly those stems to the images and marks them used |
| ArknightsSprites.AddMatchingAvatars | arknights/get_resources.py:135-143 | each added stem maps to its first sprite with that stem, and other avatar entries are kept |
| ArknightsSprites.AddSpriteFile | arknights/get_resources.py:135-141 | `add_sprite_file` equals `AddSprite` |
| ArknightsSprites.AddSprites | arknights/get_resources.py:142-149 | a sprite loop equals `AddMatching` |
| ArknightsChars.KeyLeIsTotalPreorder | arknights/get_resources.py:119 | the key order of `sorted(..., key=pair[0])` is a total preorder |
| ArknightsChars.LangName | arknights/get_resources.py:183-185 | the table's non-empty name; otherwise the appellation for en and ja, and "" for the other languages |
| ArknightsChars.OperatorImagesMeaning | arknights/get_resources.py:130-149 | an operator's images are its id followed by the added stems; its id is not among them, so it keeps its base sprite |
| ArknightsChars.OperatorMeaning | arknights/get_resources.py:119-151 | an operator is added exactly when a sprite's stem is its id; it has Chinese names, tags (appellation, type), images (id, then added stems) and avatars (base sprite and first sprites) |
| ArknightsChars.AddedStemsMeaning | arknights/get_resources.py:142-149 | skins are the stems that start with the id and differ from it, once each, in sprite order; for Amiya, the alternate forms follow |
| ArknightsChars.EnemyMeaning | arknights/get_resources.py:161-172 | an enemy is added exactly when its name is not "-" and a sprite's stem is its id, with its id as its image and the enemy tag |
| ArknightsChars.OperatorsKeep | arknights/get_resources.py:119-151 | the operator loop keeps the invariant: every image has an avatar file, each of them a sprite with that stem, and names only in Chinese |
| ArknightsChars.EnemiesKeep | arknights/get_resources.py:161-172 | the enemy loop keeps the same invariant |
| ArknightsChars.FillCharMeaning | arknights/get_resources.py:180-186 | one character through the languages keeps its id, images and groups; it gets each language's name as name and short name, and keeps other names |
| ArknightsChars.FillLangsMeaning | arknights/get_resources.py:180-186 | the language loop does that for every character |
| ArknightsChars.CollectedInvariant | arknights/get_resources.py:119-172 | after both loops every image has an avatar file, and every file is a sprite with that stem |
| ArknightsChars.GetCharsMeaning | arknights/get_resources.py:73-207 | Closure always has an avatar; she is put first exactly when no sprite gave her one; every image has a file; everyone is named in all five languages, with short names equal to names; the rest keep their collected order and table names |
| ArknightsChars.WithClosureKeeps | arknights/get_resources.py:188-205 | adding Closure keeps everyone fully named and every image backed by a file |
| ArknightsChars.BaseSprite | arknights/get_resources.py:122 | the generator search returns the first sprite with that stem, or none |
| ArknightsChars.AddOperator | arknights/get_resources.py:119-151 | one operator iteration equals `Operator` |
| ArknightsChars.AddEnemy | arknights/get_resources.py:161-172 | one enemy iteration equals `Enemy` |
| ArknightsChars.FillLanguage | arknights/get_resources.py:181-186 | the inner language loop equals `FillLang` |
| ArknightsChars.FillLanguages | arknights/get_resources.py:180-186 | the outer language loop equals `FillLangs` |
| ArknightsChars.CollectOperators | arknights/get_resources.py:119-151 | the operator loop equals `Operators` |
| ArknightsChars.CollectEnemies | arknights/get_resources.py:161-172 | the enemy loop equals `Enemies` |
| ArknightsChars.GetChars | arknights/get_resources.py:73-207 | `get_chars` equals `GetCharsSpec` |
| ArknightsFilters.Lookup | arknights/get_resources.py:218-220 | `[t[k] for k in keys]` succeeds exactly when every key is present, with the values in order; otherwise it names the first missing key |
| ArknightsFilters.GetFiltersMeaning | arknights/get_resources.py:212-223 | it fails exactly when "type" or a group name is missing, naming the first one in reading order; otherwise one "type" category with three ids, their names, and only operators selected |
| ArknightsFilters.TypeIdsAreCharacterTags | arknights/get_resources.py:128-130 | the filter's ids are the tags `get_chars` gives ids starting with "char_", enemies, and ids starting with "token_" |
| ArknightsFilters.GetFilters | arknights/get_resources.py:212-223 | `get_filters` equals `GetFiltersSpec` |

## Left out

- **Not modelled; their results are inputs:**
  - reading files (JSON, YAML, text) and HTTP downloads
  - `glob`, and whether a file exists: an `existing` set of paths
  - the two GitHub commit lists
  - writing the translation store and the report files: the model returns
    their contents
- **Not modelled at all:**
  - `print` and `logging`
  - the YAML text, its key order and `sort_keys`
  - the sort of the written store by lower-cased id
- **Input forms:**
  - `name_to_id` is not part of this model. It is the function parameter
    `romanize`.
  - The glob and sort order of the Arknights sprite folders and files is
    taken as given: the sprites are a sequence in that order.
  - Paths are strings joined with "/". There is no path normalisation.
- `utils/fix_font.py`, the `ResourceProcessor` base class and
  `_get_versions` are not part of this model.
- **Arknights tables:**
  - `use_local_tables` is `False`, so every table is downloaded.
  - The traditional Chinese tables are empty, as in the script.
  - The "enemyData" unwrapping is part of loading, so it is not modelled.
  - Each table row is reduced to its name. A row without "name", or with a
    null name, is not modelled.
- **Aliasing:** the OmegaConf records and the `Character` objects are
  values. The script changes `trans.name` on the object the store holds;
  the model writes the merged entry back into the store, which gives the
  same store. The characters are a different matter. In the script a
  character holds the store's own name table (line 109). With a repeated
  id, a later record's merge can rewrite that table in place, for example
  a stale Japanese name at line 93. The earlier character's names, and
  its report line, then change with it. The model does not capture this
  shared table:
  - BlueArchiveCatalog.Append: each character keeps a copy of the names it
    was built with. With a repeated id, an earlier character does not see
    a later record's merge.
  - BlueArchiveCatalog.GetCharsRecords: the names it states are those each
    character was built with. With a repeated id, an earlier character's
    names can differ from the script's.
  - BlueArchiveCatalog.GetCharsReports: the Japanese name of a report line
    is the one its character was built with. With a repeated id, this can
    differ from the script's.
- **Legacy image names:** `get_chars` builds its table from the legacy
  file with `get_legacy_image_mappings` (line 72). The catalog takes that
  table as the input `ImageEnv.legacy` and does not build it itself;
  `BlueArchiveNames.LegacyImageMappings` models how it is built.
- **Blue Archive `all_langs`:** this model takes the five default
  languages, in the order "ja", "en", "ko", "zh-cn", "zh-tw". The order
  decides which missing language `get_filters` names first.
  - A list holding a language that the default translation lacks would
    make line 98 raise. The model cannot express this, because its
    functions require the default to name every language.
- **Null names in the translation store:** the store's names and short
  names are strings. A null in `lang/char.yaml` would make line 104
  (`len(None)`) or line 105 (`.split`) raise, and the model has no such
  input.
- Arknights `get_chars` returns a third result, always `{}`. The model
  drops it.
- Arknights `get_stamps` returns `[]`. It has no model.
- BlueArchiveStamps.ParseInt: only ASCII digits and ASCII or Unicode
  whitespace are accepted. `int` also accepts other Unicode decimal digits
  and `_` between digits, but a piece of a split on "_" cannot hold an
  underscore.
- BlueArchiveNames.CapitalizeAll: upper-casing covers ASCII letters only.
  Python's `str.upper` maps the whole of Unicode.
- BlueArchiveStore.MergeAllDirty and BlueArchiveCatalog.GetCharsDirty
  assume one record per id. With a repeated id, the flag can be set even
  though the final store equals the old one.
- **Repeated ids:** nothing in the script ensures one record per id.
  With two records of the same id and different defaults, the first
  entry is left unsettled and every run rewrites the store. The lemmas
  below assume one record per id:
  - BlueArchiveStore.MergeAllSettles
  - BlueArchiveStore.MergeAllIdempotent
  - BlueArchiveCatalog.ProcessRerun
  - BlueArchiveCatalog.GetCharsRerun
- ArknightsChars.AddedStemsMeaning: a skin is any stem that starts with the
  operator's id. There is no separator, so `char_1` would also take the
  sprites of `char_10`. The lemma states this as the code has it.
