# User dictionary and accent phrases of the AivisSpeech engine, in Dafny

This project models two sequential pieces of the AivisSpeech engine (a fork of the
VOICEVOX engine) and proves properties about them.

- **The user-dictionary manager** (`UserDictionary` in
  `voicevox_engine/user_dict/user_dict_manager.py`) keeps pronunciation overrides keyed
  by word UUID. Every change reads the whole store, changes it, writes it back and
  recompiles the analyzer's dictionary. Recompiling builds the MeCab/OpenJTalk source
  text in three steps:
  - the default dictionaries, in file-name order (POSIX path rules), each ending in a newline;
  - then one 15-field CSV row per user word;
  - then the text is compiled and swapped in as the active dictionary.

  Import first validates every entry against the part-of-speech table, then merges it
  with the store under one of two collision policies.
- **Accent-phrase construction in the Style-Bert-VITS2 engine**
  (`voicevox_engine/tts_pipeline/style_bert_vits2_tts_engine.py`) covers:
  - `_phone_tone2mora_tone`, which turns the phoneme/tone list of `g2p` into moras,
    holding a consonant until its vowel;
  - the two grouping passes of `create_accent_phrases`: at punctuation, then where the
    tone dips, gated by the `sep_phonemes_with_joshi` word counters;
  - the accent nucleus of each group, and building the `AccentPhrase`s;
  - the kana/tone list `synthesize_wave` derives back from accent phrases;
  - the dummy `update_length` and `update_pitch`;
  - the `tts_models` cache behind `load_model` and `is_model_loaded`.

Each file and what it holds:

| file | module | contents |
|---|---|---|
| `wrappers.dfy` | `Wrappers` | `Option`, `Result`, `Outcome` |
| `uuid.dfy` | `Uuid` | `str(UUID(s))`: the key normalisation of `UUID(s)`, 32 plain hexadecimal digits, and canonical formatting |
| `decimal.dfy` | `Decimal` | `str(int)` and its inverse |
| `words.dfy` | `Words` | the word record, part-of-speech rows, the exceptions of the manager |
| `dict_text.dfy` | `DictText` | CSV rows, default-dictionary order, the source text and the loops that build it |
| `user_dict.dfy` | `UserDict` | the store file, `read_dict`, the merge, validation, and the class `UserDictionary` |
| `mora.dfy` | `Moras` | `Mora` (a class: its lengths, vowel and pitch are updated in place), `AccentPhrase` |
| `phone_tone.dfy` | `PhoneTone` | `_phone_tone2mora_tone` |
| `grouping.dfy` | `Grouping` | cutting a list into consecutive groups |
| `accent_groups.dfy` | `AccentGroups` | the punctuation pass, the word counters and the accent-change pass |
| `accent.dfy` | `Accent` | accent nucleus, phrase building, the kana/tone list, `update_length`, `update_pitch` |
| `pipeline.dfy` | `AccentPipeline` | `create_accent_phrases` from the phoneme/tone list to the phrases |
| `model_cache.dfy` | `ModelCaches` | the `tts_models` cache |

The store file is modelled as the JSON object's members in text order (`None` when
there is no file). `read_dict` is the fold over those members, a later member
overwriting an earlier one with the same UUID; repeated raw keys are not first merged
as `json.load` merges them. Writing picks an iteration order for the
dictionary (Python's insertion order is not modelled); the methods return it as a ghost
value. The analyzer's compiled and active dictionaries are abstract state holding the
source text they were compiled from.

Three behaviours of the code that the model keeps:
- **Import validation.** Validation takes the first part-of-speech row with the word's
  `context_id`, then asserts that the four part-of-speech fields and the accent rule
  match that row. `FirstRowWith` and `EntryCheck` model this.
- **Error kinds.** `UUID(...)` raises `ValueError` for a bad key, the lookup raises
  `ValueError` for an unknown `context_id`, and the assertions raise `AssertionError` on
  a part-of-speech mismatch. The model's `DictError` keeps these apart (`InvalidUuid`,
  `UnsupportedPartOfSpeech`, `PartOfSpeechMismatch`).
- **Colliding keys in `read_dict`.** Keys that normalise to the same UUID collapse to one
  entry, the later one winning, because `read_dict` canonicalises keys as it goes.

## Model

| member | source | states |
|---|---|---|
| Uuid.FormatIsCanonical | voicevox_engine/user_dict/user_dict_manager.py:214 | `str(UUID(..))` always yields the 36-character lower-case hyphenated form |
| Uuid.ParseFormat | voicevox_engine/user_dict/user_dict_manager.py:214 | parsing the canonical form of a UUID gives that UUID back |
| Uuid.FormatParse | voicevox_engine/user_dict/user_dict_manager.py:214 | a canonical key parses, and formats back to itself, so re-reading a written store keeps every key |
| Decimal.NatRoundTrip | voicevox_engine/user_dict/user_dict_manager.py:159-175 | the decimal spelling of a natural number parses back to it |
| Decimal.IntRoundTrip | voicevox_engine/user_dict/user_dict_manager.py:159-175 | the decimal spelling of an integer (context id, cost, accent type, mora count) parses back to it |
| DictText.SplitJoin | voicevox_engine/user_dict/user_dict_manager.py:153-158 | splitting a comma-joined row at commas gives its fields back when no field holds a comma |
| DictText.RowLayout | voicevox_engine/user_dict/user_dict_manager.py:153-175 | a user word's row splits into exactly 15 fields: surface, context id twice, `priority2cost(context_id, priority)`, the four part-of-speech fields, inflection type and form, stem, yomi, pronunciation, `accent_type/mora_count`, accent rule |
| DictText.AccentFieldSplits | voicevox_engine/user_dict/user_dict_manager.py:158 | the `accent_type/mora_count` field splits at `/` into the two numbers, which parse back |
| DictText.RowIsOneLine | voicevox_engine/user_dict/user_dict_manager.py:153-158 | a row ends in its only newline when the word's text fields hold no comma or newline |
| DictText.SortByName | voicevox_engine/user_dict/user_dict_manager.py:133 | the default files are sorted by name in code-point order (POSIX) and are a permutation of the files found |
| DictText.FilterDefaultDictFiles | voicevox_engine/user_dict/user_dict_manager.py:133 | exactly the `*.csv.zst` files of the directory are kept, matched case-sensitively (POSIX) |
| DictText.FilterCounts | voicevox_engine/user_dict/user_dict_manager.py:133 | each `*.csv.zst` entry (case-sensitive match) is kept exactly as often as the directory lists it, and no other entry is kept |
| DictText.FilterDistinct | voicevox_engine/user_dict/user_dict_manager.py:133 | a directory listing with distinct file names gives kept files with distinct names |
| DictText.DefaultDictFilesSpec | voicevox_engine/user_dict/user_dict_manager.py:133 | the default dictionaries are exactly the `*.csv.zst` files, each as often as the directory lists it (so once each when the names are distinct), in name order, under POSIX matching and ordering |
| DictText.WithFinalNewline | voicevox_engine/user_dict/user_dict_manager.py:145-146 | a default dictionary's content ends in a newline, keeps its text as a prefix, and grows by at most one character |
| DictText.DefaultsTextEndsWithNewline | voicevox_engine/user_dict/user_dict_manager.py:141-147 | the concatenated default dictionaries end in a newline, so user rows start on a line of their own |
| DictText.JoinDefaults | voicevox_engine/user_dict/user_dict_manager.py:141-147 | the loop concatenates every default content, newline-terminated, in order |
| DictText.AppendUserRows | voicevox_engine/user_dict/user_dict_manager.py:150-175 | the loop appends one row per user word, each word exactly once, in some enumeration of the dictionary |
| DictText.SourceTextLines | voicevox_engine/user_dict/user_dict_manager.py:125-175 | after the defaults, the source text's lines are exactly the user rows, one per word, then the empty text after the last newline |
| DictText.LinesJoin | voicevox_engine/user_dict/user_dict_manager.py:153-158 | newline-terminated rows are the rows joined by newlines plus a final newline |
| UserDict.LoadEntries | voicevox_engine/user_dict/user_dict_manager.py:210-215 | reading succeeds iff every key parses as a UUID (else `ValueError`), and every key of the result is canonical |
| UserDict.Load | voicevox_engine/user_dict/user_dict_manager.py:206-215 | no store file reads as the empty dictionary; otherwise as `LoadEntries` |
| UserDict.LoadSaved | voicevox_engine/user_dict/user_dict_manager.py:95-103 | reading back what `_write_to_json` wrote gives the same dictionary, in whatever order it was written, for canonical keys and a lossless save format |
| UserDict.LoadSavedSucceeds | voicevox_engine/user_dict/user_dict_manager.py:95-103 | a written store whose keys all parse as UUIDs reads back without error |
| UserDict.LoadEntriesSnoc | voicevox_engine/user_dict/user_dict_manager.py:213-214 | one more member with a canonical key binds that key to its converted word, overriding an earlier one |
| UserDict.LoadSavedPrefix | voicevox_engine/user_dict/user_dict_manager.py:98-101 | reading the first members written gives the dictionary restricted to their keys |
| UserDict.FirstRowWith | voicevox_engine/user_dict/user_dict_manager.py:232-233 | the index of the first part-of-speech row with the context id, or none iff no row has it |
| UserDict.EntryCheckPasses | voicevox_engine/user_dict/user_dict_manager.py:229-253 | an entry passes iff its key is a UUID and the first row with its context id agrees on the four part-of-speech fields and allows its accent rule |
| UserDict.Merge | voicevox_engine/user_dict/user_dict_manager.py:258-264 | the merged keys are the union; with `override` incoming values win on a collision, without it existing values win; every other value is kept |
| UserDict.UserDictionary.ReadDict | voicevox_engine/user_dict/user_dict_manager.py:203-215 | the loop reads the store as `Load` describes |
| UserDict.UserDictionary.WriteToJson | voicevox_engine/user_dict/user_dict_manager.py:95-103 | the store becomes every entry of the dictionary, each key once, in save format, and nothing else changes |
| UserDict.UserDictionary.UpdateDict | voicevox_engine/user_dict/user_dict_manager.py:105-201 | no default files means no change; a read or compile failure leaves the compiled and active dictionaries as they were; otherwise both become the compiled source text of the defaults and the current store; temporary files never survive |
| UserDict.UserDictionary.CompileAndSwap | voicevox_engine/user_dict/user_dict_manager.py:177-201 | `RuntimeError` when the compiler leaves no output, before the active dictionary is touched; else the new dictionary is moved into place and loaded; both temporary files are removed on every path |
| UserDict.UserDictionary.SaveAndUpdate | voicevox_engine/user_dict/user_dict_manager.py:267-268 | writing a dictionary whose keys all parse stores it in some order, it reads back without error (as itself when its keys are canonical), and the analyzer is recompiled from it: unchanged without default files or when compiling fails, else both dictionaries compiled from the defaults and the store |
| UserDict.UserDictionary.ApplyWord | voicevox_engine/user_dict/user_dict_manager.py:270-281 | the store becomes the old dictionary plus the new UUID bound to `create_word(property)`, one entry larger when the UUID is new; nothing is written when reading or `create_word` fails; returns the UUID unless recompiling fails; the compiled and active dictionaries stay as they were when there are no default files or compiling fails, and otherwise both become the dictionary compiled from the defaults and the new store |
| UserDict.UserDictionary.RewriteWord | voicevox_engine/user_dict/user_dict_manager.py:283-293 | an absent UUID fails with nothing written; otherwise only that key's word is replaced and the key set is unchanged; the compiled and active dictionaries stay as they were when there are no default files or compiling fails, and otherwise both become the dictionary compiled from the defaults and the new store |
| UserDict.UserDictionary.DeleteWord | voicevox_engine/user_dict/user_dict_manager.py:295-305 | an absent UUID fails with nothing written; otherwise exactly that key is removed; the compiled and active dictionaries stay as they were when there are no default files or compiling fails, and otherwise both become the dictionary compiled from the defaults and the new store |
| UserDict.UserDictionary.DeleteTwice | voicevox_engine/user_dict/user_dict_manager.py:295-305 | a second delete of the same UUID always fails with the not-found error |
| UserDict.UserDictionary.FindPartOfSpeech | voicevox_engine/user_dict/user_dict_manager.py:232-233 | the scan stops at the first row with the context id |
| UserDict.UserDictionary.ValidateImport | voicevox_engine/user_dict/user_dict_manager.py:229-253 | validation passes iff every entry passes, and a failure is the exception of some failing entry |
| UserDict.UserDictionary.ImportUserDict | voicevox_engine/user_dict/user_dict_manager.py:217-268 | any invalid entry aborts with the store unchanged; otherwise the store is the merge of the old dictionary and the import, reading back as that merge when the import keys are canonical; the compiled and active dictionaries stay as they were when there are no default files or compiling fails, and otherwise both become the dictionary compiled from the defaults and the new store |
| PhoneTone.Steps | voicevox_engine/tts_pipeline/style_bert_vits2_tts_engine.py:688-693 | the loop visits every pair except the first and the last, each with the next pair's tone |
| PhoneTone.ScanMoras | voicevox_engine/tts_pipeline/style_bert_vits2_tts_engine.py:693-736 | one mora per punctuation or vowel phone, in order, with its tone; punctuation gives a `pau` mora with the symbol as text and no consonant |
| PhoneTone.ScanCarriesConsonant | voicevox_engine/tts_pipeline/style_bert_vits2_tts_engine.py:709-734 | a consonant yields no mora of its own; a mora has a consonant iff it has a consonant length, and that length is 0 |
| PhoneTone.ConsonantAfterConsonant | voicevox_engine/tts_pipeline/style_bert_vits2_tts_engine.py:709-713 | two consonant phones in a row make the scan fail, whatever follows |
| PhoneTone.ScanFailsLater | voicevox_engine/tts_pipeline/style_bert_vits2_tts_engine.py:693-736 | the first exception the loop raises is the result, whatever follows |
| PhoneTone.HeldPending | voicevox_engine/tts_pipeline/style_bert_vits2_tts_engine.py:691-734 | the consonant the loop holds after some steps is `Held` of those steps: the last consonant, kept across punctuation and dropped by a vowel |
| PhoneTone.ScanMoraSources | voicevox_engine/tts_pipeline/style_bert_vits2_tts_engine.py:691-734 | the `j`-th mora comes from an increasing step position; a punctuation step gives its `pau` mora; a vowel step gives a mora with that vowel, the consonant held before it (also across punctuation), and text `MORA_PHONEMES_TO_MORA_KATA[consonant + vowel]`, which exists |
| PhoneTone.ScanFailure | voicevox_engine/tts_pipeline/style_bert_vits2_tts_engine.py:707-725 | the scan succeeds iff no step raises; a consonant raises `AssertionError` when one is held or its tone differs from the next, a vowel raises `KeyError` when consonant + vowel is missing from the table; a failure is the exception of the first raising step |
| PhoneTone.StepErrorMatches | voicevox_engine/tts_pipeline/style_bert_vits2_tts_engine.py:707-725 | one step of the loop fails exactly when `StepError` names an exception, and with that exception |
| PhoneTone.PhoneStepMora | voicevox_engine/tts_pipeline/style_bert_vits2_tts_engine.py:694-734 | one phone of the loop fails exactly when the scan step does, with its exception; otherwise it allocates a fresh mora holding the scanned value exactly when the scan makes one, and holds the consonant the scan holds |
| PhoneTone.PhoneToneToMoraTone | voicevox_engine/tts_pipeline/style_bert_vits2_tts_engine.py:682-736 | the loop raises exactly what the scan raises (`AssertionError`, `KeyError`), else returns fresh, distinct moras holding the scanned values and tones |
| Grouping.ChunkFlatten | voicevox_engine/tts_pipeline/style_bert_vits2_tts_engine.py:289-303 | concatenating the groups gives the list back |
| Grouping.ChunkNonEmpty | voicevox_engine/tts_pipeline/style_bert_vits2_tts_engine.py:289-303 | no group is empty |
| Grouping.ChunkStarts | voicevox_engine/tts_pipeline/style_bert_vits2_tts_engine.py:289-303 | a group starts exactly at position 0 and at every cut position |
| Grouping.FlattenElements | voicevox_engine/tts_pipeline/style_bert_vits2_tts_engine.py:365-367 | an element is in the flattened list iff it is in one of the groups |
| AccentGroups.FirstPassShape | voicevox_engine/tts_pipeline/style_bert_vits2_tts_engine.py:289-303 | the punctuation pass keeps every mora in order in non-empty groups, and a group starts exactly at index 0 or where a non-punctuation mora follows a punctuation mora |
| AccentGroups.GroupAtPunctuation | voicevox_engine/tts_pipeline/style_bert_vits2_tts_engine.py:289-303 | the loop cuts the list exactly at the punctuation starts |
| AccentGroups.RunTracksElements | voicevox_engine/tts_pipeline/style_bert_vits2_tts_engine.py:324-334 | with non-empty elements, the word counters after `p` moras stay in range iff `p` does not exceed the total element length, and then point at element `idx`, mora `mi` with `p` = the lengths before `idx` plus `mi` |
| AccentGroups.SplitRule | voicevox_engine/tts_pipeline/style_bert_vits2_tts_engine.py:324-359 | a sub-group starts at mora `i > 0` iff the tones dip (1,0,1 or 0,0,1) at `i` on an element's first mora, or dipped at `i-1` inside an element (the split deferred by one mora) |
| AccentGroups.DipsApart | voicevox_engine/tts_pipeline/style_bert_vits2_tts_engine.py:341-356 | two dips are never adjacent, so a deferred split never meets a dip of its own |
| AccentGroups.DipAt | voicevox_engine/tts_pipeline/style_bert_vits2_tts_engine.py:336-348 | the test on the previous, current and next tones, with no previous tone at the first mora and no next tone at the last, is the dip of the group's tone list |
| AccentGroups.PlaceMora | voicevox_engine/tts_pipeline/style_bert_vits2_tts_engine.py:340-359 | the mora starts a new sub-group exactly when a dip was held or it dips where a word begins; a dip inside a word is held for the next mora |
| AccentGroups.SplitInvStep | voicevox_engine/tts_pipeline/style_bert_vits2_tts_engine.py:316-359 | one mora of the inner loop keeps the counters equal to `Run`, the cuts equal to `AccentCuts`, and the sub-groups so far equal to the list cut there |
| AccentGroups.SplitGroup | voicevox_engine/tts_pipeline/style_bert_vits2_tts_engine.py:311-361 | one group's loop raises `IndexError` iff the counters run out; otherwise it cuts the group by the split rule and returns the advanced counters |
| AccentGroups.SplitAtAccentChanges | voicevox_engine/tts_pipeline/style_bert_vits2_tts_engine.py:308-362 | the second pass over all groups, the counters running on across groups, matches `Regroup` |
| AccentGroups.RegroupShape | voicevox_engine/tts_pipeline/style_bert_vits2_tts_engine.py:308-362 | the second pass fails iff the counters run out over all the moras; otherwise each group's sub-groups are non-empty and concatenate back to it |
| AccentGroups.RegroupFails | voicevox_engine/tts_pipeline/style_bert_vits2_tts_engine.py:308-362 | the second pass over all groups fails iff the word counters run out within the moras of all the groups |
| AccentGroups.RegroupPieces | voicevox_engine/tts_pipeline/style_bert_vits2_tts_engine.py:308-362 | a successful second pass gives one list of sub-groups per group; the sub-groups are non-empty and concatenate back to their group |
| AccentGroups.RegroupFlatten | voicevox_engine/tts_pipeline/style_bert_vits2_tts_engine.py:365-367 | the flattened sub-groups give back the moras, and none is empty |
| Accent.AccentIndex | voicevox_engine/tts_pipeline/style_bert_vits2_tts_engine.py:375-383 | the accent is 1 + the first position whose tone falls from 1 to 0, or the group's length when there is no fall; `1 <= accent <= len(group)` for a non-empty group |
| Accent.AccentFrom | voicevox_engine/tts_pipeline/style_bert_vits2_tts_engine.py:376-379 | the search from a position finds the first fall at or after it, or the length |
| Accent.FindAccent | voicevox_engine/tts_pipeline/style_bert_vits2_tts_engine.py:375-383 | the loop with its `break` computes `AccentIndex` |
| Accent.FixVowels | voicevox_engine/tts_pipeline/style_bert_vits2_tts_engine.py:386-393 | the group's moras in order; only a vowel `q` changes, to `cl`; nothing else of a mora changes |
| Accent.BuildAccentPhrases | voicevox_engine/tts_pipeline/style_bert_vits2_tts_engine.py:370-406 | one phrase per group with its moras in order, `AccentIndex` as accent, no pause mora; only `q` vowels change |
| Accent.PhraseListElements | voicevox_engine/tts_pipeline/style_bert_vits2_tts_engine.py:370-406 | the phrase for each group holds its moras in order, `AccentIndex` of its tones and no pause mora |
| Accent.ToneAt | voicevox_engine/tts_pipeline/style_bert_vits2_tts_engine.py:517-528 | tone 1 iff `index <= accent-1` and (`index > 0` or `accent == 1`), else 0 |
| Accent.AccentRoundTrip | voicevox_engine/tts_pipeline/style_bert_vits2_tts_engine.py:375-383 | reading the nucleus off the tones `synthesize_wave` derives from an accent gives that accent back |
| Accent.PhraseKataTones | voicevox_engine/tts_pipeline/style_bert_vits2_tts_engine.py:515-537 | one `(text, tone)` per mora in order, then `(",", 0)` when the phrase has a pause mora |
| Accent.KataTonesLength | voicevox_engine/tts_pipeline/style_bert_vits2_tts_engine.py:514-537 | the list has one entry per mora plus one per phrase with a pause mora |
| Accent.KataToneList | voicevox_engine/tts_pipeline/style_bert_vits2_tts_engine.py:514-537 | the loop builds the list phrase by phrase as `PhraseKataTones` says |
| Accent.UpdateLength | voicevox_engine/tts_pipeline/style_bert_vits2_tts_engine.py:415-433 | every mora's consonant length is 0 iff it has a consonant and none otherwise, its vowel length 0; vowel and pitch untouched; the same list is returned |
| Accent.UpdatePitch | voicevox_engine/tts_pipeline/style_bert_vits2_tts_engine.py:435-447 | every mora's pitch is 0; lengths and vowel untouched; the same list is returned |
| AccentPipeline.MorasOfFlatten | voicevox_engine/tts_pipeline/style_bert_vits2_tts_engine.py:365-367 | taking the moras out of the groups commutes with flattening |
| AccentPipeline.PhraseListBounds | voicevox_engine/tts_pipeline/style_bert_vits2_tts_engine.py:370-406 | the phrase of every non-empty group is non-empty, has its accent between 1 and its length, and has no pause mora |
| AccentPipeline.PhraseListMoras | voicevox_engine/tts_pipeline/style_bert_vits2_tts_engine.py:365-406 | the moras of the phrases, one phrase after the other, are the moras of the concatenated groups |
| AccentPipeline.PhrasesOfGroups | voicevox_engine/tts_pipeline/style_bert_vits2_tts_engine.py:365-406 | from non-empty groups that concatenate to the moras: exactly `PhraseList` of the groups (each phrase its group's moras, `AccentIndex` of its tones, no pause), accents inside the phrases, the moras in order, only `q` vowels changed |
| AccentPipeline.GroupIntoAccentPhrases | voicevox_engine/tts_pipeline/style_bert_vits2_tts_engine.py:289-406 | `IndexError` iff the moras outrun `sep_phonemes_with_joshi`; otherwise exactly the `PhraseOf` each group of `PhraseGroups` (punctuation cut, then accent-change cut, flattened), non-empty with accents inside and no pause, holding the moras in order, only `q` vowels changed |
| AccentPipeline.CreateAccentPhrases | voicevox_engine/tts_pipeline/style_bert_vits2_tts_engine.py:279-406 | the exceptions of `_phone_tone2mora_tone` first, then `IndexError` iff the counters run out; the phrases are exactly the `PhraseOf` each group of the scanned mora/tone list, so each accent is `AccentIndex` of its group's scanned tones, and hold the scanned moras in order, each changed only by the `q` to `cl` respelling |
| ModelCaches.LoadIdempotent | voicevox_engine/tts_pipeline/style_bert_vits2_tts_engine.py:180-182 | after a successful load every later load of that UUID returns the same model and changes nothing |
| ModelCaches.LoadKeepsOthers | voicevox_engine/tts_pipeline/style_bert_vits2_tts_engine.py:222 | loading one model keeps every other cached model |
| ModelCaches.ModelCache.LoadModel | voicevox_engine/tts_pipeline/style_bert_vits2_tts_engine.py:163-223 | the method's new cache and result are those of `LoadStep` |

## Left out

- Uuid.ParseUuid: only plain hexadecimal digits after normalisation. The sign, surrounding whitespace, `0x` prefix, single underscores and non-ASCII digits that `int(hex, 16)` also accepts are rejected, so such keys fail with `InvalidUuid` in `LoadEntries`, `EntryCheck` and `ImportUserDict`, where Python accepts them.
- Thread locks (`mutex_wrapper` and the two locks): every operation is sequential.
- The pytest and win32 branches of `update_dict` and the pytest-only default dictionary are not modelled; the model takes the production path.
- The `update_dict` call in the constructor: `UserDict.UserDictionary.constructor` starts with the given compiled dictionary and no active one.
- DictText.SortByName: orders names by code point, as `sorted` orders POSIX paths. On Windows, which `update_dict` also supports, `Path` ordering ignores case, so `["B.csv.zst", "a.csv.zst"]` sorts as `a, B` there and as `B, a` here.
- DictText.FilterDefaultDictFiles: matches `*.csv.zst` case-sensitively, as the glob does on POSIX. The Windows glob ignores case and would also keep `c.CSV.ZST`.
- DictText.FilterCounts: the per-entry counts are for the case-sensitive match, so on Windows entries such as `c.CSV.ZST` are kept as well.
- DictText.DefaultDictFilesSpec: "exactly the `*.csv.zst` files in name order" holds under POSIX rules. On Windows the match and the order both ignore case.
- UserDict.LoadEntries: repeated raw keys in the store file are folded in text order, last one wins. `json.load` first merges a repeated key into its first position with its last value, and only then are the keys normalised. So when two spellings of one UUID are interleaved with a repeat (`"A…": v1, "a…": v2, "A…": v3`), Python keeps `v2` where the model keeps `v3`. Files written by `_write_to_json` have no repeated keys and read back the same way in both.
- File I/O, zstandard decompression, JSON and pydantic (de)serialisation: default-dictionary contents are input strings, the store file is its list of members, and the JSON syntax itself is not modelled (malformed JSON is not one of the modelled errors).
- `pyopenjtalk.mecab_dict_index`, `unset_user_dict` and `update_global_jtalk_with_user_dict` are abstract effects. Whether the compiler leaves its output file is the parameter `compileOk`, and the compiled dictionary is represented by the source text it was compiled from.
- The random suffix of the temporary file names is not modelled; the temporary files are two `Option` fields.
- DictText.RowLayout: holds for words whose text fields contain no comma and no newline (`CsvSafe`). The code does not escape them; whether `create_word` rejects them is decided in `user_dict_word.py`, which is not part of this model.
- DictText.RowIsOneLine: the same premise (`CsvSafe`).
- DictText.SourceTextLines: the same premise, for every word of the dictionary.
- `uuid4()` is the parameter `newId`. Its freshness is not assumed, so `UserDict.UserDictionary.ApplyWord` states the size increase only when the UUID is new.
- `create_word`, `priority2cost`, `convert_to_save_format`, `convert_from_save_format` and `part_of_speech_data` live in `user_dict_word.py`, which is not part of this model. They are parameters or constants of the class; the save format is assumed lossless (`Lossless`).
- Python's dict iteration order is not modelled. `WriteToJson`, `AppendUserRows` and `ValidateImport` take some enumeration of the keys. `ValidateImport` therefore states that a failure is the exception of some failing entry, not of the first in insertion order.
- UserDict.UserDictionary.ImportUserDict: it states the written store for every import, but states that the store reads back as the merge only when the import keys are canonical. An import key in another UUID spelling is written as given and canonicalised on the next read, which can collapse two spellings of one UUID.
- `g2p`, `normalize_text`, the phonemes-to-kana and kana-to-phonemes tables and the regular-expression split of `_sep_kata_with_joshi2sep_phonemes_with_joshi` are inputs. Only the lengths of the `sep_phonemes_with_joshi` elements matter, and they are the parameter `lens`.
- AccentGroups.RunTracksElements: assumes non-empty `sep_phonemes_with_joshi` elements. With an empty element the counters still behave as the code does (`Step` models it), but the closed form does not hold.
- `update_length_and_pitch`, which `create_accent_phrases` calls last, belongs to the base engine class (`tts_engine.py`), which is not part of this model. `CreateAccentPhrases` stops before it; `UpdateLength` and `UpdatePitch` are modelled on their own.
- The rest of `synthesize_wave` (kana to phonemes, the "ガ" heuristic, float parameter mappings, `model.infer`, waveform processing) is not modelled; only the `kata_tone_list` loop is.
- `load_model` itself: AIVM metadata reading, `HyperParameters`, `TTSModel` construction and loading are the `load` parameter (the model or the error they raise). `ModelCaches.ModelCache.IsModelLoaded` is the membership test itself.
- Floating-point values (lengths, pitch) are Dafny `real`s; only the constants 0.0 and `None` appear.
- Engine construction (ONNX providers, BERT loading), the FastAPI router and path utilities are outside the modelled core.
