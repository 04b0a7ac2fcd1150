/**
 * The user-dictionary manager (`UserDictionary` in user_dict/user_dict_manager.py):
 * a store of word records keyed by UUID strings, read in whole, changed and written
 * back in whole, and recompiled into the analyzer's dictionary after every change.
 *
 * The store file is the JSON object's members in text order; the conversions to and
 * from its save format, `create_word`, `priority2cost` and `part_of_speech_data`
 * come from user_dict/user_dict_word.py, which is not part of this model, and appear
 * here as the object's constants or as parameters.
 */
module UserDict {
  import opened Wrappers
  import opened Uuid
  import opened Words
  import opened DictText

  /** The members of the stored JSON object, as `json.load` returns them, in order. */
  type Entries<S> = seq<(string, S)>

  /**
   * The loop of `read_dict`: every key is parsed as a UUID and stored under its
   * canonical spelling, a later member overwriting an earlier one with the same UUID.
   * The first key that is not a UUID raises `ValueError`.
   */
  function LoadEntries<S>(entries: Entries<S>, fromSave: S -> Word): (r: Result<map<string, Word>, DictError>)
    ensures r.Success? <==> forall i :: 0 <= i < |entries| ==> ParseUuid(entries[i].0).Some?
    ensures r.Failure? ==> r.error == InvalidUuid
    ensures r.Success? ==> forall k :: k in r.value ==> IsCanonical(k)
  {
    if entries == [] then Success(map[])
    else
      var (key, s) := entries[|entries| - 1];
      match LoadEntries(entries[..|entries| - 1], fromSave)
      case Failure(e) => Failure(e)
      case Success(m) =>
        match ParseUuid(key)
        case None => Failure(InvalidUuid)
        case Some(u) => FormatIsCanonical(u); Success(m[FormatUuid(u) := fromSave(s)])
  }

  /** `read_dict`: no store file reads as the empty dictionary. */
  function Load<S>(file: Option<Entries<S>>, fromSave: S -> Word): (r: Result<map<string, Word>, DictError>)
    ensures file.None? ==> r == Success(map[])
    ensures r.Success? ==> forall k :: k in r.value ==> IsCanonical(k)
    ensures file.Some? ==> (r.Success? <==> forall i :: 0 <= i < |file.value| ==> ParseUuid(file.value[i].0).Some?)
  {
    match file
    case None => Success(map[])
    case Some(entries) => LoadEntries(entries, fromSave)
  }

  /** The JSON object `_write_to_json` writes for `dict`, its members in the order `order`. */
  function Saved<S>(dict: map<string, Word>, order: seq<string>, toSave: Word -> S): (r: Entries<S>)
    requires InDict(order, dict)
    ensures |r| == |order|
  {
    seq(|order|, i requires 0 <= i < |order| => (order[i], toSave(dict[order[i]])))
  }

  /** The save format loses nothing: `convert_from_save_format` undoes `convert_to_save_format`. */
  ghost predicate Lossless<S>(toSave: Word -> S, fromSave: S -> Word) {
    forall w :: fromSave(toSave(w)) == w
  }

  ghost predicate AllCanonical(keys: set<string>) {
    forall k :: k in keys ==> IsCanonical(k)
  }

  /** One more member with a canonical key: its word is stored under that very key. */
  lemma LoadEntriesSnoc<S>(entries: Entries<S>, key: string, s: S, fromSave: S -> Word, m: map<string, Word>)
    requires LoadEntries(entries, fromSave) == Success(m) && IsCanonical(key)
    ensures LoadEntries(entries + [(key, s)], fromSave) == Success(m[key := fromSave(s)])
  {
    FormatParse(key);
    assert (entries + [(key, s)])[..|entries|] == entries;
  }

  lemma SavedSnoc<S>(dict: map<string, Word>, order: seq<string>, toSave: Word -> S)
    requires InDict(order, dict) && order != []
    ensures InDict(order[..|order| - 1], dict)
    ensures Saved(dict, order, toSave) ==
      Saved(dict, order[..|order| - 1], toSave) + [(order[|order| - 1], toSave(dict[order[|order| - 1]]))]
  {
  }

  lemma RestrictSnoc(dict: map<string, Word>, init: seq<string>, key: string)
    requires key in dict && forall k :: k in init ==> k in dict
    ensures (map k | k in init + [key] :: dict[k]) == (map k | k in init :: dict[k])[key := dict[key]]
  {
    assert forall k :: k in init + [key] <==> k in init || k == key;
  }

  /** Reading back what was written for canonical keys gives the words of the keys written. */
  lemma {:induction false} LoadSavedPrefix<S>(dict: map<string, Word>, order: seq<string>,
                                              toSave: Word -> S, fromSave: S -> Word)
    requires InDict(order, dict) && AllCanonical(dict.Keys) && Lossless(toSave, fromSave)
    ensures LoadEntries(Saved(dict, order, toSave), fromSave) == Success(map k | k in order :: dict[k])
  {
    if order != [] {
      var init := order[..|order| - 1];
      var key := order[|order| - 1];
      SavedSnoc(dict, order, toSave);
      LoadSavedPrefix(dict, init, toSave, fromSave);
      var before := map k | k in init :: dict[k];
      LoadEntriesSnoc(Saved(dict, init, toSave), key, toSave(dict[key]), fromSave, before);
      assert order == init + [key];
      RestrictSnoc(dict, init, key);
    }
  }

  /** `read_dict` after `_write_to_json` of a dict with canonical keys gives that dict back. */
  lemma LoadSaved<S>(dict: map<string, Word>, order: seq<string>, toSave: Word -> S, fromSave: S -> Word)
    requires IsEnumeration(order, dict.Keys) && AllCanonical(dict.Keys) && Lossless(toSave, fromSave)
    ensures InDict(order, dict)
    ensures Load(Some(Saved(dict, order, toSave)), fromSave) == Success(dict)
  {
    LoadSavedPrefix(dict, order, toSave, fromSave);
    assert (map k | k in order :: dict[k]) == dict;
  }

  /** Whatever keys were written, the file reads back without error when every key is a UUID. */
  lemma LoadSavedSucceeds<S>(dict: map<string, Word>, order: seq<string>, toSave: Word -> S, fromSave: S -> Word)
    requires InDict(order, dict) && forall i :: 0 <= i < |order| ==> ParseUuid(order[i]).Some?
    ensures Load(Some(Saved(dict, order, toSave)), fromSave).Success?
  {
    var entries := Saved(dict, order, toSave);
    assert forall i :: 0 <= i < |entries| ==> entries[i].0 == order[i];
  }

  /**
   * The first `part_of_speech_data` row whose context id is the word's, as the inner
   * `for` loop of `import_user_dict` finds it before its `break`.
   */
  function FirstRowWith(rows: seq<PartOfSpeechDetail>, contextId: int): (r: Option<nat>)
    ensures r.None? <==> forall i :: 0 <= i < |rows| ==> rows[i].contextId != contextId
    ensures r.Some? ==> r.value < |rows| && rows[r.value].contextId == contextId &&
                        forall i :: 0 <= i < r.value ==> rows[i].contextId != contextId
  {
    if rows == [] then None
    else if rows[0].contextId == contextId then Some(0)
    else
      match FirstRowWith(rows[1..], contextId)
      case None => None
      case Some(i) => Some(i + 1)
  }

  /** The four POS fields agree with the row and the row allows the word's accent rule. */
  predicate AgreesWith(w: Word, row: PartOfSpeechDetail) {
    w.partOfSpeech == row.partOfSpeech &&
    w.partOfSpeechDetail1 == row.partOfSpeechDetail1 &&
    w.partOfSpeechDetail2 == row.partOfSpeechDetail2 &&
    w.partOfSpeechDetail3 == row.partOfSpeechDetail3 &&
    w.accentAssociativeRule in row.accentAssociativeRules
  }

  /** What the validation of `import_user_dict` makes of one incoming entry. */
  function EntryCheck(key: string, w: Word, rows: seq<PartOfSpeechDetail>): Outcome<DictError> {
    if ParseUuid(key).None? then Fail(InvalidUuid)
    else
      match FirstRowWith(rows, w.contextId)
      case None => Fail(UnsupportedPartOfSpeech)
      case Some(i) => if AgreesWith(w, rows[i]) then Pass else Fail(PartOfSpeechMismatch)
  }

  /** An entry passes exactly when its key is a UUID and its context id names a row it agrees with. */
  lemma EntryCheckPasses(key: string, w: Word, rows: seq<PartOfSpeechDetail>)
    ensures EntryCheck(key, w, rows) == Pass <==>
      ParseUuid(key).Some? &&
      exists i :: 0 <= i < |rows| && rows[i].contextId == w.contextId &&
        (forall j :: 0 <= j < i ==> rows[j].contextId != w.contextId) && AgreesWith(w, rows[i])
  {
    var first := FirstRowWith(rows, w.contextId);
    if first.Some? {
      forall i | 0 <= i < |rows| && rows[i].contextId == w.contextId &&
                 (forall j :: 0 <= j < i ==> rows[j].contextId != w.contextId)
        ensures i == first.value
      {
      }
    }
  }

  /**
   * The merge of `import_user_dict`: `{**existing, **incoming}` when overriding,
   * `{**incoming, **existing}` otherwise (a later dict wins on a shared key).
   */
  function Merge(existing: map<string, Word>, incoming: map<string, Word>, override: bool): (r: map<string, Word>)
    ensures r.Keys == existing.Keys + incoming.Keys
    ensures override ==> forall k :: k in incoming ==> r[k] == incoming[k]
    ensures override ==> forall k :: k in existing && k !in incoming ==> r[k] == existing[k]
    ensures !override ==> forall k :: k in existing ==> r[k] == existing[k]
    ensures !override ==> forall k :: k in incoming && k !in existing ==> r[k] == incoming[k]
  {
    if override then existing + incoming else incoming + existing
  }

  /** A compiled dictionary, identified by the source text it was compiled from. */
  datatype Artifact = CompiledFrom(source: string)

  /**
   * `UserDictionary`. `store` is the user dictionary file, `compiled` the compiled
   * dictionary file, `active` the dictionary the analyzer has loaded, and `tmpCsv`
   * and `tmpCompiled` the two temporary files of `update_dict`.
   */
  class UserDictionary<S> {
    const toSave: Word -> S
    const fromSave: S -> Word
    const priority2cost: (int, int) -> int
    const partOfSpeechData: seq<PartOfSpeechDetail>
    /** The default dictionary directory: file names and their decompressed contents. */
    const defaultDictDir: seq<DictFile>

    var store: Option<Entries<S>>
    var compiled: Option<Artifact>
    var active: Option<Artifact>
    var tmpCsv: Option<string>
    var tmpCompiled: Option<Artifact>

    /** Between calls no temporary file is left behind. */
    ghost predicate Valid()
      reads this
    {
      Lossless(toSave, fromSave) && tmpCsv.None? && tmpCompiled.None?
    }

    constructor(toSave: Word -> S, fromSave: S -> Word, priority2cost: (int, int) -> int,
                partOfSpeechData: seq<PartOfSpeechDetail>, defaultDictDir: seq<DictFile>,
                store: Option<Entries<S>>, compiled: Option<Artifact>)
      requires Lossless(toSave, fromSave)
      ensures Valid()
      ensures this.toSave == toSave && this.fromSave == fromSave && this.priority2cost == priority2cost
      ensures this.partOfSpeechData == partOfSpeechData && this.defaultDictDir == defaultDictDir
      ensures this.store == store && this.compiled == compiled && active.None?
    {
      this.toSave := toSave;
      this.fromSave := fromSave;
      this.priority2cost := priority2cost;
      this.partOfSpeechData := partOfSpeechData;
      this.defaultDictDir := defaultDictDir;
      this.store := store;
      this.compiled := compiled;
      active := None;
      tmpCsv := None;
      tmpCompiled := None;
    }

    /** `read_dict`. */
    method ReadDict() returns (r: Result<map<string, Word>, DictError>)
      ensures r == Load(store, fromSave)
    {
      if store.None? {
        return Success(map[]);
      }
      var entries := store.value;
      var result := map[];
      for i := 0 to |entries|
        invariant LoadEntries(entries[..i], fromSave) == Success(result)
      {
        var (key, s) := entries[i];
        assert entries[..i + 1][..i] == entries[..i];
        var u := ParseUuid(key);
        if u.None? {
          assert !(forall j :: 0 <= j < |entries| ==> ParseUuid(entries[j].0).Some?);
          return Failure(InvalidUuid);
        }
        result := result[FormatUuid(u.value) := fromSave(s)];
      }
      assert entries[..|entries|] == entries;
      return Success(result);
    }

    /** `_write_to_json`: the dict's members in its iteration order `order`. */
    method WriteToJson(dict: map<string, Word>) returns (ghost order: seq<string>)
      modifies this`store
      ensures IsEnumeration(order, dict.Keys) && InDict(order, dict)
      ensures store == Some(Saved(dict, order, toSave))
    {
      var saved: Entries<S> := [];
      var rest := dict.Keys;
      order := [];
      while rest != {}
        invariant InDict(order, dict) && EnumeratedSoFar(order, rest, dict.Keys)
        invariant saved == Saved(dict, order, toSave)
        decreases rest
      {
        var k :| k in rest;
        EnumerationStep(order, rest, dict.Keys, k);
        saved := saved + [(k, toSave(dict[k]))];
        order := order + [k];
        rest := rest - {k};
      }
      EnumerationDone(order, dict.Keys);
      store := Some(saved);
    }

    /**
     * The analyzer's dictionaries after `update_dict` ran on the store as it now is:
     * unchanged when there are no default files or the compiler failed, otherwise
     * both the dictionary compiled from the defaults and the stored words, their rows
     * in the order `rowOrder`.
     */
    ghost predicate Recompiled(compileOk: bool, rowOrder: seq<string>,
                               compiledBefore: Option<Artifact>, activeBefore: Option<Artifact>)
      reads this
    {
      (DefaultDictFiles(defaultDictDir) == [] || !compileOk ==>
        compiled == compiledBefore && active == activeBefore) &&
      (DefaultDictFiles(defaultDictDir) != [] && compileOk ==>
        Load(store, fromSave).Success? &&
        var dict := Load(store, fromSave).value;
        IsEnumeration(rowOrder, dict.Keys) && InDict(rowOrder, dict) &&
        compiled == active ==
          Some(CompiledFrom(SourceText(Contents(DefaultDictFiles(defaultDictDir)), rowOrder, dict, priority2cost))))
    }

    /** What `update_dict` raises, if anything, in the current state. */
    function UpdateOutcome(compileOk: bool): Outcome<DictError>
      reads this
    {
      if DefaultDictFiles(defaultDictDir) == [] then Pass
      else
        match Load(store, fromSave)
        case Failure(e) => Fail(e)
        case Success(_) => if compileOk then Pass else Fail(CompileFailed)
    }

    /**
     * `update_dict`: builds the source text, writes it to a temporary CSV file,
     * compiles it to a temporary dictionary (`compileOk` says whether the compiler
     * leaves its output file), then unloads the active dictionary, moves the new one
     * into place and loads it. Both temporary files are removed on every path.
     */
    method UpdateDict(compileOk: bool) returns (outcome: Outcome<DictError>, ghost order: seq<string>)
      requires Valid()
      modifies this`compiled, this`active, this`tmpCsv, this`tmpCompiled
      ensures Valid()
      ensures outcome == UpdateOutcome(compileOk)
      ensures outcome.Fail? || DefaultDictFiles(defaultDictDir) == [] ==>
        compiled == old(compiled) && active == old(active)
      ensures outcome.Pass? && DefaultDictFiles(defaultDictDir) != [] ==>
        var dict := Load(store, fromSave).value;
        IsEnumeration(order, dict.Keys) && InDict(order, dict) &&
        compiled == active ==
          Some(CompiledFrom(SourceText(Contents(DefaultDictFiles(defaultDictDir)), order, dict, priority2cost)))
    {
      order := [];
      var files := DefaultDictFiles(defaultDictDir);
      if |files| == 0 {
        return Pass, order;
      }
      var defaults := JoinDefaults(Contents(files));
      var userDict := ReadDict();
      if userDict.Failure? {
        return Fail(userDict.error), order;
      }
      var text;
      text, order := AppendUserRows(defaults, userDict.value, priority2cost);
      outcome := CompileAndSwap(text, compileOk);
    }

    /**
     * The tail of `update_dict`: the source text goes to the temporary CSV file and
     * is compiled; only when the compiler left its output is the active dictionary
     * unloaded, replaced and reloaded. The `finally` block removes both temporary files.
     */
    method CompileAndSwap(text: string, compileOk: bool) returns (outcome: Outcome<DictError>)
      requires Valid()
      modifies this`compiled, this`active, this`tmpCsv, this`tmpCompiled
      ensures Valid()
      ensures outcome == (if compileOk then Pass else Fail(CompileFailed))
      ensures outcome.Fail? ==> compiled == old(compiled) && active == old(active)
      ensures outcome.Pass? ==> compiled == active == Some(CompiledFrom(text))
    {
      tmpCsv := Some(text);
      if compileOk {
        tmpCompiled := Some(CompiledFrom(text));
      }
      if tmpCompiled.None? {
        outcome := Fail(CompileFailed);
      } else {
        active := None;
        compiled := tmpCompiled;
        tmpCompiled := None;
        if compiled.Some? {
          active := compiled;
        }
        outcome := Pass;
      }
      tmpCsv := None;
      tmpCompiled := None;
    }

    /**
     * `_write_to_json` followed by `update_dict`, the tail every change to the store
     * shares: the store becomes `dict` in some order, reads back without error, and
     * the analyzer is recompiled from it.
     */
    method SaveAndUpdate(dict: map<string, Word>, compileOk: bool)
      returns (outcome: Outcome<DictError>, ghost order: seq<string>, ghost rowOrder: seq<string>)
      requires Valid()
      requires forall k :: k in dict ==> IsCanonical(k) || ParseUuid(k).Some?
      modifies this
      ensures Valid()
      ensures IsEnumeration(order, dict.Keys) && InDict(order, dict) && store == Some(Saved(dict, order, toSave))
      ensures Load(store, fromSave).Success?
      ensures AllCanonical(dict.Keys) ==> Load(store, fromSave) == Success(dict)
      ensures outcome == (if DefaultDictFiles(defaultDictDir) == [] || compileOk then Pass else Fail(CompileFailed))
      ensures Recompiled(compileOk, rowOrder, old(compiled), old(active))
    {
      order := WriteToJson(dict);
      forall i | 0 <= i < |order| ensures ParseUuid(order[i]).Some? {
        if IsCanonical(order[i]) {
          FormatParse(order[i]);
        }
      }
      LoadSavedSucceeds(dict, order, toSave, fromSave);
      if AllCanonical(dict.Keys) {
        LoadSaved(dict, order, toSave, fromSave);
      }
      outcome, rowOrder := UpdateDict(compileOk);
    }

    /**
     * `apply_word`: adds the word `createWord` makes under the key `str(newId)`,
     * `newId` standing for what `uuid4()` returns, and returns that key.
     */
    method ApplyWord<P>(property: P, createWord: P -> Result<Word, DictError>, newId: Uuid, compileOk: bool)
      returns (r: Result<string, DictError>, ghost rowOrder: seq<string>)
      requires Valid()
      modifies this
      ensures Valid()
      ensures Load(old(store), fromSave).Failure? ==>
        r == Failure(Load(old(store), fromSave).error) && unchanged(this)
      ensures Load(old(store), fromSave).Success? && createWord(property).Failure? ==>
        r == Failure(createWord(property).error) && unchanged(this)
      ensures Load(old(store), fromSave).Success? && createWord(property).Success? ==>
        var before := Load(old(store), fromSave).value;
        Load(store, fromSave) == Success(before[FormatUuid(newId) := createWord(property).value]) &&
        (FormatUuid(newId) !in before ==> |Load(store, fromSave).value| == |before| + 1) &&
        r == (if DefaultDictFiles(defaultDictDir) == [] || compileOk then Success(FormatUuid(newId))
              else Failure(CompileFailed)) &&
        Recompiled(compileOk, rowOrder, old(compiled), old(active))
    {
      rowOrder := [];
      var userDict := ReadDict();
      if userDict.Failure? {
        return Failure(userDict.error), rowOrder;
      }
      var wordUuid := FormatUuid(newId);
      var word := createWord(property);
      if word.Failure? {
        return Failure(word.error), rowOrder;
      }
      var updated := userDict.value[wordUuid := word.value];
      FormatIsCanonical(newId);
      ghost var order;
      var outcome;
      outcome, order, rowOrder := SaveAndUpdate(updated, compileOk);
      if outcome.Fail? {
        return Failure(outcome.error), rowOrder;
      }
      return Success(wordUuid), rowOrder;
    }

    /** `rewrite_word`: replaces the word stored under `wordUuid`, which must exist. */
    method RewriteWord<P>(wordUuid: string, property: P, createWord: P -> Result<Word, DictError>, compileOk: bool)
      returns (r: Outcome<DictError>, ghost rowOrder: seq<string>)
      requires Valid()
      modifies this
      ensures Valid()
      ensures Load(old(store), fromSave).Failure? ==>
        r == Fail(Load(old(store), fromSave).error) && unchanged(this)
      ensures Load(old(store), fromSave).Success? && wordUuid !in Load(old(store), fromSave).value ==>
        r == Fail(WordNotFound) && unchanged(this)
      ensures Load(old(store), fromSave).Success? && wordUuid in Load(old(store), fromSave).value &&
              createWord(property).Failure? ==>
        r == Fail(createWord(property).error) && unchanged(this)
      ensures Load(old(store), fromSave).Success? && wordUuid in Load(old(store), fromSave).value &&
              createWord(property).Success? ==>
        var before := Load(old(store), fromSave).value;
        Load(store, fromSave) == Success(before[wordUuid := createWord(property).value]) &&
        Load(store, fromSave).value.Keys == before.Keys &&
        r == (if DefaultDictFiles(defaultDictDir) == [] || compileOk then Pass else Fail(CompileFailed)) &&
        Recompiled(compileOk, rowOrder, old(compiled), old(active))
    {
      rowOrder := [];
      var userDict := ReadDict();
      if userDict.Failure? {
        return Fail(userDict.error), rowOrder;
      }
      if wordUuid !in userDict.value {
        return Fail(WordNotFound), rowOrder;
      }
      var word := createWord(property);
      if word.Failure? {
        return Fail(word.error), rowOrder;
      }
      var updated := userDict.value[wordUuid := word.value];
      ghost var order;
      r, order, rowOrder := SaveAndUpdate(updated, compileOk);
    }

    /** `delete_word`: removes the word stored under `wordUuid`, which must exist. */
    method DeleteWord(wordUuid: string, compileOk: bool) returns (r: Outcome<DictError>, ghost rowOrder: seq<string>)
      requires Valid()
      modifies this
      ensures Valid()
      ensures Load(old(store), fromSave).Failure? ==>
        r == Fail(Load(old(store), fromSave).error) && unchanged(this)
      ensures Load(old(store), fromSave).Success? && wordUuid !in Load(old(store), fromSave).value ==>
        r == Fail(WordNotFound) && unchanged(this)
      ensures Load(old(store), fromSave).Success? && wordUuid in Load(old(store), fromSave).value ==>
        Load(store, fromSave) == Success(Load(old(store), fromSave).value - {wordUuid}) &&
        r == (if DefaultDictFiles(defaultDictDir) == [] || compileOk then Pass else Fail(CompileFailed)) &&
        Recompiled(compileOk, rowOrder, old(compiled), old(active))
    {
      rowOrder := [];
      var userDict := ReadDict();
      if userDict.Failure? {
        return Fail(userDict.error), rowOrder;
      }
      if wordUuid !in userDict.value {
        return Fail(WordNotFound), rowOrder;
      }
      var updated := userDict.value - {wordUuid};
      ghost var order;
      r, order, rowOrder := SaveAndUpdate(updated, compileOk);
    }

    /** Deleting the same word twice: the second call always finds nothing to delete. */
    method DeleteTwice(wordUuid: string, compileOk: bool) returns (first: Outcome<DictError>, second: Outcome<DictError>)
      requires Valid()
      modifies this
      ensures Load(old(store), fromSave).Success? ==> second == Fail(WordNotFound)
    {
      ghost var rowOrder;
      first, rowOrder := DeleteWord(wordUuid, compileOk);
      second, rowOrder := DeleteWord(wordUuid, compileOk);
    }

    /** The inner loop of the validation: the first POS row with the given context id. */
    method FindPartOfSpeech(contextId: int) returns (r: Option<nat>)
      ensures r == FirstRowWith(partOfSpeechData, contextId)
    {
      r := None;
      var i := 0;
      while i < |partOfSpeechData|
        invariant 0 <= i <= |partOfSpeechData|
        invariant forall j :: 0 <= j < i ==> partOfSpeechData[j].contextId != contextId
      {
        if partOfSpeechData[i].contextId == contextId {
          return Some(i);
        }
        i := i + 1;
      }
    }

    /**
     * The validation loop of `import_user_dict`, over the entries in the dict's
     * iteration order: the first entry that fails decides the exception.
     */
    method ValidateImport(data: map<string, Word>) returns (r: Outcome<DictError>)
      ensures r.Pass? <==> forall k :: k in data ==> EntryCheck(k, data[k], partOfSpeechData) == Pass
      ensures r.Fail? ==> exists k :: k in data && EntryCheck(k, data[k], partOfSpeechData) == r
    {
      var rest := data.Keys;
      ghost var order: seq<string> := [];
      while rest != {}
        invariant EnumeratedSoFar(order, rest, data.Keys)
        invariant forall i :: 0 <= i < |order| ==> EntryCheck(order[i], data[order[i]], partOfSpeechData) == Pass
        decreases rest
      {
        var key :| key in rest;
        EnumerationStep(order, rest, data.Keys, key);
        var word := data[key];
        if ParseUuid(key).None? {
          return Fail(InvalidUuid);
        }
        var row := FindPartOfSpeech(word.contextId);
        if row.None? {
          return Fail(UnsupportedPartOfSpeech);
        }
        if !AgreesWith(word, partOfSpeechData[row.value]) {
          return Fail(PartOfSpeechMismatch);
        }
        order := order + [key];
        rest := rest - {key};
      }
      EnumerationDone(order, data.Keys);
      return Pass;
    }

    /**
     * `import_user_dict`: validates every incoming entry, then writes the merge of the
     * stored dictionary and the incoming one and recompiles.
     */
    method ImportUserDict(data: map<string, Word>, override: bool, compileOk: bool)
      returns (r: Outcome<DictError>, ghost order: seq<string>, ghost rowOrder: seq<string>)
      requires Valid()
      modifies this
      ensures Valid()
      ensures (exists k :: k in data && EntryCheck(k, data[k], partOfSpeechData).Fail?) ==>
        r.Fail? && (exists k :: k in data && EntryCheck(k, data[k], partOfSpeechData) == r) && unchanged(this)
      ensures (forall k :: k in data ==> EntryCheck(k, data[k], partOfSpeechData) == Pass) &&
              Load(old(store), fromSave).Failure? ==>
        r == Fail(Load(old(store), fromSave).error) && unchanged(this)
      ensures (forall k :: k in data ==> EntryCheck(k, data[k], partOfSpeechData) == Pass) &&
              Load(old(store), fromSave).Success? ==>
        var merged := Merge(Load(old(store), fromSave).value, data, override);
        IsEnumeration(order, merged.Keys) && InDict(order, merged) &&
        store == Some(Saved(merged, order, toSave)) &&
        (AllCanonical(data.Keys) ==> Load(store, fromSave) == Success(merged)) &&
        r == (if DefaultDictFiles(defaultDictDir) == [] || compileOk then Pass else Fail(CompileFailed)) &&
        Recompiled(compileOk, rowOrder, old(compiled), old(active))
    {
      order, rowOrder := [], [];
      r := ValidateImport(data);
      if r.Fail? {
        return;
      }
      var existing := ReadDict();
      if existing.Failure? {
        return Fail(existing.error), order, rowOrder;
      }
      var merged := Merge(existing.value, data, override);
      forall k | k in merged ensures IsCanonical(k) || ParseUuid(k).Some? {
        if k !in existing.value {
          assert EntryCheck(k, data[k], partOfSpeechData) == Pass;
        }
      }
      r, order, rowOrder := SaveAndUpdate(merged, compileOk);
    }
  }
}
