/**
 * The text `update_dict` hands to the dictionary compiler: every default dictionary
 * file's contents, in sorted file-name order and each ending in a newline, then one
 * 15-field CSV row per user word in the MeCab/OpenJTalk dictionary layout.
 */
module DictText {
  import opened Wrappers
  import opened Decimal
  import opened Words

  // ---------------------------------------------------------------------------
  // Joining and splitting on a separator

  function Join(fields: seq<string>, sep: char): string {
    if fields == [] then ""
    else if |fields| == 1 then fields[0]
    else fields[0] + [sep] + Join(fields[1..], sep)
  }

  /** Python's `s.split(sep)`: never empty, empty fields kept. */
  function SplitOn(s: string, sep: char): (r: seq<string>)
    ensures |r| > 0
  {
    if s == [] then [""]
    else if s[0] == sep then [""] + SplitOn(s[1..], sep)
    else var rest := SplitOn(s[1..], sep); [[s[0]] + rest[0]] + rest[1..]
  }

  lemma {:induction false} SplitOnAbsent(s: string, sep: char)
    requires sep !in s
    ensures SplitOn(s, sep) == [s]
  {
    if s != [] {
      SplitOnAbsent(s[1..], sep);
      assert [s[0]] + s[1..] == s;
    }
  }

  /** Splitting at one separator splits the two sides independently. */
  lemma {:induction false} SplitOnConcat(a: string, b: string, sep: char)
    ensures SplitOn(a + [sep] + b, sep) == SplitOn(a, sep) + SplitOn(b, sep)
  {
    if a == [] {
      assert a + [sep] + b == [sep] + b;
      assert ([sep] + b)[1..] == b;
    } else {
      assert (a + [sep] + b)[1..] == a[1..] + [sep] + b;
      SplitOnConcat(a[1..], b, sep);
    }
  }

  /** Python's `sep.join(fields).split(sep) == fields` when no field holds `sep`. */
  lemma {:induction false} SplitJoin(fields: seq<string>, sep: char)
    requires |fields| > 0
    requires forall i :: 0 <= i < |fields| ==> sep !in fields[i]
    ensures SplitOn(Join(fields, sep), sep) == fields
  {
    if |fields| == 1 {
      SplitOnAbsent(fields[0], sep);
    } else {
      SplitJoin(fields[1..], sep);
      SplitOnConcat(fields[0], Join(fields[1..], sep), sep);
      SplitOnAbsent(fields[0], sep);
      assert [fields[0]] + fields[1..] == fields;
    }
  }

  lemma {:induction false} JoinSnoc(fields: seq<string>, f: string, sep: char)
    requires |fields| > 0
    ensures Join(fields + [f], sep) == Join(fields, sep) + [sep] + f
  {
    if |fields| > 1 {
      assert (fields + [f])[1..] == fields[1..] + [f];
      JoinSnoc(fields[1..], f, sep);
    }
  }

  // ---------------------------------------------------------------------------
  // One user word as a dictionary CSV row

  /**
   * The fields of one row: surface, left and right context id (the same id twice),
   * cost, the POS quadruple, inflection type and form, stem, reading, pronunciation,
   * "accent type/mora count" as one field, accent associative rule.
   */
  function RowFields(w: Word, cost: int): seq<string> {
    [w.surface, IntToString(w.contextId), IntToString(w.contextId), IntToString(cost),
     w.partOfSpeech, w.partOfSpeechDetail1, w.partOfSpeechDetail2, w.partOfSpeechDetail3,
     w.inflectionalType, w.inflectionalForm, w.stem, w.yomi, w.pronunciation,
     IntToString(w.accentType) + "/" + IntToString(w.moraCount),
     w.accentAssociativeRule]
  }

  /** The row's format string, filled in: the fields separated by commas, no newline yet. */
  function RowBody(w: Word, cost: int): string {
    Join(RowFields(w, cost), ',')
  }

  /** The row `update_dict` formats for one word, newline included. */
  function Row(w: Word, cost: int): string {
    RowBody(w, cost) + "\n"
  }

  predicate Plain(s: string) { ',' !in s && '\n' !in s }

  /** No text field of the word contains a comma or a newline. */
  predicate CsvSafe(w: Word) {
    Plain(w.surface) && Plain(w.partOfSpeech) && Plain(w.partOfSpeechDetail1) &&
    Plain(w.partOfSpeechDetail2) && Plain(w.partOfSpeechDetail3) &&
    Plain(w.inflectionalType) && Plain(w.inflectionalForm) && Plain(w.stem) &&
    Plain(w.yomi) && Plain(w.pronunciation) && Plain(w.accentAssociativeRule)
  }

  lemma NumberIsPlain(i: int)
    ensures Plain(IntToString(i)) && '/' !in IntToString(i)
  {
    var s := IntToString(i);
    forall k | 0 <= k < |s| ensures s[k] != ',' && s[k] != '\n' && s[k] != '/' {
      assert IsDigit(s[k]) || s[k] == '-';
    }
  }

  lemma RowFieldsPlain(w: Word, cost: int)
    requires CsvSafe(w)
    ensures forall i :: 0 <= i < |RowFields(w, cost)| ==> Plain(RowFields(w, cost)[i])
  {
    var a, m := IntToString(w.accentType), IntToString(w.moraCount);
    NumberIsPlain(w.contextId);
    NumberIsPlain(cost);
    NumberIsPlain(w.accentType);
    NumberIsPlain(w.moraCount);
    assert a + "/" + m == a + ['/'] + m;
  }

  lemma AccentFieldSplits(accentType: int, moraCount: int)
    ensures var parts := SplitOn(IntToString(accentType) + "/" + IntToString(moraCount), '/');
      |parts| == 2 && ParseInt(parts[0]) == Some(accentType) && ParseInt(parts[1]) == Some(moraCount)
  {
    var a, m := IntToString(accentType), IntToString(moraCount);
    NumberIsPlain(accentType);
    NumberIsPlain(moraCount);
    assert Join([a, m], '/') == a + "/" + m;
    SplitJoin([a, m], '/');
    IntRoundTrip(accentType);
    IntRoundTrip(moraCount);
  }

  /** A row is one line: it ends in its only newline. */
  lemma RowIsOneLine(w: Word, cost: int)
    requires CsvSafe(w)
    ensures var row := Row(w, cost);
      row[|row| - 1] == '\n' && '\n' !in row[..|row| - 1]
  {
    RowFieldsPlain(w, cost);
    JoinPlain(RowFields(w, cost));
    var row := Row(w, cost);
    assert row[..|row| - 1] == RowBody(w, cost);
  }

  /**
   * Reading the row back as the compiler does (split the line on commas) gives
   * exactly 15 fields: the word's own fields, the context id twice, the cost, and
   * "accent/moras" as one field that splits on '/' into the accent type and the mora count.
   */
  lemma RowLayout(w: Word, cost: int)
    requires CsvSafe(w)
    ensures var fields := SplitOn(RowBody(w, cost), ',');
      && |fields| == 15
      && fields[0] == w.surface
      && fields[1] == fields[2] && ParseInt(fields[1]) == Some(w.contextId)
      && ParseInt(fields[3]) == Some(cost)
      && fields[4] == w.partOfSpeech && fields[5] == w.partOfSpeechDetail1
      && fields[6] == w.partOfSpeechDetail2 && fields[7] == w.partOfSpeechDetail3
      && fields[8] == w.inflectionalType && fields[9] == w.inflectionalForm
      && fields[10] == w.stem && fields[11] == w.yomi && fields[12] == w.pronunciation
      && |SplitOn(fields[13], '/')| == 2
      && ParseInt(SplitOn(fields[13], '/')[0]) == Some(w.accentType)
      && ParseInt(SplitOn(fields[13], '/')[1]) == Some(w.moraCount)
      && fields[14] == w.accentAssociativeRule
  {
    BodySplits(w, cost);
    var fs := RowFields(w, cost);
    assert fs[1] == fs[2] == IntToString(w.contextId) && fs[3] == IntToString(cost);
    assert fs[13] == IntToString(w.accentType) + "/" + IntToString(w.moraCount);
    AccentFieldSplits(w.accentType, w.moraCount);
    IntRoundTrip(w.contextId);
    IntRoundTrip(cost);
  }

  /** Splitting a row's body on commas gives back its fields. */
  lemma BodySplits(w: Word, cost: int)
    requires CsvSafe(w)
    ensures SplitOn(RowBody(w, cost), ',') == RowFields(w, cost)
  {
    RowFieldsPlain(w, cost);
    SplitJoin(RowFields(w, cost), ',');
  }

  lemma {:induction false} JoinPlain(fields: seq<string>)
    requires forall i :: 0 <= i < |fields| ==> Plain(fields[i])
    ensures '\n' !in Join(fields, ',')
  {
    if |fields| > 1 {
      JoinPlain(fields[1..]);
    }
  }

  // ---------------------------------------------------------------------------
  // Default dictionary files

  /** Matches the glob pattern "*.csv.zst", case-sensitively as on POSIX systems. */
  predicate IsDefaultDictFile(name: string) {
    |name| >= 8 && name[|name| - 8..] == ".csv.zst"
  }

  /** Python's `a <= b` on strings, lexicographic by code point, as POSIX paths compare. */
  predicate NameLe(a: string, b: string) {
    if a == [] then true
    else if b == [] then false
    else if a[0] != b[0] then a[0] < b[0]
    else NameLe(a[1..], b[1..])
  }

  lemma {:induction false} NameLeTotal(a: string, b: string)
    ensures NameLe(a, b) || NameLe(b, a)
  {
    if a != [] && b != [] && a[0] == b[0] {
      NameLeTotal(a[1..], b[1..]);
    }
  }

  lemma {:induction false} NameLeTrans(a: string, b: string, c: string)
    requires NameLe(a, b) && NameLe(b, c)
    ensures NameLe(a, c)
  {
    if a != [] && b != [] && c != [] && a[0] == b[0] && b[0] == c[0] {
      NameLeTrans(a[1..], b[1..], c[1..]);
    }
  }

  /** A directory entry: file name and its decompressed UTF-8 contents. */
  type DictFile = (string, string)

  predicate SortedByName(files: seq<DictFile>) {
    forall i, j :: 0 <= i < j < |files| ==> NameLe(files[i].0, files[j].0)
  }

  /** A file whose name comes no later than the first of sorted files can go in front. */
  lemma SortedInFront(f: DictFile, files: seq<DictFile>)
    requires SortedByName(files) && files != [] && NameLe(f.0, files[0].0)
    ensures SortedByName([f] + files)
  {
    forall j | 1 < j < |[f] + files| ensures NameLe(f.0, ([f] + files)[j].0) {
      NameLeTrans(f.0, files[0].0, files[j - 1].0);
    }
  }

  /** The head of sorted files stays in front when `f`, no earlier than it, joins the rest. */
  lemma SortedHeadKept(x: DictFile, tail: seq<DictFile>, f: DictFile, rest: seq<DictFile>)
    requires SortedByName([x] + tail) && NameLe(x.0, f.0) && SortedByName(rest)
    requires multiset(rest) == multiset(tail) + multiset{f}
    ensures SortedByName([x] + rest)
  {
    forall j | 0 <= j < |rest| ensures NameLe(x.0, rest[j].0) {
      assert rest[j] in multiset(rest);
      if rest[j] != f {
        assert rest[j] in multiset(tail);
        var k :| 0 <= k < |tail| && tail[k] == rest[j];
        assert ([x] + tail)[0] == x && ([x] + tail)[k + 1] == tail[k];
        assert NameLe(([x] + tail)[0].0, ([x] + tail)[k + 1].0);
      }
    }
  }

  function InsertByName(f: DictFile, files: seq<DictFile>): (r: seq<DictFile>)
    ensures multiset(r) == multiset(files) + multiset{f}
    ensures SortedByName(files) ==> SortedByName(r)
  {
    if files == [] then [f]
    else if NameLe(f.0, files[0].0) then
      if SortedByName(files) then SortedInFront(f, files); [f] + files
      else [f] + files
    else
      var rest := InsertByName(f, files[1..]);
      assert files == [files[0]] + files[1..];
      NameLeTotal(f.0, files[0].0);
      if SortedByName(files) then
        SortedHeadKept(files[0], files[1..], f, rest); [files[0]] + rest
      else [files[0]] + rest
  }

  /** `sorted(...)` of a directory listing by file name. */
  function SortByName(files: seq<DictFile>): (r: seq<DictFile>)
    ensures SortedByName(r) && multiset(r) == multiset(files)
  {
    if files == [] then []
    else
      assert files == files[..|files| - 1] + [files[|files| - 1]];
      InsertByName(files[|files| - 1], SortByName(files[..|files| - 1]))
  }

  /** No two entries share a file name, as in a directory listing. */
  predicate DistinctNames(files: seq<DictFile>) {
    forall i, j :: 0 <= i < j < |files| ==> files[i].0 != files[j].0
  }

  /** In a listing with distinct names no entry occurs twice. */
  lemma {:induction false} DistinctNamesCount(files: seq<DictFile>, f: DictFile)
    requires DistinctNames(files)
    ensures multiset(files)[f] <= 1
  {
    if files != [] {
      assert files == [files[0]] + files[1..];
      assert DistinctNames(files[1..]) by {
        forall i, j | 0 <= i < j < |files[1..]| ensures files[1..][i].0 != files[1..][j].0 {
          assert files[1..][i] == files[i + 1] && files[1..][j] == files[j + 1];
        }
      }
      DistinctNamesCount(files[1..], f);
      if f == files[0] {
        assert f !in files[1..] by {
          forall k | 0 <= k < |files[1..]| ensures files[1..][k] != f {
            assert files[1..][k] == files[k + 1];
          }
        }
      }
    }
  }

  /** An entry at two positions is counted at least twice. */
  lemma TwiceCounted(files: seq<DictFile>, i: nat, j: nat)
    requires i < j < |files| && files[i] == files[j]
    ensures multiset(files)[files[i]] >= 2
  {
    assert files == files[..j] + [files[j]] + files[j + 1..];
    assert files[i] in files[..j];
  }

  /** Reordering a listing keeps its names distinct. */
  lemma DistinctNamesPermutation(a: seq<DictFile>, b: seq<DictFile>)
    requires multiset(a) == multiset(b) && DistinctNames(a)
    ensures DistinctNames(b)
  {
    forall i, j | 0 <= i < j < |b| ensures b[i].0 != b[j].0 {
      if b[i] == b[j] {
        TwiceCounted(b, i, j);
        DistinctNamesCount(a, b[i]);
      } else {
        assert b[i] in multiset(a) && b[j] in multiset(a);
        var k :| 0 <= k < |a| && a[k] == b[i];
        var l :| 0 <= l < |a| && a[l] == b[j];
        assert k != l;
      }
    }
  }

  /** The `*.csv.zst` entries of a listing, in listing order. */
  function FilterDefaultDictFiles(dir: seq<DictFile>): (r: seq<DictFile>)
    ensures forall f :: f in r <==> f in dir && IsDefaultDictFile(f.0)
  {
    if dir == [] then []
    else
      (if IsDefaultDictFile(dir[0].0) then [dir[0]] else []) + FilterDefaultDictFiles(dir[1..])
  }

  /** The filter keeps each matching entry as often as the listing has it, and no other. */
  lemma {:induction false} FilterCounts(dir: seq<DictFile>)
    ensures forall f {:trigger multiset(FilterDefaultDictFiles(dir))[f]} ::
      multiset(FilterDefaultDictFiles(dir))[f] ==
        (if IsDefaultDictFile(f.0) then multiset(dir)[f] else 0)
  {
    if dir != [] {
      FilterCounts(dir[1..]);
      assert dir == [dir[0]] + dir[1..];
      assert multiset(dir) == multiset{dir[0]} + multiset(dir[1..]);
    }
  }

  /** The filter keeps the names of a listing distinct. */
  lemma {:induction false} FilterDistinct(dir: seq<DictFile>)
    requires DistinctNames(dir)
    ensures DistinctNames(FilterDefaultDictFiles(dir))
  {
    if dir != [] {
      assert DistinctNames(dir[1..]) by {
        forall i, j | 0 <= i < j < |dir[1..]| ensures dir[1..][i].0 != dir[1..][j].0 {
          assert dir[1..][i] == dir[i + 1] && dir[1..][j] == dir[j + 1];
        }
      }
      FilterDistinct(dir[1..]);
      var head: seq<DictFile> := if IsDefaultDictFile(dir[0].0) then [dir[0]] else [];
      var rest := FilterDefaultDictFiles(dir[1..]);
      forall i, j | 0 <= i < j < |head + rest| ensures (head + rest)[i].0 != (head + rest)[j].0 {
        if i == 0 && head != [] {
          assert rest[j - 1] in dir[1..];
          var k :| 0 <= k < |dir[1..]| && dir[1..][k] == rest[j - 1];
          assert dir[k + 1] == rest[j - 1];
        }
      }
    }
  }

  /** `sorted(default_dict_dir_path.glob("*.csv.zst"))`, with each file's contents. */
  function DefaultDictFiles(dir: seq<DictFile>): seq<DictFile> {
    SortByName(FilterDefaultDictFiles(dir))
  }

  /**
   * The default files are exactly the matching directory entries, each as often as the
   * directory lists it, so once each when the names are distinct, in name order.
   */
  lemma DefaultDictFilesSpec(dir: seq<DictFile>)
    ensures var files := DefaultDictFiles(dir);
      SortedByName(files) &&
      (forall f :: f in files <==> f in dir && IsDefaultDictFile(f.0)) &&
      (forall f {:trigger multiset(files)[f]} ::
        multiset(files)[f] == (if IsDefaultDictFile(f.0) then multiset(dir)[f] else 0)) &&
      (DistinctNames(dir) ==> DistinctNames(files))
  {
    var files := DefaultDictFiles(dir);
    FilterCounts(dir);
    if DistinctNames(dir) {
      FilterDistinct(dir);
      DistinctNamesPermutation(FilterDefaultDictFiles(dir), files);
    }
    forall f ensures f in files <==> f in FilterDefaultDictFiles(dir) {
      assert f in files <==> f in multiset(files);
    }
  }

  function Contents(files: seq<DictFile>): (r: seq<string>)
    ensures |r| == |files|
  {
    seq(|files|, i requires 0 <= i < |files| => files[i].1)
  }

  // ---------------------------------------------------------------------------
  // The source text

  predicate EndsWithNewline(s: string) { |s| > 0 && s[|s| - 1] == '\n' }

  /** A default file's contents, with "\n" appended unless it already ends with one. */
  function WithFinalNewline(content: string): (r: string)
    ensures EndsWithNewline(r) && content <= r && |r| <= |content| + 1
  {
    if EndsWithNewline(content) then content else content + "\n"
  }

  function DefaultsText(contents: seq<string>): string {
    if contents == [] then ""
    else DefaultsText(contents[..|contents| - 1]) + WithFinalNewline(contents[|contents| - 1])
  }

  predicate InDict(order: seq<string>, dict: map<string, Word>) {
    forall i :: 0 <= i < |order| ==> order[i] in dict
  }

  /** `order` lists every key of the dictionary exactly once: an iteration order of the dict. */
  predicate IsEnumeration(order: seq<string>, keys: set<string>) {
    (forall i, j :: 0 <= i < j < |order| ==> order[i] != order[j]) &&
    (forall k :: k in keys ==> k in order) &&
    (forall i :: 0 <= i < |order| ==> order[i] in keys)
  }

  /** Each body followed by "\n", in order. */
  function Lines(bodies: seq<string>): string {
    if bodies == [] then "" else Lines(bodies[..|bodies| - 1]) + bodies[|bodies| - 1] + "\n"
  }

  /** The row bodies of the words listed by `order`, in that order. */
  function Bodies(order: seq<string>, dict: map<string, Word>, cost: (int, int) -> int): (r: seq<string>)
    requires InDict(order, dict)
    ensures |r| == |order|
  {
    if order == [] then []
    else
      var w := dict[order[|order| - 1]];
      Bodies(order[..|order| - 1], dict, cost) + [RowBody(w, cost(w.contextId, w.priority))]
  }

  lemma {:induction false} BodiesAt(order: seq<string>, dict: map<string, Word>, cost: (int, int) -> int, i: int)
    requires InDict(order, dict) && 0 <= i < |order|
    ensures var w := dict[order[i]];
      Bodies(order, dict, cost)[i] == RowBody(w, cost(w.contextId, w.priority))
  {
    if i < |order| - 1 {
      var init := order[..|order| - 1];
      BodiesAt(init, dict, cost, i);
    }
  }

  /**
   * Loop invariant of a walk over a dict: `order` holds the keys visited so far, once
   * each, and `rest` the keys still to visit.
   */
  ghost predicate EnumeratedSoFar(order: seq<string>, rest: set<string>, keys: set<string>) {
    rest <= keys &&
    (forall i, j :: 0 <= i < j < |order| ==> order[i] != order[j]) &&
    (forall k :: k in keys <==> k in order || k in rest) &&
    (forall k :: k in order ==> k !in rest)
  }

  lemma EnumerationStep(order: seq<string>, rest: set<string>, keys: set<string>, k: string)
    requires EnumeratedSoFar(order, rest, keys) && k in rest
    ensures EnumeratedSoFar(order + [k], rest - {k}, keys)
  {
  }

  lemma EnumerationDone(order: seq<string>, keys: set<string>)
    requires EnumeratedSoFar(order, {}, keys)
    ensures IsEnumeration(order, keys)
  {
  }

  /** The user rows: one row per key of `order`, in that order. */
  function UserRowsText(order: seq<string>, dict: map<string, Word>, cost: (int, int) -> int): string
    requires InDict(order, dict)
  {
    Lines(Bodies(order, dict, cost))
  }

  function SourceText(contents: seq<string>, order: seq<string>, dict: map<string, Word>,
                      cost: (int, int) -> int): string
    requires InDict(order, dict)
  {
    DefaultsText(contents) + UserRowsText(order, dict, cost)
  }

  lemma {:induction false} LinesJoin(bodies: seq<string>)
    ensures Lines(bodies) == Join(bodies + [""], '\n')
  {
    if bodies != [] {
      var bs := bodies[..|bodies| - 1];
      var b := bodies[|bodies| - 1];
      assert bodies == bs + [b];
      LinesJoin(bs);
      JoinSnoc(bs + [b], "", '\n');
      if bs == [] {
        assert bs + [""] == [""];
        assert bs + [b] == [b];
      } else {
        JoinSnoc(bs, "", '\n');
        JoinSnoc(bs, b, '\n');
      }
    }
  }

  /** Appending one word's row to the text of `order` gives the text of `order + [k]`. */
  lemma UserRowsSnoc(defaults: string, order: seq<string>, k: string, dict: map<string, Word>,
                     cost: (int, int) -> int)
    requires InDict(order, dict) && k in dict
    ensures InDict(order + [k], dict)
    ensures var w := dict[k];
      defaults + UserRowsText(order, dict, cost) + Row(w, cost(w.contextId, w.priority)) ==
      defaults + UserRowsText(order + [k], dict, cost)
  {
    assert (order + [k])[..|order|] == order;
  }

  lemma {:induction false} DefaultsTextEndsWithNewline(contents: seq<string>)
    requires contents != []
    ensures EndsWithNewline(DefaultsText(contents))
  {
  }

  /**
   * The user rows are exactly the last lines of the source text, one per key in
   * iteration order, and none of them is glued onto a default file's last line.
   */
  lemma SourceTextLines(contents: seq<string>, order: seq<string>, dict: map<string, Word>,
                        cost: (int, int) -> int)
    requires contents != [] && InDict(order, dict)
    requires forall k :: k in dict ==> CsvSafe(dict[k])
    ensures var lines := SplitOn(SourceText(contents, order, dict, cost), '\n');
      |lines| >= |order| + 2 &&
      lines[|lines| - |order| - 1..] == Bodies(order, dict, cost) + [""]
  {
    var d := DefaultsText(contents);
    DefaultsTextEndsWithNewline(contents);
    var bodies := Bodies(order, dict, cost);
    forall i | 0 <= i < |bodies| + 1 ensures '\n' !in (bodies + [""])[i] {
      if i < |bodies| {
        var w := dict[order[i]];
        BodiesAt(order, dict, cost, i);
        RowIsOneLine(w, cost(w.contextId, w.priority));
        assert Row(w, cost(w.contextId, w.priority))[..|bodies[i]|] == bodies[i];
      }
    }
    LinesJoin(bodies);
    SplitJoin(bodies + [""], '\n');
    var d' := d[..|d| - 1];
    assert d == d' + ['\n'];
    SplitOnConcat(d', UserRowsText(order, dict, cost), '\n');
    assert SourceText(contents, order, dict, cost) == d' + ['\n'] + UserRowsText(order, dict, cost);
  }

  /** The first loop of `update_dict`: each default file's contents, forced to end in "\n". */
  method JoinDefaults(contents: seq<string>) returns (text: string)
    ensures text == DefaultsText(contents)
  {
    text := "";
    for i := 0 to |contents|
      invariant text == DefaultsText(contents[..i])
    {
      var content := contents[i];
      if !EndsWithNewline(content) {
        content := content + "\n";
      }
      text := text + content;
      assert contents[..i + 1][..i] == contents[..i];
    }
    assert contents[..|contents|] == contents;
  }

  /**
   * The second loop of `update_dict`: one row per user word, in the dict's
   * iteration order (`order`, which the model leaves unspecified).
   */
  method AppendUserRows(defaults: string, dict: map<string, Word>, cost: (int, int) -> int)
    returns (text: string, ghost order: seq<string>)
    ensures IsEnumeration(order, dict.Keys)
    ensures InDict(order, dict) && text == defaults + UserRowsText(order, dict, cost)
  {
    text := defaults;
    var rest := dict.Keys;
    order := [];
    while rest != {}
      invariant InDict(order, dict) && EnumeratedSoFar(order, rest, dict.Keys)
      invariant text == defaults + UserRowsText(order, dict, cost)
      decreases rest
    {
      var k :| k in rest;
      EnumerationStep(order, rest, dict.Keys, k);
      var w := dict[k];
      UserRowsSnoc(defaults, order, k, dict, cost);
      text := text + Row(w, cost(w.contextId, w.priority));
      order := order + [k];
      rest := rest - {k};
    }
    EnumerationDone(order, dict.Keys);
  }
}
