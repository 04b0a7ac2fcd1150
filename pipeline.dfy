/**
 * `create_accent_phrases` in tts_pipeline/style_bert_vits2_tts_engine.py, from the
 * phoneme/tone list of `g2p` to the accent phrases: moras from phonemes, the
 * punctuation pass, the accent-change pass, the flattening comprehension and the
 * phrase building. `g2p`, the text normaliser and the regular-expression split of
 * `sep_kata_with_joshi` are outside the model; their results are inputs.
 */
module AccentPipeline {
  import opened Wrappers
  import opened Moras
  import opened Grouping
  import opened AccentGroups
  import opened Accent
  import opened PhoneTone

  function MoraLists(groups: seq<seq<MoraTone>>): (r: seq<seq<Mora>>)
    ensures |r| == |groups| && forall g :: 0 <= g < |groups| ==> r[g] == MorasOf(groups[g])
  {
    seq(|groups|, g requires 0 <= g < |groups| => MorasOf(groups[g]))
  }

  /**
   * The groups `create_accent_phrases` turns into accent phrases: the list cut at
   * punctuation, each group cut again where the tone dips, all concatenated; `None`
   * when the word counters run out (IndexError).
   */
  function PhraseGroups(moraTones: seq<MoraTone>, lens: seq<nat>, punctuations: set<string>)
    : Option<seq<seq<MoraTone>>>
  {
    match Regroup(Chunk(moraTones, PunctuationCuts(moraTones, punctuations)), lens, (0, 0))
    case None => None
    case Some(regrouped) => Some(Flatten(regrouped))
  }

  /** The moras of the phrases, one phrase after the other. */
  function PhraseMoraList(phrases: seq<AccentPhrase>): seq<Mora> {
    Flatten(seq(|phrases|, p requires 0 <= p < |phrases| => phrases[p].moras))
  }

  /** A mora's value once its "q" vowel has been respelled. */
  function Respelled(v: MoraValue): MoraValue {
    v.(vowel := FixVowel(v.vowel))
  }

  /** Taking the moras out of each group and then concatenating is concatenating first. */
  lemma {:induction false} MorasOfFlatten(groups: seq<seq<MoraTone>>)
    ensures Flatten(MoraLists(groups)) == MorasOf(Flatten(groups))
  {
    if groups != [] {
      var m := |groups| - 1;
      MorasOfFlatten(groups[..m]);
      assert MoraLists(groups) == MoraLists(groups[..m]) + [MorasOf(groups[m])];
      FlattenSnoc(MoraLists(groups[..m]), MorasOf(groups[m]));
      assert groups == groups[..m] + [groups[m]];
      FlattenSnoc(groups[..m], groups[m]);
      var a, b := Flatten(groups[..m]), groups[m];
      assert MorasOf(a + b) == MorasOf(a) + MorasOf(b);
    }
  }

  /** The moras of the groups are the moras of their concatenation. */
  lemma GroupMorasOfFlatten(groups: seq<seq<MoraTone>>)
    ensures GroupMoras(groups) == MoraSet(Flatten(groups))
  {
    FlattenElements(groups);
    var flat := Flatten(groups);
    forall m | m in GroupMoras(groups) ensures m in MoraSet(flat) {
      var g, i :| 0 <= g < |groups| && 0 <= i < |groups[g]| && groups[g][i].0 == m;
      assert groups[g][i] in flat;
      var k :| 0 <= k < |flat| && flat[k] == groups[g][i];
    }
    forall m | m in MoraSet(flat) ensures m in GroupMoras(groups) {
      var k :| 0 <= k < |flat| && flat[k].0 == m;
      assert flat[k] in flat;
      var g, i :| 0 <= g < |groups| && 0 <= i < |groups[g]| && groups[g][i] == flat[k];
    }
  }

  /** The phrases of non-empty groups are non-empty, with the accent inside and no pause. */
  lemma PhraseListBounds(groups: seq<seq<MoraTone>>)
    requires forall g :: g in groups ==> |g| > 0
    ensures var phrases := PhraseList(groups);
      forall p :: 0 <= p < |phrases| ==>
        |phrases[p].moras| > 0 && 1 <= phrases[p].accent <= |phrases[p].moras| &&
        phrases[p].pauseMora.None? && !phrases[p].isInterrogative
  {
    var phrases := PhraseList(groups);
    PhraseListElements(groups);
    forall p | 0 <= p < |phrases|
      ensures |phrases[p].moras| > 0 && 1 <= phrases[p].accent <= |phrases[p].moras|
    {
      assert groups[p] in groups;
    }
  }

  /** Together the phrases hold the concatenated moras, in order. */
  lemma PhraseListMoras(groups: seq<seq<MoraTone>>)
    ensures PhraseMoraList(PhraseList(groups)) == MorasOf(Flatten(groups))
  {
    var phrases := PhraseList(groups);
    PhraseListElements(groups);
    MorasOfFlatten(groups);
    var lists := seq(|phrases|, p requires 0 <= p < |phrases| => phrases[p].moras);
    forall p | 0 <= p < |phrases| ensures lists[p] == MoraLists(groups)[p] {
      assert phrases[p] == PhraseOf(groups[p]);
    }
    assert lists == MoraLists(groups);
  }

  /**
   * The last step of `create_accent_phrases`: one accent phrase per group of the
   * flattened accent-change groups, as `BuildAccentPhrases` makes them, restated
   * over the moras the groups were cut from.
   */
  method PhrasesOfGroups(flat: seq<seq<MoraTone>>, ghost moraTones: seq<MoraTone>)
    returns (phrases: seq<AccentPhrase>)
    requires Flatten(flat) == moraTones && forall g :: g in flat ==> |g| > 0
    modifies MoraSet(moraTones)
    ensures phrases == PhraseList(flat)
    ensures forall p :: 0 <= p < |phrases| ==>
      |phrases[p].moras| > 0 && 1 <= phrases[p].accent <= |phrases[p].moras| &&
      phrases[p].pauseMora.None? && !phrases[p].isInterrogative
    ensures PhraseMoraList(phrases) == MorasOf(moraTones)
    ensures forall m :: m in MoraSet(moraTones) ==>
      m.vowel == FixVowel(old(m.vowel)) && m.consonantLength == old(m.consonantLength) &&
      m.vowelLength == old(m.vowelLength) && m.pitch == old(m.pitch)
  {
    GroupMorasOfFlatten(flat);
    phrases := BuildAccentPhrases(flat);
    PhraseListBounds(flat);
    PhraseListMoras(flat);
  }

  /**
   * `create_accent_phrases` from `mora_tone_list` on: the two grouping passes, the
   * flattening and the phrase building. IndexError exactly when the moras outrun
   * `sep_phonemes_with_joshi`; otherwise every phrase is non-empty with its accent
   * inside it and no pause, the phrases hold the moras in order, and the only change
   * to a mora is its "q" vowel respelled.
   */
  method GroupIntoAccentPhrases(moraTones: seq<MoraTone>, lens: seq<nat>, punctuations: set<string>)
    returns (r: Result<seq<AccentPhrase>, TtsError>)
    modifies MoraSet(moraTones)
    ensures r.Failure? <==> Run(lens, (0, 0), |moraTones|).None?
    ensures r.Failure? ==> r.error == IndexError
    ensures r.Success? ==> forall p :: 0 <= p < |r.value| ==>
      |r.value[p].moras| > 0 && 1 <= r.value[p].accent <= |r.value[p].moras| &&
      r.value[p].pauseMora.None? && !r.value[p].isInterrogative
    ensures r.Success? ==> PhraseMoraList(r.value) == MorasOf(moraTones)
    ensures r.Success? <==> PhraseGroups(moraTones, lens, punctuations).Some?
    ensures r.Success? ==> r.value == PhraseList(PhraseGroups(moraTones, lens, punctuations).value)
    ensures forall m :: m in MoraSet(moraTones) ==>
      m.vowel == (if r.Success? then FixVowel(old(m.vowel)) else old(m.vowel)) &&
      m.consonantLength == old(m.consonantLength) && m.vowelLength == old(m.vowelLength) &&
      m.pitch == old(m.pitch)
  {
    var groups := GroupAtPunctuation(moraTones, punctuations);
    ChunkFlatten(moraTones, PunctuationCuts(moraTones, punctuations));
    RegroupShape(groups, lens, (0, 0));
    var regrouped := SplitAtAccentChanges(groups, lens);
    if regrouped.Failure? {
      return Failure(regrouped.error);
    }
    var flat := Flatten(regrouped.value);
    RegroupFlatten(groups, lens, (0, 0));
    var phrases := PhrasesOfGroups(flat, moraTones);
    return Success(phrases);
  }

  /**
   * `create_accent_phrases` after `g2p`. It raises what `_phone_tone2mora_tone` raises,
   * then IndexError exactly when the moras outrun `sep_phonemes_with_joshi`. Otherwise
   * every phrase is non-empty with its accent inside it and no pause, and the phrases
   * hold the scanned moras, in order, changed only by the "q" to "cl" respelling.
   * `moraTones` is the list `_phone_tone2mora_tone` returned: the phrases are the
   * `PhraseOf` each of its groups, so each accent is `AccentIndex` of the scanned
   * tones of its group.
   */
  method CreateAccentPhrases(phoneTones: seq<(string, int)>, lens: seq<nat>, punctuations: set<string>,
                             consonants: set<string>, kana: map<string, string>)
    returns (r: Result<seq<AccentPhrase>, TtsError>, ghost moraTones: seq<MoraTone>)
    ensures var scan := ScanAll(Steps(phoneTones), punctuations, consonants, kana);
      (scan.Failure? ==> r == Failure(scan.error)) &&
      (scan.Success? ==>
        (r.Failure? <==> Run(lens, (0, 0), |scan.value.moras|).None?) &&
        (r.Failure? ==> r.error == IndexError))
    ensures r.Success? ==> forall p :: 0 <= p < |r.value| ==>
      |r.value[p].moras| > 0 && 1 <= r.value[p].accent <= |r.value[p].moras| &&
      r.value[p].pauseMora.None? && !r.value[p].isInterrogative
    ensures r.Success? ==>
      var scanned := ScanAll(Steps(phoneTones), punctuations, consonants, kana).value.moras;
      var moras := PhraseMoraList(r.value);
      |moras| == |scanned| &&
      forall k :: 0 <= k < |moras| ==> ValueOf(moras[k]) == Respelled(scanned[k].0)
    ensures r.Success? ==>
      var scanned := ScanAll(Steps(phoneTones), punctuations, consonants, kana).value.moras;
      |moraTones| == |scanned| &&
      (forall k :: 0 <= k < |moraTones| ==> moraTones[k].1 == scanned[k].1) &&
      PhraseGroups(moraTones, lens, punctuations).Some? &&
      r.value == PhraseList(PhraseGroups(moraTones, lens, punctuations).value)
  {
    moraTones := [];
    var made := PhoneToneToMoraTone(phoneTones, punctuations, consonants, kana);
    if made.Failure? {
      return Failure(made.error), moraTones;
    }
    moraTones := made.value;
    forall m | m in MoraSet(moraTones) ensures fresh(m) {
      var k :| 0 <= k < |moraTones| && moraTones[k].0 == m;
    }
    label scanned:
    r := GroupIntoAccentPhrases(made.value, lens, punctuations);
    forall k | r.Success? && 0 <= k < |moraTones|
      ensures ValueOf(moraTones[k].0) == old@scanned(Respelled(ValueOf(moraTones[k].0)))
    {
      assert moraTones[k].0 in MoraSet(moraTones);
    }
  }
}
