/**
 * The accent half of tts_pipeline/style_bert_vits2_tts_engine.py: choosing the
 * accent nucleus of a group of moras, building the accent phrases, the kana/tone
 * list `synthesize_wave` derives back from accent phrases, and the dummy length and
 * pitch updates.
 */
module Accent {
  import opened Wrappers
  import opened Moras
  import opened Grouping

  // ---------------------------------------------------------------------------
  // Accent nucleus

  /** The tone falls right after position `i`: high there, low at the next mora. */
  predicate FallsAfter(tones: seq<int>, i: int) {
    0 <= i < |tones| - 1 && tones[i] == 1 && tones[i + 1] == 0
  }

  /** The 1-based nucleus, looking for a fall from position `from` on. */
  function AccentFrom(tones: seq<int>, from: nat): (r: int)
    requires from <= |tones|
    ensures from < |tones| ==> from + 1 <= r <= |tones|
    ensures from == |tones| ==> r == |tones|
    ensures r < |tones| ==> FallsAfter(tones, r - 1)
    ensures forall k :: from <= k < r - 1 ==> !FallsAfter(tones, k)
    decreases |tones| - from
  {
    if from + 1 >= |tones| then |tones|
    else if tones[from] == 1 && tones[from + 1] == 0 then from + 1
    else AccentFrom(tones, from + 1)
  }

  /**
   * The accent of a group: one past the first position where the tone falls from 1
   * to 0, or the group's length when it never falls.
   */
  function AccentIndex(tones: seq<int>): (r: int)
    ensures |tones| > 0 ==> 1 <= r <= |tones|
    ensures |tones| == 0 ==> r == 0
    ensures r < |tones| <==> exists k :: FallsAfter(tones, k)
    ensures r < |tones| ==> FallsAfter(tones, r - 1)
    ensures forall k :: 0 <= k < r - 1 ==> !FallsAfter(tones, k)
  {
    AccentFrom(tones, 0)
  }

  /** The search loop of `create_accent_phrases`, stopping at the first fall. */
  method FindAccent(group: seq<MoraTone>) returns (accent: int)
    ensures accent == AccentIndex(Tones(group))
  {
    ghost var tones := Tones(group);
    var found: Option<int> := None;
    for index := 0 to |group|
      invariant found.None?
      invariant forall k :: 0 <= k < index ==> !FallsAfter(tones, k)
    {
      if group[index].1 == 1 && index < |group| - 1 && group[index + 1].1 == 0 {
        assert FallsAfter(tones, index);
        found := Some(index + 1);
        break;
      }
    }
    if found.None? {
      accent := |group|;
    } else {
      accent := found.value;
    }
  }

  // ---------------------------------------------------------------------------
  // Building the accent phrases

  /** Every mora of every group. */
  ghost function GroupMoras(groups: seq<seq<MoraTone>>): set<Mora> {
    set g, i | 0 <= g < |groups| && 0 <= i < |groups[g]| :: groups[g][i].0
  }

  /** The geminate vowel is spelled "q" by the phonemizer and "cl" by the engine. */
  function FixVowel(vowel: string): (r: string)
    ensures r != "q"
    ensures vowel != "q" ==> r == vowel
  {
    if vowel == "q" then "cl" else vowel
  }

  ghost function MoraSet(group: seq<MoraTone>): set<Mora> {
    set i | 0 <= i < |group| :: group[i].0
  }

  /** The moras of one group, in order, with "q" vowels respelled. */
  method FixVowels(group: seq<MoraTone>) returns (moras: seq<Mora>)
    modifies MoraSet(group)
    ensures moras == MorasOf(group)
    ensures forall m :: m in MoraSet(group) ==>
      m.vowel == FixVowel(old(m.vowel)) && m.consonantLength == old(m.consonantLength) &&
      m.vowelLength == old(m.vowelLength) && m.pitch == old(m.pitch)
  {
    moras := [];
    ghost var visited: set<Mora> := {};
    for i := 0 to |group|
      invariant moras == MorasOf(group[..i])
      invariant visited == MoraSet(group[..i])
      invariant forall m :: m in visited ==> m.vowel == FixVowel(old(m.vowel))
      invariant forall m :: m in MoraSet(group) && m !in visited ==> m.vowel == old(m.vowel)
      invariant forall m :: m in MoraSet(group) ==>
        m.consonantLength == old(m.consonantLength) && m.vowelLength == old(m.vowelLength) &&
        m.pitch == old(m.pitch)
    {
      var mora := group[i].0;
      assert mora in MoraSet(group);
      if mora.vowel == "q" {
        mora.vowel := "cl";
      }
      moras := moras + [mora];
      assert MoraSet(group[..i + 1]) == MoraSet(group[..i]) + {mora} by {
        assert group[..i + 1] == group[..i] + [group[i]];
      }
      visited := visited + {mora};
    }
    assert group[..|group|] == group;
  }

  /** The accent phrase of one group: its moras, its accent and no pause. */
  function PhraseOf(group: seq<MoraTone>): AccentPhrase {
    AccentPhrase(MorasOf(group), AccentIndex(Tones(group)), None, false)
  }

  function PhraseList(groups: seq<seq<MoraTone>>): (r: seq<AccentPhrase>)
    ensures |r| == |groups|
  {
    if groups == [] then [] else PhraseList(groups[..|groups| - 1]) + [PhraseOf(groups[|groups| - 1])]
  }

  lemma {:induction false} PhraseListElements(groups: seq<seq<MoraTone>>)
    ensures forall g :: 0 <= g < |groups| ==> PhraseList(groups)[g] == PhraseOf(groups[g])
  {
    if groups != [] {
      var init := groups[..|groups| - 1];
      PhraseListElements(init);
      forall g | 0 <= g < |groups| - 1 ensures PhraseList(groups)[g] == PhraseOf(groups[g]) {
        assert groups[g] == init[g];
      }
    }
  }

  /**
   * One accent phrase per group, in order: the group's moras, its accent and no pause.
   * The only change to a mora is a vowel "q" becoming "cl".
   */
  method BuildAccentPhrases(groups: seq<seq<MoraTone>>) returns (phrases: seq<AccentPhrase>)
    modifies GroupMoras(groups)
    ensures phrases == PhraseList(groups)
    ensures |phrases| == |groups|
    ensures forall g :: 0 <= g < |groups| ==>
      phrases[g] == AccentPhrase(MorasOf(groups[g]), AccentIndex(Tones(groups[g])), None, false)
    ensures forall m :: m in GroupMoras(groups) ==>
      m.vowel == FixVowel(old(m.vowel)) && m.consonantLength == old(m.consonantLength) &&
      m.vowelLength == old(m.vowelLength) && m.pitch == old(m.pitch)
  {
    phrases := [];
    ghost var all := GroupMoras(groups);
    ghost var visited: set<Mora> := {};
    for g := 0 to |groups|
      invariant phrases == PhraseList(groups[..g])
      invariant visited == GroupMoras(groups[..g]) && visited <= all
      invariant forall m :: m in visited ==> m.vowel == FixVowel(old(m.vowel))
      invariant forall m :: m in all && m !in visited ==> m.vowel == old(m.vowel)
      invariant forall m :: m in all ==>
        m.consonantLength == old(m.consonantLength) && m.vowelLength == old(m.vowelLength) &&
        m.pitch == old(m.pitch)
    {
      var group := groups[g];
      GroupMorasSnoc(groups, g);
      var accent := FindAccent(group);
      var moras := FixVowels(group);
      phrases := phrases + [AccentPhrase(moras, accent, None, false)];
      assert groups[..g + 1][..g] == groups[..g];
      visited := visited + MoraSet(group);
    }
    assert groups[..|groups|] == groups;
    PhraseListElements(groups);
  }

  lemma GroupMorasSnoc(groups: seq<seq<MoraTone>>, g: nat)
    requires g < |groups|
    ensures GroupMoras(groups[..g + 1]) == GroupMoras(groups[..g]) + MoraSet(groups[g])
    ensures MoraSet(groups[g]) <= GroupMoras(groups)
  {
    var a, b := GroupMoras(groups[..g + 1]), GroupMoras(groups[..g]) + MoraSet(groups[g]);
    forall m | m in a ensures m in b {
      var h, i :| 0 <= h < g + 1 && 0 <= i < |groups[..g + 1][h]| && groups[..g + 1][h][i].0 == m;
      if h < g {
        assert groups[..g][h][i].0 == m;
      }
    }
    forall m | m in b ensures m in a {
      if m in MoraSet(groups[g]) {
        var i :| 0 <= i < |groups[g]| && groups[g][i].0 == m;
        assert groups[..g + 1][g][i].0 == m;
      } else {
        var h, i :| 0 <= h < g && 0 <= i < |groups[..g][h]| && groups[..g][h][i].0 == m;
        assert groups[..g + 1][h][i].0 == m;
      }
    }
  }

  // ---------------------------------------------------------------------------
  // The kana/tone list of `synthesize_wave`

  /** The tone `synthesize_wave` gives the mora at `index` of a phrase with this accent. */
  function ToneAt(index: nat, accent: int): (r: int)
    ensures r == 0 || r == 1
    ensures r == 1 <==> index <= accent - 1 && (index > 0 || accent == 1)
  {
    var accentIndex := accent - 1;
    if index == 0 && accentIndex != 0 then 0
    else if index <= accentIndex then 1
    else 0
  }

  /** The tones of a phrase of `n` moras with this accent. */
  function TonePattern(n: nat, accent: int): (r: seq<int>)
    ensures |r| == n && forall i :: 0 <= i < n ==> r[i] == ToneAt(i, accent)
  {
    seq(n, i requires 0 <= i < n => ToneAt(i, accent))
  }

  /**
   * Reading the nucleus back off the tones `synthesize_wave` derives gives the accent
   * it started from, for every accent inside the phrase.
   */
  lemma AccentRoundTrip(n: nat, accent: int)
    requires 1 <= accent <= n
    ensures AccentIndex(TonePattern(n, accent)) == accent
  {
    var tones := TonePattern(n, accent);
    var r := AccentIndex(tones);
    if accent < n {
      assert FallsAfter(tones, accent - 1);
    } else {
      forall k | 0 <= k < n - 1 ensures !FallsAfter(tones, k) {
        assert tones[k + 1] == 1;
      }
    }
  }

  /** The entries one phrase contributes: one per mora, then "," for a pause. */
  function PhraseKataTones(phrase: AccentPhrase): (r: seq<(string, int)>)
    ensures |r| == |phrase.moras| + (if phrase.pauseMora.Some? then 1 else 0)
    ensures forall i :: 0 <= i < |phrase.moras| ==>
      r[i].0 == phrase.moras[i].text && r[i].1 == TonePattern(|phrase.moras|, phrase.accent)[i]
    ensures phrase.pauseMora.Some? ==> r[|phrase.moras|] == (",", 0)
  {
    var moras := phrase.moras;
    seq(|moras|, i requires 0 <= i < |moras| => (moras[i].text, ToneAt(i, phrase.accent))) +
      (if phrase.pauseMora.Some? then [(",", 0)] else [])
  }

  function KataTones(phrases: seq<AccentPhrase>): seq<(string, int)> {
    if phrases == [] then []
    else KataTones(phrases[..|phrases| - 1]) + PhraseKataTones(phrases[|phrases| - 1])
  }

  function MoraCount(phrases: seq<AccentPhrase>): nat {
    if phrases == [] then 0 else MoraCount(phrases[..|phrases| - 1]) + |phrases[|phrases| - 1].moras|
  }

  function PauseCount(phrases: seq<AccentPhrase>): nat {
    if phrases == [] then 0
    else PauseCount(phrases[..|phrases| - 1]) + (if phrases[|phrases| - 1].pauseMora.Some? then 1 else 0)
  }

  /** One entry per mora and one per pause. */
  lemma {:induction false} KataTonesLength(phrases: seq<AccentPhrase>)
    ensures |KataTones(phrases)| == MoraCount(phrases) + PauseCount(phrases)
  {
    if phrases != [] {
      KataTonesLength(phrases[..|phrases| - 1]);
    }
  }

  /** The loop of `synthesize_wave` that builds `kata_tone_list`. */
  method KataToneList(phrases: seq<AccentPhrase>) returns (list: seq<(string, int)>)
    ensures list == KataTones(phrases)
  {
    list := [];
    for p := 0 to |phrases|
      invariant list == KataTones(phrases[..p])
    {
      var phrase := phrases[p];
      var accentIndex := phrase.accent - 1;
      ghost var before := list;
      for index := 0 to |phrase.moras|
        invariant list == before + PhraseKataTones(phrase)[..index]
      {
        var mora := phrase.moras[index];
        var tone := 0;
        if index == 0 && accentIndex != 0 {
          tone := 0;
        } else if index <= accentIndex {
          tone := 1;
        } else {
          tone := 0;
        }
        assert PhraseKataTones(phrase)[..index + 1] == PhraseKataTones(phrase)[..index] + [(mora.text, tone)];
        list := list + [(mora.text, tone)];
      }
      if phrase.pauseMora.Some? {
        list := list + [(",", 0)];
      }
      assert list == before + PhraseKataTones(phrase);
      assert phrases[..p + 1][..p] == phrases[..p];
    }
    assert phrases[..|phrases|] == phrases;
  }

  // ---------------------------------------------------------------------------
  // Dummy lengths and pitch

  /** The dummy lengths `update_length` gives a mora. */
  predicate HasDummyLengths(m: Mora)
    reads m
  {
    m.consonantLength == (if m.consonant.None? then None else Some(0.0)) && m.vowelLength == 0.0
  }

  /**
   * `update_length`: every mora of every phrase gets consonant length 0 when it has a
   * consonant and none otherwise, and vowel length 0; the same list is returned.
   */
  method UpdateLength(phrases: seq<AccentPhrase>) returns (r: seq<AccentPhrase>)
    modifies PhraseMoras(phrases)
    ensures r == phrases
    ensures forall p, i :: 0 <= p < |phrases| && 0 <= i < |phrases[p].moras| ==>
      HasDummyLengths(phrases[p].moras[i])
    ensures forall m :: m in PhraseMoras(phrases) ==> m.vowel == old(m.vowel) && m.pitch == old(m.pitch)
  {
    for p := 0 to |phrases|
      invariant forall q, i :: 0 <= q < p && 0 <= i < |phrases[q].moras| ==> HasDummyLengths(phrases[q].moras[i])
      invariant forall m :: m in PhraseMoras(phrases) ==> m.vowel == old(m.vowel) && m.pitch == old(m.pitch)
    {
      var moras := phrases[p].moras;
      for i := 0 to |moras|
        invariant forall q, j :: 0 <= q < p && 0 <= j < |phrases[q].moras| ==> HasDummyLengths(phrases[q].moras[j])
        invariant forall j :: 0 <= j < i ==> HasDummyLengths(moras[j])
        invariant forall m :: m in PhraseMoras(phrases) ==> m.vowel == old(m.vowel) && m.pitch == old(m.pitch)
      {
        var mora := moras[i];
        assert mora in PhraseMoras(phrases);
        if mora.consonant.Some? {
          mora.consonantLength := Some(0.0);
        } else {
          mora.consonantLength := None;
        }
        mora.vowelLength := 0.0;
      }
    }
    r := phrases;
  }

  /** `update_pitch`: every mora of every phrase gets pitch 0; the same list is returned. */
  method UpdatePitch(phrases: seq<AccentPhrase>) returns (r: seq<AccentPhrase>)
    modifies PhraseMoras(phrases)
    ensures r == phrases
    ensures forall p, i :: 0 <= p < |phrases| && 0 <= i < |phrases[p].moras| ==> phrases[p].moras[i].pitch == 0.0
    ensures forall m :: m in PhraseMoras(phrases) ==>
      m.consonantLength == old(m.consonantLength) && m.vowel == old(m.vowel) && m.vowelLength == old(m.vowelLength)
  {
    for p := 0 to |phrases|
      invariant forall q, i :: 0 <= q < p && 0 <= i < |phrases[q].moras| ==> phrases[q].moras[i].pitch == 0.0
      invariant forall m :: m in PhraseMoras(phrases) ==>
        m.consonantLength == old(m.consonantLength) && m.vowel == old(m.vowel) && m.vowelLength == old(m.vowelLength)
    {
      var moras := phrases[p].moras;
      for i := 0 to |moras|
        invariant forall q, j :: 0 <= q < p && 0 <= j < |phrases[q].moras| ==> phrases[q].moras[j].pitch == 0.0
        invariant forall j :: 0 <= j < i ==> moras[j].pitch == 0.0
        invariant forall m :: m in PhraseMoras(phrases) ==>
          m.consonantLength == old(m.consonantLength) && m.vowel == old(m.vowel) && m.vowelLength == old(m.vowelLength)
      {
        assert moras[i] in PhraseMoras(phrases);
        moras[i].pitch := 0.0;
      }
    }
    r := phrases;
  }
}
