/**
 * The engine's mora and accent-phrase records, as the Style-Bert-VITS2 engine
 * builds and updates them, and the exceptions its accent-phrase code can raise.
 */
module Moras {
  import opened Wrappers

  /**
   * One mora (`Mora`). The engine never reassigns a mora's text or consonant once
   * made, so those two are constants; lengths, vowel and pitch are updated in place.
   */
  class Mora {
    const text: string
    const consonant: Option<string>
    var consonantLength: Option<real>
    var vowel: string
    var vowelLength: real
    var pitch: real

    constructor(text: string, consonant: Option<string>, consonantLength: Option<real>,
                vowel: string, vowelLength: real, pitch: real)
      ensures this.text == text && this.consonant == consonant
      ensures this.consonantLength == consonantLength && this.vowel == vowel
      ensures this.vowelLength == vowelLength && this.pitch == pitch
    {
      this.text := text;
      this.consonant := consonant;
      this.consonantLength := consonantLength;
      this.vowel := vowel;
      this.vowelLength := vowelLength;
      this.pitch := pitch;
    }
  }

  /** One accent phrase (`AccentPhrase`): its moras, the 1-based accent nucleus, an optional pause. */
  datatype AccentPhrase = AccentPhrase(moras: seq<Mora>, accent: int, pauseMora: Option<Mora>,
                                       isInterrogative: bool)

  /** The exceptions the accent-phrase code lets through. */
  datatype TtsError =
    | IndexError        // an index past the end of `sep_phonemes_with_joshi`
    | AssertionFailed   // one of the `assert`s of `_phone_tone2mora_tone`
    | KeyError          // a phoneme pair missing from the phonemes-to-kana table

  /** A mora paired with its tone (0 low, 1 high), as the grouping passes carry them. */
  type MoraTone = (Mora, int)

  function Tones(group: seq<MoraTone>): (r: seq<int>)
    ensures |r| == |group| && forall i :: 0 <= i < |group| ==> r[i] == group[i].1
  {
    seq(|group|, i requires 0 <= i < |group| => group[i].1)
  }

  function MorasOf(group: seq<MoraTone>): (r: seq<Mora>)
    ensures |r| == |group| && forall i :: 0 <= i < |group| ==> r[i] == group[i].0
  {
    seq(|group|, i requires 0 <= i < |group| => group[i].0)
  }

  /** Every mora of every phrase. */
  ghost function PhraseMoras(phrases: seq<AccentPhrase>): set<Mora> {
    set i, j | 0 <= i < |phrases| && 0 <= j < |phrases[i].moras| :: phrases[i].moras[j]
  }
}
