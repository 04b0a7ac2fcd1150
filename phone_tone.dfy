/**
 * `_phone_tone2mora_tone` in tts_pipeline/style_bert_vits2_tts_engine.py: turns the
 * phoneme/tone list of `g2p` into moras with tones, holding a consonant until the
 * vowel that completes its mora. The punctuation set, the consonant set and the
 * phonemes-to-kana table are inputs.
 */
module PhoneTone {
  import opened Wrappers
  import opened Moras

  /** The fields of a mora, as values. */
  datatype MoraValue = MoraValue(text: string, consonant: Option<string>, consonantLength: Option<real>,
                                 vowel: string, vowelLength: real, pitch: real)

  function ValueOf(m: Mora): MoraValue
    reads m
  {
    MoraValue(m.text, m.consonant, m.consonantLength, m.vowel, m.vowelLength, m.pitch)
  }

  /** The moras made so far hold, in order, the values and tones of the scan. */
  ghost predicate Matches(result: seq<MoraTone>, moras: seq<(MoraValue, int)>)
    reads set j | 0 <= j < |result| :: result[j].0
  {
    |result| == |moras| &&
    forall j :: 0 <= j < |result| ==> ValueOf(result[j].0) == moras[j].0 && result[j].1 == moras[j].1
  }

  lemma MatchesSnoc(result: seq<MoraTone>, moras: seq<(MoraValue, int)>, m: Mora, tone: int)
    requires Matches(result, moras)
    ensures Matches(result + [(m, tone)], moras + [(ValueOf(m), tone)])
  {
  }

  /** One visited position: its phone, its tone and the next position's tone. */
  type PhoneStep = (string, int, int)

  /**
   * The positions the loop visits: the first pair is dropped, and the last pair only
   * supplies the final next tone.
   */
  function Steps(phoneTones: seq<(string, int)>): (r: seq<PhoneStep>)
    ensures |r| == if |phoneTones| < 2 then 0 else |phoneTones| - 2
    ensures forall i :: 0 <= i < |r| ==>
      r[i] == (phoneTones[i + 1].0, phoneTones[i + 1].1, phoneTones[i + 2].1)
  {
    if |phoneTones| < 2 then []
    else
      seq(|phoneTones| - 2, i requires 0 <= i < |phoneTones| - 2 =>
        (phoneTones[i + 1].0, phoneTones[i + 1].1, phoneTones[i + 2].1))
  }

  /** The moras made so far and the consonant waiting for its vowel. */
  datatype Scan = Scan(moras: seq<(MoraValue, int)>, pending: Option<string>)

  /** The mora a punctuation phone stands for. */
  function PauseValue(phone: string): MoraValue {
    MoraValue(phone, None, None, "pau", 0.0, 0.0)
  }

  function PendingPrefix(pending: Option<string>): string {
    if pending.None? then "" else pending.value
  }

  /** One iteration of the loop. */
  function ScanStep(s: Scan, step: PhoneStep, punctuations: set<string>, consonants: set<string>,
                    kana: map<string, string>): Result<Scan, TtsError>
  {
    var (phone, tone, nextTone) := step;
    if phone in punctuations then
      Success(Scan(s.moras + [(PauseValue(phone), tone)], s.pending))
    else if phone in consonants then
      if s.pending.Some? || tone != nextTone then Failure(AssertionFailed)
      else Success(Scan(s.moras, Some(phone)))
    else
      var key := PendingPrefix(s.pending) + phone;
      if key !in kana then Failure(KeyError)
      else
        var consonantLength: Option<real> := if s.pending.None? then None else Some(0.0);
        Success(Scan(s.moras + [(MoraValue(kana[key], s.pending, consonantLength, phone, 0.0, 0.0), tone)], None))
  }

  /** The loop over `steps`, or the first exception it raises. */
  function ScanAll(steps: seq<PhoneStep>, punctuations: set<string>, consonants: set<string>,
                   kana: map<string, string>): Result<Scan, TtsError>
  {
    if steps == [] then Success(Scan([], None))
    else
      match ScanAll(steps[..|steps| - 1], punctuations, consonants, kana)
      case Failure(e) => Failure(e)
      case Success(s) => ScanStep(s, steps[|steps| - 1], punctuations, consonants, kana)
  }

  /** The steps that yield a mora: punctuation and everything that is not a consonant. */
  function MoraSteps(steps: seq<PhoneStep>, punctuations: set<string>, consonants: set<string>): seq<PhoneStep> {
    if steps == [] then []
    else
      var last := steps[|steps| - 1];
      MoraSteps(steps[..|steps| - 1], punctuations, consonants) +
        (if last.0 in punctuations || last.0 !in consonants then [last] else [])
  }

  /**
   * A successful scan makes one mora per punctuation or vowel phone, in order, with
   * that phone's tone: a punctuation phone gives a "pau" mora with its own text and
   * no consonant, a vowel gives a mora with that vowel.
   */
  lemma {:induction false} ScanMoras(steps: seq<PhoneStep>, punctuations: set<string>, consonants: set<string>,
                                     kana: map<string, string>)
    requires ScanAll(steps, punctuations, consonants, kana).Success?
    ensures var moras := ScanAll(steps, punctuations, consonants, kana).value.moras;
      var made := MoraSteps(steps, punctuations, consonants);
      |moras| == |made| &&
      forall j :: 0 <= j < |moras| ==>
        moras[j].1 == made[j].1 &&
        (made[j].0 in punctuations ==> moras[j].0 == PauseValue(made[j].0)) &&
        (made[j].0 !in punctuations ==> moras[j].0.vowel == made[j].0 && moras[j].0.vowelLength == 0.0)
  {
    if steps != [] {
      ScanMoras(steps[..|steps| - 1], punctuations, consonants, kana);
    }
  }

  /**
   * A consonant never yields a mora of its own: it is held, and the vowel that ends
   * the held consonant's mora carries it, with consonant length 0.
   */
  lemma {:induction false} ScanCarriesConsonant(steps: seq<PhoneStep>, punctuations: set<string>,
                                                consonants: set<string>, kana: map<string, string>)
    requires ScanAll(steps, punctuations, consonants, kana).Success?
    ensures var moras := ScanAll(steps, punctuations, consonants, kana).value.moras;
      forall j :: 0 <= j < |moras| ==>
        (moras[j].0.consonant.None? <==> moras[j].0.consonantLength.None?) &&
        (moras[j].0.consonant.Some? ==> moras[j].0.consonant.value in consonants &&
                                        moras[j].0.consonantLength == Some(0.0))
    ensures var pending := ScanAll(steps, punctuations, consonants, kana).value.pending;
      pending.Some? ==> pending.value in consonants
  {
    if steps != [] {
      ScanCarriesConsonant(steps[..|steps| - 1], punctuations, consonants, kana);
    }
  }

  /**
   * The consonant held after `steps`, read off the steps alone: a consonant is held
   * until a vowel takes it, and punctuation leaves it held.
   */
  function Held(steps: seq<PhoneStep>, punctuations: set<string>, consonants: set<string>): Option<string> {
    if steps == [] then None
    else
      var phone := steps[|steps| - 1].0;
      if phone in punctuations then Held(steps[..|steps| - 1], punctuations, consonants)
      else if phone in consonants then Some(phone)
      else None
  }

  /** The exception a step raises after `prefix`, if any: the two assertions and the table lookup. */
  function StepError(prefix: seq<PhoneStep>, step: PhoneStep, punctuations: set<string>, consonants: set<string>,
                     kana: map<string, string>): Option<TtsError>
  {
    var (phone, tone, nextTone) := step;
    var held := Held(prefix, punctuations, consonants);
    if phone in punctuations then None
    else if phone in consonants then (if held.Some? || tone != nextTone then Some(AssertionFailed) else None)
    else if PendingPrefix(held) + phone !in kana then Some(KeyError)
    else None
  }

  /** The steps that yield a mora, by position. */
  function MoraPositions(steps: seq<PhoneStep>, punctuations: set<string>, consonants: set<string>): (r: seq<nat>)
    ensures forall j :: 0 <= j < |r| ==> r[j] < |steps|
  {
    if steps == [] then []
    else
      var n := |steps| - 1;
      MoraPositions(steps[..n], punctuations, consonants) +
        (if steps[n].0 in punctuations || steps[n].0 !in consonants then [n] else [])
  }

  /** The consonant the scan holds is `Held`. */
  lemma {:induction false} HeldPending(steps: seq<PhoneStep>, punctuations: set<string>, consonants: set<string>,
                                       kana: map<string, string>)
    requires ScanAll(steps, punctuations, consonants, kana).Success?
    ensures ScanAll(steps, punctuations, consonants, kana).value.pending == Held(steps, punctuations, consonants)
  {
    if steps != [] {
      HeldPending(steps[..|steps| - 1], punctuations, consonants, kana);
    }
  }

  /**
   * Where each mora comes from: the `j`-th mora is made at step `MoraPositions[j]`,
   * positions increasing. A punctuation step gives its "pau" mora; a vowel step gives
   * the mora whose consonant is the one held before it (punctuation in between does
   * not drop it) and whose text is the table's entry for that consonant and the vowel.
   */
  lemma {:induction false} ScanMoraSources(steps: seq<PhoneStep>, punctuations: set<string>, consonants: set<string>,
                                           kana: map<string, string>)
    requires ScanAll(steps, punctuations, consonants, kana).Success?
    ensures var moras := ScanAll(steps, punctuations, consonants, kana).value.moras;
      var pos := MoraPositions(steps, punctuations, consonants);
      |pos| == |moras| &&
      (forall j, k :: 0 <= j < k < |pos| ==> pos[j] < pos[k]) &&
      forall j :: 0 <= j < |moras| ==>
        var phone := steps[pos[j]].0;
        var held := Held(steps[..pos[j]], punctuations, consonants);
        moras[j].1 == steps[pos[j]].1 &&
        (phone in punctuations ==> moras[j].0 == PauseValue(phone)) &&
        (phone !in punctuations ==>
          phone !in consonants && moras[j].0.vowel == phone && moras[j].0.consonant == held &&
          PendingPrefix(held) + phone in kana && moras[j].0.text == kana[PendingPrefix(held) + phone])
  {
    if steps != [] {
      var n := |steps| - 1;
      var init := steps[..n];
      ScanMoraSources(init, punctuations, consonants, kana);
      HeldPending(init, punctuations, consonants, kana);
      var before := ScanAll(init, punctuations, consonants, kana).value.moras;
      var pos0 := MoraPositions(init, punctuations, consonants);
      forall j | 0 <= j < |before|
        ensures steps[pos0[j]] == init[pos0[j]] && steps[..pos0[j]] == init[..pos0[j]]
      {
      }
    }
  }

  /** One step of the scan fails exactly as `StepError` says, given the held consonant. */
  lemma StepErrorMatches(s: Scan, prefix: seq<PhoneStep>, step: PhoneStep, punctuations: set<string>,
                         consonants: set<string>, kana: map<string, string>)
    requires s.pending == Held(prefix, punctuations, consonants)
    ensures ScanStep(s, step, punctuations, consonants, kana).Failure? <==>
      StepError(prefix, step, punctuations, consonants, kana).Some?
    ensures ScanStep(s, step, punctuations, consonants, kana).Failure? ==>
      StepError(prefix, step, punctuations, consonants, kana) == Some(ScanStep(s, step, punctuations, consonants, kana).error)
  {
  }

  /** No step before `i` raises. */
  ghost predicate NoErrorBefore(steps: seq<PhoneStep>, i: nat, punctuations: set<string>, consonants: set<string>,
                                kana: map<string, string>)
    requires i <= |steps|
  {
    forall q :: 0 <= q < i ==> StepError(steps[..q], steps[q], punctuations, consonants, kana).None?
  }

  /**
   * The scan fails exactly when some step's test fires, and then with the exception
   * of the first such step.
   */
  lemma {:induction false} ScanFailure(steps: seq<PhoneStep>, punctuations: set<string>, consonants: set<string>,
                                       kana: map<string, string>)
    ensures ScanAll(steps, punctuations, consonants, kana).Success? <==>
      NoErrorBefore(steps, |steps|, punctuations, consonants, kana)
    ensures ScanAll(steps, punctuations, consonants, kana).Failure? ==>
      exists i :: 0 <= i < |steps| && NoErrorBefore(steps, i, punctuations, consonants, kana) &&
        StepError(steps[..i], steps[i], punctuations, consonants, kana) ==
          Some(ScanAll(steps, punctuations, consonants, kana).error)
  {
    if steps != [] {
      var n := |steps| - 1;
      var init := steps[..n];
      ScanFailure(init, punctuations, consonants, kana);
      assert forall q :: 0 <= q <= n ==> steps[..q] == init[..q];
      assert forall q :: 0 <= q < n ==> steps[q] == init[q];
      var whole := ScanAll(steps, punctuations, consonants, kana);
      var before := ScanAll(init, punctuations, consonants, kana);
      if before.Failure? {
        assert whole == before;
        var i :| 0 <= i < n && NoErrorBefore(init, i, punctuations, consonants, kana) &&
          StepError(init[..i], init[i], punctuations, consonants, kana) == Some(before.error);
        assert NoErrorBefore(steps, i, punctuations, consonants, kana);
        assert StepError(steps[..i], steps[i], punctuations, consonants, kana).Some?;
        assert !NoErrorBefore(steps, |steps|, punctuations, consonants, kana);
      } else {
        HeldPending(init, punctuations, consonants, kana);
        assert whole == ScanStep(before.value, steps[n], punctuations, consonants, kana);
        StepErrorMatches(before.value, init, steps[n], punctuations, consonants, kana);
        assert NoErrorBefore(steps, n, punctuations, consonants, kana);
      }
    }
  }

  /** Two consonants in a row fail the first assertion, whatever follows. */
  lemma ConsonantAfterConsonant(steps: seq<PhoneStep>, i: nat, punctuations: set<string>,
                                consonants: set<string>, kana: map<string, string>)
    requires i + 1 < |steps|
    requires steps[i].0 in consonants && steps[i].0 !in punctuations
    requires steps[i + 1].0 in consonants && steps[i + 1].0 !in punctuations
    ensures ScanAll(steps, punctuations, consonants, kana).Failure?
  {
    assert steps[..i + 2][..i + 1] == steps[..i + 1];
    assert steps[..i + 1][..i] == steps[..i];
    ScanFailsLater(steps, i + 2, punctuations, consonants, kana);
  }

  /**
   * One pass of the loop body of `_phone_tone2mora_tone`: allocates the mora the
   * phone completes, if any, and returns it with the consonant held afterwards.
   */
  method PhoneStepMora(current: Option<string>, step: PhoneStep, ghost scan: Scan,
                       punctuations: set<string>, consonants: set<string>, kana: map<string, string>)
    returns (r: Result<(Option<MoraTone>, Option<string>), TtsError>)
    requires current == scan.pending
    ensures var next := ScanStep(scan, step, punctuations, consonants, kana);
      (r.Failure? <==> next.Failure?) &&
      (r.Failure? ==> r.error == next.error) &&
      (r.Success? ==>
        r.value.1 == next.value.pending &&
        (r.value.0.None? ==> next.value.moras == scan.moras) &&
        (r.value.0.Some? ==>
           fresh(r.value.0.value.0) &&
           next.value.moras == scan.moras + [(ValueOf(r.value.0.value.0), r.value.0.value.1)]))
  {
    var (phone, tone, nextTone) := step;
    if phone in punctuations {
      var mora := new Mora(phone, None, None, "pau", 0.0, 0.0);
      return Success((Some((mora, tone)), current));
    }
    if phone in consonants {
      if current.Some? || tone != nextTone {
        return Failure(AssertionFailed);
      }
      return Success((None, Some(phone)));
    }
    var vowel := phone;
    var key := (if current.None? then "" else current.value) + vowel;
    if key !in kana {
      return Failure(KeyError);
    }
    var consonantLength: Option<real> := if current.None? then None else Some(0.0);
    var mora := new Mora(kana[key], current, consonantLength, vowel, 0.0, 0.0);
    return Success((Some((mora, tone)), None));
  }

  /**
   * `_phone_tone2mora_tone`: the loop, allocating each mora as it is made. The result
   * moras are fresh and pairwise distinct, and hold the values `ScanAll` describes.
   */
  method PhoneToneToMoraTone(phoneTones: seq<(string, int)>, punctuations: set<string>,
                             consonants: set<string>, kana: map<string, string>)
    returns (r: Result<seq<MoraTone>, TtsError>)
    ensures var spec := ScanAll(Steps(phoneTones), punctuations, consonants, kana);
      (r.Failure? <==> spec.Failure?) &&
      (r.Failure? ==> r.error == spec.error) &&
      (r.Success? ==>
        |r.value| == |spec.value.moras| &&
        (forall j :: 0 <= j < |r.value| ==> fresh(r.value[j].0)) &&
        (forall j, k :: 0 <= j < k < |r.value| ==> r.value[j].0 != r.value[k].0) &&
        (forall j :: 0 <= j < |r.value| ==>
          ValueOf(r.value[j].0) == spec.value.moras[j].0 && r.value[j].1 == spec.value.moras[j].1))
  {
    var steps := Steps(phoneTones);
    var result: seq<MoraTone> := [];
    var current: Option<string> := None;
    ghost var scan := Scan([], None);
    for i := 0 to |steps|
      invariant ScanAll(steps[..i], punctuations, consonants, kana) == Success(scan)
      invariant current == scan.pending
      invariant forall j :: 0 <= j < |result| ==> fresh(result[j].0)
      invariant forall j, k :: 0 <= j < k < |result| ==> result[j].0 != result[k].0
      invariant Matches(result, scan.moras)
    {
      ScanAllStep(steps, i, punctuations, consonants, kana);
      var next := PhoneStepMora(current, steps[i], scan, punctuations, consonants, kana);
      if next.Failure? {
        ScanFailsLater(steps, i + 1, punctuations, consonants, kana);
        return Failure(next.error);
      }
      var (made, held) := next.value;
      if made.Some? {
        var (mora, tone) := made.value;
        MatchesSnoc(result, scan.moras, mora, tone);
        result := result + [(mora, tone)];
      }
      current := held;
      scan := ScanStep(scan, steps[i], punctuations, consonants, kana).value;
    }
    assert steps[..|steps|] == steps;
    return Success(result);
  }

  lemma ScanAllStep(steps: seq<PhoneStep>, i: nat, punctuations: set<string>, consonants: set<string>,
                    kana: map<string, string>)
    requires i < |steps| && ScanAll(steps[..i], punctuations, consonants, kana).Success?
    ensures ScanAll(steps[..i + 1], punctuations, consonants, kana) ==
      ScanStep(ScanAll(steps[..i], punctuations, consonants, kana).value, steps[i], punctuations, consonants, kana)
  {
    assert steps[..i + 1][..i] == steps[..i];
  }

  /** Once the scan has failed it stays failed, with the same exception. */
  lemma {:induction false} ScanFailsLater(steps: seq<PhoneStep>, k: nat, punctuations: set<string>,
                                          consonants: set<string>, kana: map<string, string>)
    requires k <= |steps| && ScanAll(steps[..k], punctuations, consonants, kana).Failure?
    ensures ScanAll(steps, punctuations, consonants, kana) == ScanAll(steps[..k], punctuations, consonants, kana)
  {
    if k < |steps| {
      var n := |steps| - 1;
      assert steps[..n][..k] == steps[..k];
      ScanFailsLater(steps[..n], k, punctuations, consonants, kana);
    } else {
      assert steps[..k] == steps;
    }
  }
}
