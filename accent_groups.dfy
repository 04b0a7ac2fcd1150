/**
 * The two grouping passes of `create_accent_phrases` in
 * tts_pipeline/style_bert_vits2_tts_engine.py: first the mora list is cut where
 * ordinary moras resume after punctuation, then each group is cut again where the
 * pitch dips, but only at the first mora of a `sep_phonemes_with_joshi` element.
 * Only the lengths of that list's elements matter, so it is passed in as `lens`.
 */
module AccentGroups {
  import opened Wrappers
  import opened Moras
  import opened Grouping

  // ----- first pass -----

  /** A new group starts at 0 and wherever a non-punctuation mora follows a punctuation mora. */
  function PunctuationCuts(moraTones: seq<MoraTone>, punctuations: set<string>): (r: seq<bool>)
    ensures |r| == |moraTones|
  {
    seq(|moraTones|, i requires 0 <= i < |moraTones| => PunctuationStart(moraTones, punctuations, i))
  }

  /**
   * The first pass keeps every mora, in order, in non-empty groups, and a group starts
   * exactly at index 0 and where a non-punctuation mora follows a punctuation mora.
   */
  lemma FirstPassShape(moraTones: seq<MoraTone>, punctuations: set<string>)
    ensures var groups := Chunk(moraTones, PunctuationCuts(moraTones, punctuations));
      Flatten(groups) == moraTones &&
      (forall g :: g in groups ==> |g| > 0) &&
      forall i :: i in Starts(groups) <==> PunctuationStart(moraTones, punctuations, i)
  {
    var cuts := PunctuationCuts(moraTones, punctuations);
    ChunkFlatten(moraTones, cuts);
    ChunkNonEmpty(moraTones, cuts);
    ChunkStarts(moraTones, cuts);
    forall i ensures i in CutPositions(cuts) <==> PunctuationStart(moraTones, punctuations, i) {
    }
  }

  /** Index 0, or a non-punctuation mora right after a punctuation mora. */
  predicate PunctuationStart(moraTones: seq<MoraTone>, punctuations: set<string>, i: int) {
    0 <= i < |moraTones| &&
    (i == 0 || (moraTones[i].0.text !in punctuations && moraTones[i - 1].0.text in punctuations))
  }

  /** Appending one element to a chunked list, with that element's cut flag. */
  lemma ChunkAppend<T>(xs: seq<T>, cut: seq<bool>, x: T, b: bool)
    requires |cut| == |xs|
    ensures var prev := Chunk(xs, cut);
      Chunk(xs + [x], cut + [b]) ==
        if |xs| == 0 || b then prev + [[x]]
        else prev[..|prev| - 1] + [prev[|prev| - 1] + [x]]
  {
    assert (xs + [x])[..|xs|] == xs;
    assert (cut + [b])[..|cut|] == cut;
  }

  /**
   * The loop state of both passes: the closed groups `done` and the open group
   * `current`, which together are the chunked prefix. Cutting before `x` closes
   * `current` (when it is not empty) and opens `[x]`; otherwise `x` joins `current`.
   */
  ghost predicate GroupState<T>(done: seq<seq<T>>, current: seq<T>, xs: seq<T>, cut: seq<bool>)
    requires |cut| == |xs|
  {
    (|xs| == 0 ==> done == [] && current == []) &&
    (|xs| > 0 ==> current != [] && done + [current] == Chunk(xs, cut))
  }

  lemma GroupStep<T>(done: seq<seq<T>>, current: seq<T>, xs: seq<T>, cut: seq<bool>, x: T, b: bool)
    requires |cut| == |xs| && GroupState(done, current, xs, cut)
    ensures |xs| == 0 || b ==>
      GroupState(if current != [] then done + [current] else done, [x], xs + [x], cut + [b])
    ensures |xs| > 0 && !b ==> GroupState(done, current + [x], xs + [x], cut + [b])
  {
    ChunkAppend(xs, cut, x, b);
    if |xs| > 0 {
      var prev := done + [current];
      assert prev[..|prev| - 1] == done;
    }
  }

  lemma GroupStateDone<T>(done: seq<seq<T>>, current: seq<T>, xs: seq<T>, cut: seq<bool>)
    requires |cut| == |xs| && GroupState(done, current, xs, cut)
    ensures (if current != [] then done + [current] else done) == Chunk(xs, cut)
  {
  }

  /** The first loop: the groups are the mora list cut by `PunctuationCuts`. */
  method GroupAtPunctuation(moraTones: seq<MoraTone>, punctuations: set<string>)
    returns (groups: seq<seq<MoraTone>>)
    ensures groups == Chunk(moraTones, PunctuationCuts(moraTones, punctuations))
  {
    ghost var cuts := PunctuationCuts(moraTones, punctuations);
    groups := [];
    var current: seq<MoraTone> := [];
    for i := 0 to |moraTones|
      invariant GroupState(groups, current, moraTones[..i], cuts[..i])
    {
      GroupStep(groups, current, moraTones[..i], cuts[..i], moraTones[i], cuts[i]);
      assert moraTones[..i] + [moraTones[i]] == moraTones[..i + 1];
      assert cuts[..i] + [cuts[i]] == cuts[..i + 1];
      var startsGroup := i == 0 || (moraTones[i].0.text !in punctuations && moraTones[i - 1].0.text in punctuations);
      assert startsGroup == cuts[i];
      if startsGroup {
        if current != [] {
          groups := groups + [current];
          current := [];
        }
        current := current + [moraTones[i]];
        assert current == [moraTones[i]];
      } else {
        current := current + [moraTones[i]];
      }
    }
    assert moraTones[..|moraTones|] == moraTones && cuts[..|cuts|] == cuts;
    GroupStateDone(groups, current, moraTones, cuts);
    if current != [] {
      groups := groups + [current];
    }
  }

  // ----- the sep_phonemes_with_joshi counters -----

  /** The element index and the mora index within that element. */
  type Counter = (nat, nat)

  /**
   * One mora's update of the counters. The mora index is advanced first; then the
   * current element's length is looked up, which raises IndexError past the end.
   */
  function Step(lens: seq<nat>, c: Counter): Option<Counter> {
    if c.0 >= |lens| then None
    else if c.1 + 1 >= lens[c.0] then Some((c.0 + 1, 0))
    else Some((c.0, c.1 + 1))
  }

  /** The counters after `k` moras, starting from `c`; `None` once IndexError was raised. */
  function Run(lens: seq<nat>, c: Counter, k: nat): Option<Counter> {
    if k == 0 then Some(c)
    else
      match Run(lens, c, k - 1)
      case None => None
      case Some(d) => Step(lens, d)
  }

  lemma RunStep(lens: seq<nat>, c: Counter, k: nat)
    requires Run(lens, c, k).Some?
    ensures Run(lens, c, k + 1) == Step(lens, Run(lens, c, k).value)
  {
  }

  lemma {:induction false} RunPrefix(lens: seq<nat>, c: Counter, k: nat)
    requires Run(lens, c, k).Some?
    ensures forall q :: 0 <= q <= k ==> Run(lens, c, q).Some?
  {
    if k > 0 {
      RunPrefix(lens, c, k - 1);
    }
  }

  /** Running `a` moras and then `b` more is running `a + b`. */
  lemma {:induction false} RunAdd(lens: seq<nat>, c: Counter, a: nat, b: nat)
    ensures Run(lens, c, a + b) ==
      match Run(lens, c, a)
      case None => None
      case Some(d) => Run(lens, d, b)
  {
    if b > 0 {
      RunAdd(lens, c, a, b - 1);
      if Run(lens, c, a).None? {
        assert Run(lens, c, a + b - 1).None?;
      }
    }
  }

  /** Whether each of the next `k` moras may start an accent phrase: only an element's first mora may. */
  function Allowed(lens: seq<nat>, c: Counter, k: nat): (r: seq<bool>)
    requires Run(lens, c, k).Some?
    ensures |r| == k
  {
    if k == 0 then [] else Allowed(lens, c, k - 1) + [Run(lens, c, k - 1).value.1 == 0]
  }

  function Sum(lens: seq<nat>): nat {
    if lens == [] then 0 else Sum(lens[..|lens| - 1]) + lens[|lens| - 1]
  }

  /**
   * With non-empty elements the counters name the element and the position in it:
   * after `p` moras they are `(idx, mi)` with `p == Sum(lens[..idx]) + mi`, and they
   * fail exactly when `p` exceeds the total number of moras in the elements.
   */
  lemma {:induction false} RunTracksElements(lens: seq<nat>, p: nat)
    requires forall i :: 0 <= i < |lens| ==> lens[i] > 0
    ensures Run(lens, (0, 0), p).Some? <==> p <= Sum(lens)
    ensures Run(lens, (0, 0), p).Some? ==>
      var (idx, mi) := Run(lens, (0, 0), p).value;
      idx <= |lens| && p == Sum(lens[..idx]) + mi &&
      (idx < |lens| ==> mi < lens[idx]) && (idx == |lens| ==> mi == 0)
  {
    if p > 0 {
      RunTracksElements(lens, p - 1);
      var prev := Run(lens, (0, 0), p - 1);
      if prev.Some? {
        var (idx, mi) := prev.value;
        assert lens[..|lens|] == lens;
        if idx < |lens| {
          assert lens[..idx + 1][..idx] == lens[..idx];
          if idx + 1 < |lens| {
            SumPrefixBelow(lens, idx + 1);
          }
        }
      }
    }
  }

  lemma {:induction false} SumPrefixBelow(lens: seq<nat>, k: nat)
    requires k < |lens| && forall i :: 0 <= i < |lens| ==> lens[i] > 0
    ensures Sum(lens[..k]) < Sum(lens)
  {
    if k < |lens| - 1 {
      SumPrefixBelow(lens[..|lens| - 1], k);
      assert lens[..|lens| - 1][..k] == lens[..k];
    } else {
      assert lens[..k] == lens[..|lens| - 1];
    }
  }

  // ----- second pass -----

  /** The tone triple (previous, current, next) is (1, 0, 1) or (0, 0, 1). */
  predicate Dip(tones: seq<int>, i: int) {
    0 < i < |tones| - 1 && (tones[i - 1] == 1 || tones[i - 1] == 0) && tones[i] == 0 && tones[i + 1] == 1
  }

  /** A dip is followed by a high mora, so two dips are never adjacent. */
  lemma DipsApart(tones: seq<int>, i: int)
    requires Dip(tones, i)
    ensures !Dip(tones, i + 1)
  {
  }

  /**
   * Where the second pass cuts a group, for its first `|allowed|` moras: at a dip on
   * an element's first mora, or on the mora right after a dip inside an element.
   */
  function AccentCuts(tones: seq<int>, allowed: seq<bool>): (r: seq<bool>)
    requires |allowed| <= |tones|
    ensures |r| == |allowed|
  {
    seq(|allowed|, i requires 0 <= i < |allowed| =>
      (Dip(tones, i) && allowed[i]) || (i > 0 && Dip(tones, i - 1) && !allowed[i - 1]))
  }

  lemma AccentCutsPrefix(tones: seq<int>, allowed: seq<bool>, b: bool)
    requires |allowed| < |tones|
    ensures AccentCuts(tones, allowed + [b]) == AccentCuts(tones, allowed) +
      [(Dip(tones, |allowed|) && b) ||
       (|allowed| > 0 && Dip(tones, |allowed| - 1) && !allowed[|allowed| - 1])]
  {
  }

  /**
   * The split rule of the second pass: a sub-group starts at mora `i > 0` exactly
   * when (previous, current, next) tones are (1, 0, 1) or (0, 0, 1) at an element's
   * first mora, or when they were so at mora `i - 1` in the middle of an element, the
   * split then being deferred to the next mora.
   */
  lemma {:induction false} SplitRule(group: seq<MoraTone>, lens: seq<nat>, c: Counter, i: int)
    requires Run(lens, c, |group|).Some? && 0 < i < |group|
    ensures var allowed := Allowed(lens, c, |group|);
      var tones := Tones(group);
      i in Starts(Chunk(group, AccentCuts(tones, allowed))) <==>
        (Dip(tones, i) && allowed[i]) || (Dip(tones, i - 1) && !allowed[i - 1])
  {
    ChunkStarts(group, AccentCuts(Tones(group), Allowed(lens, c, |group|)));
  }

  lemma AllowedSnoc(lens: seq<nat>, c: Counter, k: nat)
    requires Run(lens, c, k + 1).Some?
    ensures Run(lens, c, k).Some?
    ensures Allowed(lens, c, k + 1) == Allowed(lens, c, k) + [Run(lens, c, k).value.1 == 0]
  {
    RunPrefix(lens, c, k + 1);
  }

  lemma RunNoneLater(lens: seq<nat>, c: Counter, k: nat, q: nat)
    requires k <= q && Run(lens, c, k).None?
    ensures Run(lens, c, q).None?
  {
    if Run(lens, c, q).Some? {
      RunPrefix(lens, c, q);
    }
  }

  /** One more element of a list being cut into groups, the loops' view of `GroupStep`. */
  lemma GroupAdvance<T>(xs: seq<T>, i: nat, done: seq<seq<T>>, current: seq<T>,
                        cuts: seq<bool>, cut: bool)
    requires i < |xs| && |cuts| == i && GroupState(done, current, xs[..i], cuts)
    requires cut ==> i > 0
    ensures cut ==> current != []
    ensures GroupState(if cut then done + [current] else done, if cut then [xs[i]] else current + [xs[i]],
                       xs[..i + 1], cuts + [cut])
  {
    GroupStep(done, current, xs[..i], cuts, xs[i], cut);
    assert xs[..i] + [xs[i]] == xs[..i + 1];
  }

  /** The cut the second pass adds at mora `i`, given whether counting starts a new element there. */
  lemma CutStep(tones: seq<int>, allowed: seq<bool>, separate: bool, b: bool)
    requires |allowed| < |tones|
    requires separate == (|allowed| > 0 && Dip(tones, |allowed| - 1) && !allowed[|allowed| - 1])
    ensures separate ==> !Dip(tones, |allowed|)
    ensures AccentCuts(tones, allowed + [b]) ==
      AccentCuts(tones, allowed) + [(Dip(tones, |allowed|) && b) || separate]
  {
    AccentCutsPrefix(tones, allowed, b);
    if separate {
      DipsApart(tones, |allowed| - 1);
    }
  }

  /**
   * The test of the second pass at mora `i`: the previous, current and next tones
   * are 1, 0, 1 or 0, 0, 1, the first mora having no previous and the last no next.
   */
  predicate DipAt(group: seq<MoraTone>, i: nat)
    requires i < |group|
    ensures DipAt(group, i) == Dip(Tones(group), i)
  {
    var tone := group[i].1;
    var previousTone: Option<int> := if i > 0 then Some(group[i - 1].1) else None;
    var nextTone: Option<int> := if i < |group| - 1 then Some(group[i + 1].1) else None;
    (previousTone == Some(1) && tone == 0 && nextTone == Some(1)) ||
    (previousTone == Some(0) && tone == 0 && nextTone == Some(1))
  }

  /**
   * The body of the inner loop of the second pass: the mora after a held dip starts
   * a new group; a dip starts one where a new word begins and is held otherwise.
   */
  method PlaceMora(regrouped: seq<seq<MoraTone>>, current: seq<MoraTone>, separate: bool, dip: bool,
                   allowedHere: bool, mora: MoraTone)
    returns (regrouped': seq<seq<MoraTone>>, current': seq<MoraTone>, separate': bool)
    ensures var cut := (dip && allowedHere) || separate;
      regrouped' == (if cut then regrouped + [current] else regrouped) &&
      current' == (if cut then [mora] else current + [mora]) &&
      separate' == (!separate && dip && !allowedHere)
  {
    regrouped', current', separate' := regrouped, current, separate;
    if separate {
      regrouped' := regrouped + [current];
      current' := [mora];
      separate' := false;
    } else if dip {
      if allowedHere {
        regrouped' := regrouped + [current];
        current' := [mora];
      } else {
        separate' := true;
        current' := current + [mora];
      }
    } else {
      current' := current + [mora];
    }
  }

  /**
   * The state of the inner loop of the second pass after the first `i` moras of
   * `group`: the counters, whether each mora began a new element, whether a dip is
   * held, and the groups cut so far.
   */
  ghost predicate SplitInv(group: seq<MoraTone>, lens: seq<nat>, c: Counter, i: nat, counter: Counter,
                           allowed: seq<bool>, separate: bool, cuts: seq<bool>,
                           regrouped: seq<seq<MoraTone>>, current: seq<MoraTone>)
  {
    i <= |group| && Run(lens, c, i) == Some(counter) && allowed == Allowed(lens, c, i) &&
    separate == (i > 0 && Dip(Tones(group), i - 1) && !allowed[i - 1]) &&
    cuts == AccentCuts(Tones(group), allowed) && GroupState(regrouped, current, group[..i], cuts)
  }

  /** One mora of the inner loop keeps `SplitInv`. */
  lemma SplitInvStep(group: seq<MoraTone>, lens: seq<nat>, c: Counter, i: nat, counter: Counter,
                     allowed: seq<bool>, separate: bool, cuts: seq<bool>,
                     regrouped: seq<seq<MoraTone>>, current: seq<MoraTone>, next: Counter)
    requires i < |group| && SplitInv(group, lens, c, i, counter, allowed, separate, cuts, regrouped, current)
    requires Step(lens, counter) == Some(next)
    ensures var allowedHere := counter.1 == 0;
      var dip := Dip(Tones(group), i);
      var cut := (dip && allowedHere) || separate;
      SplitInv(group, lens, c, i + 1, next, allowed + [allowedHere], !separate && dip && !allowedHere,
               cuts + [cut], if cut then regrouped + [current] else regrouped,
               if cut then [group[i]] else current + [group[i]])
  {
    var tones := Tones(group);
    var allowedHere := counter.1 == 0;
    RunStep(lens, c, i);
    AllowedSnoc(lens, c, i);
    CutStep(tones, allowed, separate, allowedHere);
    var cut := (Dip(tones, i) && allowedHere) || separate;
    GroupAdvance(group, i, regrouped, current, cuts, cut);
    assert (allowed + [allowedHere])[i] == allowedHere;
  }

  /**
   * The inner loop of the second pass over one group, carrying the counters in and
   * out: the group cut by `AccentCuts`, or IndexError.
   */
  method SplitGroup(group: seq<MoraTone>, lens: seq<nat>, c: Counter)
    returns (r: Result<(seq<seq<MoraTone>>, Counter), TtsError>)
    ensures r.Failure? <==> Run(lens, c, |group|).None?
    ensures r.Failure? ==> r.error == IndexError
    ensures r.Success? ==>
      r.value.1 == Run(lens, c, |group|).value &&
      r.value.0 == Chunk(group, AccentCuts(Tones(group), Allowed(lens, c, |group|)))
  {
    var regrouped: seq<seq<MoraTone>> := [];
    var current: seq<MoraTone> := [];
    var separate := false;
    var idx: nat, mi: nat := c.0, c.1;
    ghost var allowed: seq<bool> := [];
    ghost var cuts: seq<bool> := [];
    for i := 0 to |group|
      invariant SplitInv(group, lens, c, i, (idx, mi), allowed, separate, cuts, regrouped, current)
    {
      ghost var counter := (idx, mi);
      var allowedHere := mi == 0;
      mi := mi + 1;
      if idx >= |lens| {
        RunStep(lens, c, i);
        RunNoneLater(lens, c, i + 1, |group|);
        return Failure(IndexError);
      }
      if mi >= lens[idx] {
        idx := idx + 1;
        mi := 0;
      }
      assert Step(lens, counter) == Some((idx, mi));
      SplitInvStep(group, lens, c, i, counter, allowed, separate, cuts, regrouped, current, (idx, mi));
      var dip := DipAt(group, i);
      cuts := cuts + [(dip && allowedHere) || separate];
      allowed := allowed + [allowedHere];
      regrouped, current, separate := PlaceMora(regrouped, current, separate, dip, allowedHere, group[i]);
    }
    assert group[..|group|] == group;
    GroupStateDone(regrouped, current, group, cuts);
    if current != [] {
      regrouped := regrouped + [current];
    }
    r := Success((regrouped, (idx, mi)));
  }

  /** What the second pass makes of the groups, the counters starting at `c`; `None` for IndexError. */
  function Regroup(groups: seq<seq<MoraTone>>, lens: seq<nat>, c: Counter): Option<seq<seq<seq<MoraTone>>>> {
    if groups == [] then Some([])
    else
      match Run(lens, c, |groups[0]|)
      case None => None
      case Some(d) =>
        match Regroup(groups[1..], lens, d)
        case None => None
        case Some(rest) =>
          Some([Chunk(groups[0], AccentCuts(Tones(groups[0]), Allowed(lens, c, |groups[0]|)))] + rest)
  }

  function PrependTo<T>(done: seq<T>, rest: Option<seq<T>>): Option<seq<T>> {
    match rest
    case None => None
    case Some(r) => Some(done + r)
  }

  /** One group of the second pass: the spec of the remaining groups, unfolded once. */
  lemma RegroupStep(groups: seq<seq<MoraTone>>, j: nat, lens: seq<nat>, c: Counter,
                    done: seq<seq<seq<MoraTone>>>)
    requires j < |groups|
    ensures Run(lens, c, |groups[j]|).None? ==> PrependTo(done, Regroup(groups[j..], lens, c)).None?
    ensures Run(lens, c, |groups[j]|).Some? ==>
      var chunk := Chunk(groups[j], AccentCuts(Tones(groups[j]), Allowed(lens, c, |groups[j]|)));
      PrependTo(done + [chunk], Regroup(groups[j + 1..], lens, Run(lens, c, |groups[j]|).value)) ==
      PrependTo(done, Regroup(groups[j..], lens, c))
  {
    var gs := groups[j..];
    assert gs[0] == groups[j] && gs[1..] == groups[j + 1..];
    RegroupCons(gs, lens, c);
    if Run(lens, c, |gs[0]|).Some? {
      var chunk := Chunk(gs[0], AccentCuts(Tones(gs[0]), Allowed(lens, c, |gs[0]|)));
      match Regroup(gs[1..], lens, Run(lens, c, |gs[0]|).value)
      case None =>
      case Some(rest) =>
        assert done + ([chunk] + rest) == (done + [chunk]) + rest;
    }
  }

  lemma RegroupCons(groups: seq<seq<MoraTone>>, lens: seq<nat>, c: Counter)
    requires groups != []
    ensures Run(lens, c, |groups[0]|).None? ==> Regroup(groups, lens, c).None?
    ensures Run(lens, c, |groups[0]|).Some? ==>
      Regroup(groups, lens, c) ==
        PrependTo([Chunk(groups[0], AccentCuts(Tones(groups[0]), Allowed(lens, c, |groups[0]|)))],
                  Regroup(groups[1..], lens, Run(lens, c, |groups[0]|).value))
  {
  }

  lemma PrependNothing<T>(rest: Option<seq<T>>)
    ensures PrependTo([], rest) == rest
  {
    if rest.Some? {
      assert [] + rest.value == rest.value;
    }
  }

  /** The second pass: each group split by `SplitGroup`, the counters running on across groups. */
  method SplitAtAccentChanges(groups: seq<seq<MoraTone>>, lens: seq<nat>)
    returns (r: Result<seq<seq<seq<MoraTone>>>, TtsError>)
    ensures r.Failure? <==> Regroup(groups, lens, (0, 0)).None?
    ensures r.Failure? ==> r.error == IndexError
    ensures r.Success? ==> r.value == Regroup(groups, lens, (0, 0)).value
  {
    var regrouped: seq<seq<seq<MoraTone>>> := [];
    var c: Counter := (0, 0);
    assert groups[0..] == groups;
    PrependNothing(Regroup(groups, lens, (0, 0)));
    for j := 0 to |groups|
      invariant PrependTo(regrouped, Regroup(groups[j..], lens, c)) == Regroup(groups, lens, (0, 0))
    {
      var split := SplitGroup(groups[j], lens, c);
      RegroupStep(groups, j, lens, c, regrouped);
      if split.Failure? {
        return Failure(IndexError);
      }
      ghost var goal := Regroup(groups, lens, (0, 0));
      assert PrependTo(regrouped + [split.value.0], Regroup(groups[j + 1..], lens, split.value.1)) == goal;
      regrouped := regrouped + [split.value.0];
      c := split.value.1;
    }
    assert groups[|groups|..] == [];
    return Success(regrouped);
  }

  /**
   * The second pass keeps every group's contents: its sub-groups are non-empty and
   * concatenate back to the group, and it fails exactly when the counters run past
   * the last element.
   */
  lemma {:induction false} RegroupShape(groups: seq<seq<MoraTone>>, lens: seq<nat>, c: Counter)
    ensures Regroup(groups, lens, c).Some? <==> Run(lens, c, |Flatten(groups)|).Some?
    ensures Regroup(groups, lens, c).Some? ==>
      var r := Regroup(groups, lens, c).value;
      |r| == |groups| &&
      (forall j :: 0 <= j < |r| ==> Flatten(r[j]) == groups[j]) &&
      (forall j, g :: 0 <= j < |r| && g in r[j] ==> |g| > 0)
  {
    RegroupFails(groups, lens, c);
    if Regroup(groups, lens, c).Some? {
      RegroupPieces(groups, lens, c);
    }
  }

  lemma {:induction false} RegroupFails(groups: seq<seq<MoraTone>>, lens: seq<nat>, c: Counter)
    ensures Regroup(groups, lens, c).Some? <==> Run(lens, c, |Flatten(groups)|).Some?
  {
    if groups != [] {
      var g := groups[0];
      assert groups == [g] + groups[1..];
      FlattenAppend([g], groups[1..]);
      FlattenSnoc([], g);
      assert [] + [g] == [g];
      RunAdd(lens, c, |g|, |Flatten(groups[1..])|);
      match Run(lens, c, |g|)
      case None =>
      case Some(d) =>
        RegroupFails(groups[1..], lens, d);
    }
  }

  lemma {:induction false} RegroupPieces(groups: seq<seq<MoraTone>>, lens: seq<nat>, c: Counter)
    requires Regroup(groups, lens, c).Some?
    ensures var r := Regroup(groups, lens, c).value;
      |r| == |groups| &&
      (forall j :: 0 <= j < |r| ==> Flatten(r[j]) == groups[j]) &&
      (forall j, g :: 0 <= j < |r| && g in r[j] ==> |g| > 0)
  {
    if groups != [] {
      var g := groups[0];
      var d := Run(lens, c, |g|).value;
      RegroupPieces(groups[1..], lens, d);
      var cuts := AccentCuts(Tones(g), Allowed(lens, c, |g|));
      ChunkFlatten(g, cuts);
      ChunkNonEmpty(g, cuts);
      var rest := Regroup(groups[1..], lens, d).value;
      var r := Regroup(groups, lens, c).value;
      assert r == [Chunk(g, cuts)] + rest;
      forall j | 1 <= j < |r| ensures Flatten(r[j]) == groups[j] {
        assert r[j] == rest[j - 1];
      }
    }
  }

  /** The regrouped groups, flattened one level (the comprehension after the second pass), give back the moras. */
  lemma RegroupFlatten(groups: seq<seq<MoraTone>>, lens: seq<nat>, c: Counter)
    requires Regroup(groups, lens, c).Some?
    ensures Flatten(Flatten(Regroup(groups, lens, c).value)) == Flatten(groups)
    ensures forall g :: g in Flatten(Regroup(groups, lens, c).value) ==> |g| > 0
  {
    RegroupShape(groups, lens, c);
    var r := Regroup(groups, lens, c).value;
    FlattenNested(r, groups);
    FlattenMembers(r);
  }

  lemma {:induction false} FlattenNested<T>(r: seq<seq<seq<T>>>, groups: seq<seq<T>>)
    requires |r| == |groups| && forall j :: 0 <= j < |r| ==> Flatten(r[j]) == groups[j]
    ensures Flatten(Flatten(r)) == Flatten(groups)
  {
    if r != [] {
      var n := |r| - 1;
      FlattenNested(r[..n], groups[..n]);
      FlattenAppend(Flatten(r[..n]), r[n]);
    }
  }

  lemma {:induction false} FlattenMembers<T>(r: seq<seq<seq<T>>>)
    ensures forall g :: g in Flatten(r) ==> exists j :: 0 <= j < |r| && g in r[j]
  {
    if r != [] {
      var n := |r| - 1;
      FlattenMembers(r[..n]);
      forall g | g in Flatten(r) ensures exists j :: 0 <= j < |r| && g in r[j] {
        if g in Flatten(r[..n]) {
          var j :| 0 <= j < n && g in r[..n][j];
          assert g in r[j];
        } else {
          assert g in r[n];
        }
      }
    }
  }
}
