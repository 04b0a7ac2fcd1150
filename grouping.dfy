/**
 * Cutting a list into consecutive groups: the shape both grouping passes of
 * `create_accent_phrases` share. A pass decides, for each position, whether a new
 * group starts there; position 0 always starts one.
 */
module Grouping {

  /** The concatenation of the groups, in order. */
  function Flatten<T>(groups: seq<seq<T>>): (r: seq<T>) {
    if groups == [] then [] else Flatten(groups[..|groups| - 1]) + groups[|groups| - 1]
  }

  /** The position in `Flatten(groups)` at which each group starts. */
  function Starts<T>(groups: seq<seq<T>>): set<int> {
    if groups == [] then {} else Starts(groups[..|groups| - 1]) + {|Flatten(groups[..|groups| - 1])|}
  }

  /** `xs` cut before every position `i > 0` with `cut[i]`. */
  function Chunk<T>(xs: seq<T>, cut: seq<bool>): (r: seq<seq<T>>)
    requires |cut| == |xs|
    ensures |xs| > 0 <==> |r| > 0
  {
    if xs == [] then []
    else
      var n := |xs| - 1;
      var prev := Chunk(xs[..n], cut[..n]);
      if n == 0 || cut[n] then prev + [[xs[n]]]
      else prev[..|prev| - 1] + [prev[|prev| - 1] + [xs[n]]]
  }

  lemma FlattenSnoc<T>(groups: seq<seq<T>>, g: seq<T>)
    ensures Flatten(groups + [g]) == Flatten(groups) + g
    ensures Starts(groups + [g]) == Starts(groups) + {|Flatten(groups)|}
  {
    assert (groups + [g])[..|groups|] == groups;
  }

  lemma FlattenAppend<T>(a: seq<seq<T>>, b: seq<seq<T>>)
    ensures Flatten(a + b) == Flatten(a) + Flatten(b)
  {
    if b == [] {
      assert a + b == a;
    } else {
      var init := b[..|b| - 1];
      assert a + b == (a + init) + [b[|b| - 1]];
      assert b == init + [b[|b| - 1]];
      FlattenAppend(a, init);
      FlattenSnoc(a + init, b[|b| - 1]);
      FlattenSnoc(init, b[|b| - 1]);
    }
  }

  /** Appending to the last group keeps every group's start. */
  lemma ExtendLast<T>(groups: seq<seq<T>>, x: T)
    requires |groups| > 0
    ensures var m := |groups| - 1;
      Flatten(groups[..m] + [groups[m] + [x]]) == Flatten(groups) + [x] &&
      Starts(groups[..m] + [groups[m] + [x]]) == Starts(groups)
  {
    var m := |groups| - 1;
    var init, last := groups[..m], groups[m];
    assert groups == init + [last];
    FlattenSnoc(init, last);
    FlattenSnoc(init, last + [x]);
    AppendAssoc(Flatten(init), last, [x]);
  }

  lemma AppendAssoc<T>(a: seq<T>, b: seq<T>, c: seq<T>)
    ensures a + (b + c) == (a + b) + c
  {
  }

  /** Concatenating the groups gives back the list. */
  lemma {:induction false} ChunkFlatten<T>(xs: seq<T>, cut: seq<bool>)
    requires |cut| == |xs|
    ensures Flatten(Chunk(xs, cut)) == xs
  {
    if xs != [] {
      var n := |xs| - 1;
      var prev := Chunk(xs[..n], cut[..n]);
      ChunkFlatten(xs[..n], cut[..n]);
      assert xs == xs[..n] + [xs[n]];
      if n == 0 || cut[n] {
        FlattenSnoc(prev, [xs[n]]);
      } else {
        ExtendLast(prev, xs[n]);
      }
    }
  }

  /** No group is empty. */
  lemma {:induction false} ChunkNonEmpty<T>(xs: seq<T>, cut: seq<bool>)
    requires |cut| == |xs|
    ensures forall g :: g in Chunk(xs, cut) ==> |g| > 0
  {
    if xs != [] {
      var n := |xs| - 1;
      ChunkNonEmpty(xs[..n], cut[..n]);
    }
  }

  function CutPositions(cut: seq<bool>): set<int> {
    set i | 0 <= i < |cut| && (i == 0 || cut[i])
  }

  lemma CutPositionsSnoc(cut: seq<bool>, n: nat)
    requires n < |cut|
    ensures CutPositions(cut[..n + 1]) == CutPositions(cut[..n]) + (if n == 0 || cut[n] then {n} else {})
  {
  }

  /** A group starts exactly at position 0 and at every position with a cut. */
  lemma {:induction false} ChunkStarts<T>(xs: seq<T>, cut: seq<bool>)
    requires |cut| == |xs|
    ensures Starts(Chunk(xs, cut)) == CutPositions(cut)
  {
    if xs != [] {
      var n := |xs| - 1;
      var prev := Chunk(xs[..n], cut[..n]);
      ChunkStarts(xs[..n], cut[..n]);
      ChunkFlatten(xs[..n], cut[..n]);
      CutPositionsSnoc(cut, n);
      assert cut[..n + 1] == cut;
      var whole := Chunk(xs, cut);
      if n == 0 || cut[n] {
        assert whole == prev + [[xs[n]]];
        FlattenSnoc(prev, [xs[n]]);
      } else {
        var m := |prev| - 1;
        assert whole == prev[..m] + [prev[m] + [xs[n]]];
        ExtendLast(prev, xs[n]);
      }
    }
  }

  /** One more element extends the last group, or opens a new one when it is cut. */
  lemma ChunkSnoc<T>(xs: seq<T>, cut: seq<bool>, i: nat)
    requires |cut| == |xs| && i < |xs|
    ensures var prev := Chunk(xs[..i], cut[..i]);
      Chunk(xs[..i + 1], cut[..i + 1]) ==
        if i == 0 || cut[i] then prev + [[xs[i]]]
        else prev[..|prev| - 1] + [prev[|prev| - 1] + [xs[i]]]
  {
    assert xs[..i + 1][..i] == xs[..i];
    assert cut[..i + 1][..i] == cut[..i];
  }

  /** An element is in the concatenation exactly when it is in one of the groups. */
  lemma {:induction false} FlattenElements<T>(groups: seq<seq<T>>)
    ensures forall x :: x in Flatten(groups) ==>
      exists g, i :: 0 <= g < |groups| && 0 <= i < |groups[g]| && groups[g][i] == x
    ensures forall g, i :: 0 <= g < |groups| && 0 <= i < |groups[g]| ==> groups[g][i] in Flatten(groups)
  {
    if groups != [] {
      var m := |groups| - 1;
      FlattenElements(groups[..m]);
      FlattenSnoc(groups[..m], groups[m]);
      assert groups[..m] + [groups[m]] == groups;
      forall x | x in Flatten(groups)
        ensures exists g, i :: 0 <= g < |groups| && 0 <= i < |groups[g]| && groups[g][i] == x
      {
        if x in Flatten(groups[..m]) {
          var g, i :| 0 <= g < |groups[..m]| && 0 <= i < |groups[..m][g]| && groups[..m][g][i] == x;
          assert groups[g][i] == x;
        } else {
          var i :| 0 <= i < |groups[m]| && groups[m][i] == x;
          assert groups[m][i] == x;
        }
      }
      forall g, i | 0 <= g < |groups| && 0 <= i < |groups[g]|
        ensures groups[g][i] in Flatten(groups)
      {
        if g < m {
          assert groups[..m][g][i] == groups[g][i];
        } else {
          assert groups[g][i] in groups[m];
        }
      }
    }
  }
}
