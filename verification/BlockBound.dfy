/**
 Why the hashed search needs its counts to fit 32 bits: from 2^33 lines on there
 are texts, of every number of lines, and hashes that never separate equal
 ranges, for which it overlooks a block that the exact search finds.
 */
module BlockBound {
  import opened Bytes
  import opened Lines
  import opened BlockHash
  import opened BlockSearch
  import opened Wrappers

  const LONG: Text := [97, 97, 97, 97, 97, 97, LF]
  const SHORT: Text := [LF]

  /** A block of two lines, twice, and then nothing but empty lines. */
  function Witness(n: nat): (lines: seq<Text>)
    requires n >= 4
    ensures |lines| == n && lines[0] == lines[2] == LONG && lines[1] == SHORT
    ensures forall i :: 3 <= i < n ==> lines[i] == SHORT
  {
    [LONG, SHORT, LONG] + seq(n - 3, _ => SHORT)
  }

  lemma WitnessSplits(n: nat)
    requires n >= 4
    ensures LineList(Witness(n)) && Split(Concat(Witness(n))) == Witness(n)
    ensures forall i :: 0 <= i < n ==> Complete(Witness(n)[i])
  {
    var lines := Witness(n);
    assert Complete(LONG) && Complete(SHORT);
    forall i | 0 <= i < n ensures Complete(lines[i]) {
    }
    SplitConcat(lines);
  }

  lemma WitnessComplete(layout: LineLayout, n: nat)
    requires n >= 4 && layout.Valid() && Split(layout.text) == Witness(n)
    requires forall i :: 0 <= i < n ==> Complete(Witness(n)[i])
    ensures layout.completeLines == n
  {
  }

  /** A comparison that confuses the two-line block at the start with whatever follows it, and nothing else. */
  predicate Confuses(lines: seq<Text>, left: nat, right: nat, m: nat) {
    || (left == 0 && right == 2)
    || (left + m <= |lines| && right + m <= |lines| && lines[left..left + m] == lines[right..right + m])
  }

  lemma AllOverlooked(layout: LineLayout, oracle: HashOracle, n: nat, k: nat)
    requires n >= 2 * U32_LIMIT && layout.completeLines == n && 2 <= k <= MaxBlock(layout, 0)
    requires forall left: nat, right: nat, m: nat :: oracle(left, right, m) <==> Confuses(Witness(n), left, right, m)
    ensures Overlooked(layout, oracle, 0, k)
  {
    if k > 2 {
      var lines := Witness(n);
      assert lines[0..k][0] == LONG && lines[k..k + k][0] == SHORT;
    }
  }

  /** The exact search counts the block twice and collapses it. */
  lemma ExactFinds(layout: LineLayout, n: nat)
    requires n >= 8 && layout.Valid() && Split(layout.text) == Witness(n) && layout.completeLines == n
    ensures ExactBest(layout, 0).Present()
  {
    CountedTwice(layout, n);
    MarkerShorter(layout, n);
    CandidateSaves(layout, 0, 2, 2, 4);
    BestIsBest(layout, 0, MaxBlock(layout, 0));
    assert ExactFor(layout, 0, 2).Some?;
  }

  lemma CountedTwice(layout: LineLayout, n: nat)
    requires n >= 8 && layout.Valid() && Split(layout.text) == Witness(n) && layout.completeLines == n
    ensures ExactCount(layout, 0, 2) == 2
  {
    var lines, r := Witness(n), ExactCount(layout, 0, 2);
    assert lines[0..2] == lines[2..4] by {
      assert lines[0] == lines[2] && lines[1] == lines[3];
    }
    SpansAreLines(layout, 0, 2, 2);
    assert BlockMatches(layout, 0, 2, 1);
    assert lines[0..2][0] != lines[4..6][0];
    SpansAreLines(layout, 0, 4, 2);
    assert !BlockMatches(layout, 0, 2, 2);
  }

  lemma MarkerShorter(layout: LineLayout, n: nat)
    requires n >= 8 && layout.Valid() && Split(layout.text) == Witness(n) && layout.completeLines == n
    ensures |layout.Span(0, 2) + BlockMarker(2, 2)| < |Concat(Split(layout.text)[0..4])|
  {
    var lines := Witness(n);
    TwoParts(lines, 0, 2, 4);
    assert lines[2..4] == [LONG, SHORT];
    assert [LONG, SHORT] == [LONG] + [SHORT];
    ConcatAppend([LONG], [SHORT]);
    ConcatOne(LONG);
    ConcatOne(SHORT);
    assert |Decimal(2)| == 1;
  }

  /** For every number of lines from 2^33 on: the verified proposal is nothing, although the exact search finds a block. */
  method CountsMustFit(n: nat) returns (layout: LineLayout, oracle: HashOracle, verified: BlockCandidate)
    requires n >= 2 * U32_LIMIT
    ensures layout.Valid() && layout.completeLines == n && Sound(oracle, layout)
    ensures verified == NONE && ExactBest(layout, 0).Present()
  {
    var lines := Witness(n);
    WitnessSplits(n);
    layout := NewLayout(Concat(lines));
    WitnessComplete(layout, n);
    oracle := (left: nat, right: nat, m: nat) => Confuses(lines, left, right, m);
    forall k | 2 <= k <= MaxBlock(layout, 0) ensures Overlooked(layout, oracle, 0, k) {
      AllOverlooked(layout, oracle, n, k);
    }
    var proposed := BestHashedCandidate(layout, oracle, 0);
    verified := VerifiedCandidate(layout, 0, proposed);
    ExactFinds(layout, n);
  }
}
