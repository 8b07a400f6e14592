/**
 The rotate-and-xor prefix hashes that propose repeated blocks, and the one
 fact the search relies on: equal line ranges always hash equally.
 */
module BlockHash {
  import opened Bytes
  import opened Lines
  import Fingerprint

  const FIRST_ROTATION: nat := 1
  const SECOND_ROTATION: nat := 23

  /** A 64-bit word, least significant bit first. */
  type Word = w: seq<bool> | |w| == 64 witness Zeros(64)

  /** `n` zero bits. */
  function Zeros(n: nat): (r: seq<bool>)
    ensures |r| == n && forall i :: 0 <= i < n ==> !r[i]
  {
    if n == 0 then [] else [false] + Zeros(n - 1)
  }

  const ZERO: Word := Zeros(64)

  function Xor(x: Word, y: Word): (r: Word) {
    seq(64, i requires 0 <= i < 64 => x[i] != y[i])
  }

  /** `rotate_left`: bit `i` of the result is bit `i - k` of `x`, modulo 64. */
  function Rotate(x: Word, k: nat): (r: Word) {
    seq(64, i requires 0 <= i < 64 => x[(i - k) % 64])
  }

  lemma RotateXor(x: Word, y: Word, k: nat)
    ensures Rotate(Xor(x, y), k) == Xor(Rotate(x, k), Rotate(y, k))
  {
  }

  lemma RotateAdd(x: Word, a: nat, b: nat)
    ensures Rotate(Rotate(x, a), b) == Rotate(x, a + b)
  {
    forall i | 0 <= i < 64 ensures Rotate(Rotate(x, a), b)[i] == Rotate(x, a + b)[i] {
      TwiceModulo(i - b, a);
      assert (i - b) - a == i - (a + b);
      assert Rotate(Rotate(x, a), b)[i] == Rotate(x, a)[(i - b) % 64];
    }
  }

  lemma ModuloShift(y: int, q: int)
    ensures (y + 64 * q) % 64 == y % 64
  {
    assert y + 64 * q == 64 * (y / 64 + q) + y % 64;
  }

  lemma TwiceModulo(y: int, a: int)
    ensures (y % 64 - a) % 64 == (y - a) % 64
  {
    ModuloShift(y - a, -(y / 64));
  }

  /** The masked shift of `range_hash` rotates by `n * rotation`. */
  lemma ShiftModulo(x: Word, n: nat, rotation: nat)
    ensures Rotate(x, ((n % 64) * rotation) % 64) == Rotate(x, n * rotation)
  {
    var q, m := n / 64, n % 64;
    assert n * rotation == m * rotation + 64 * (q * rotation) by {
      assert n == 64 * q + m;
      assert (64 * q + m) * rotation == (64 * q) * rotation + m * rotation;
      assert (64 * q) * rotation == 64 * (q * rotation);
    }
    RotateMultiple(x, m * rotation, q * rotation);
    RotateMultiple(x, (m * rotation) % 64, (m * rotation) / 64);
  }

  lemma RotateMultiple(x: Word, k: nat, q: nat)
    ensures Rotate(x, k + 64 * q) == Rotate(x, k)
  {
    forall i | 0 <= i < 64 ensures Rotate(x, k + 64 * q)[i] == Rotate(x, k)[i] {
      ModuloShift(i - (k + 64 * q), q);
    }
  }

  /** `prefix` is the running hash of the fingerprints: rotate, then xor the next. */
  ghost predicate Prefixes(prefix: seq<Word>, prints: seq<Word>, rotation: nat) {
    && |prefix| == |prints| + 1
    && prefix[0] == ZERO
    && forall i :: 0 <= i < |prints| ==> prefix[i + 1] == Xor(Rotate(prefix[i], rotation), prints[i])
  }

  /** `range_hash`: the hash of `lines` lines from `start`, from two prefix entries. */
  function RangeHash(prefix: seq<Word>, start: nat, lines: nat, rotation: nat): (r: Word)
    requires start + lines < |prefix|
  {
    Xor(prefix[start + lines], Rotate(prefix[start], ((lines % 64) * rotation) % 64))
  }

  /** One more line: rotate the range hash and xor the fingerprint in. */
  lemma RangeStep(prefix: seq<Word>, prints: seq<Word>, rotation: nat, start: nat, n: nat)
    requires Prefixes(prefix, prints, rotation) && start + n < |prints|
    ensures RangeHash(prefix, start, n + 1, rotation)
         == Xor(Rotate(RangeHash(prefix, start, n, rotation), rotation), prints[start + n])
  {
    var x, y := prefix[start], prefix[start + n];
    ShiftModulo(x, n, rotation);
    ShiftModulo(x, n + 1, rotation);
    assert (n + 1) * rotation == n * rotation + rotation;
    RangeAlgebra(x, y, prints[start + n], n * rotation, rotation);
  }

  lemma RangeAlgebra(x: Word, y: Word, p: Word, a: nat, rotation: nat)
    ensures Xor(Xor(Rotate(y, rotation), p), Rotate(x, a + rotation)) == Xor(Rotate(Xor(y, Rotate(x, a)), rotation), p)
  {
    RotateAdd(x, a, rotation);
    RotateXor(y, Rotate(x, a), rotation);
    XorShuffle(Rotate(y, rotation), p, Rotate(x, a + rotation));
  }

  lemma XorShuffle(a: Word, b: Word, c: Word)
    ensures Xor(Xor(a, b), c) == Xor(Xor(a, c), b)
  {
  }

  lemma XorRotateZero(x: Word)
    ensures Xor(x, Rotate(x, 0)) == ZERO
  {
    assert Rotate(x, 0) == x;
  }

  /** A range hash depends only on the fingerprints inside the range. */
  lemma {:induction false} EqualPrintsHashEqually(
      prefix: seq<Word>, prints: seq<Word>, rotation: nat, left: nat, right: nat, n: nat)
    requires Prefixes(prefix, prints, rotation)
    requires left + n <= |prints| && right + n <= |prints|
    requires prints[left..left + n] == prints[right..right + n]
    ensures RangeHash(prefix, left, n, rotation) == RangeHash(prefix, right, n, rotation)
  {
    if n == 0 {
      XorRotateZero(prefix[left]);
      XorRotateZero(prefix[right]);
    } else {
      var l, r := prints[left..left + n], prints[right..right + n];
      assert l[..n - 1] == prints[left..left + (n - 1)] && r[..n - 1] == prints[right..right + (n - 1)];
      assert l[n - 1] == prints[left + (n - 1)] && r[n - 1] == prints[right + (n - 1)];
      EqualPrintsHashEqually(prefix, prints, rotation, left, right, n - 1);
      RangeStep(prefix, prints, rotation, left, n - 1);
      RangeStep(prefix, prints, rotation, right, n - 1);
    }
  }

  /** The `lines` complete lines from `left` equal those from `right`. */
  ghost predicate SameLines(layout: LineLayout, left: nat, right: nat, lines: nat) {
    && left + lines <= layout.completeLines <= |Split(layout.text)|
    && right + lines <= layout.completeLines
    && Split(layout.text)[left..left + lines] == Split(layout.text)[right..right + lines]
  }

  datatype BlockHashes = BlockHashes(first: seq<Word>, second: seq<Word>) {
    /** `ranges_equal`: both range hashes agree. */
    predicate RangesEqual(left: nat, right: nat, lines: nat)
      requires left + lines < |first| == |second| && right + lines < |first|
    {
      && RangeHash(first, left, lines, FIRST_ROTATION) == RangeHash(first, right, lines, FIRST_ROTATION)
      && RangeHash(second, left, lines, SECOND_ROTATION) == RangeHash(second, right, lines, SECOND_ROTATION)
    }

    /** The comparison the search asks for. */
    function Oracle(): (r: HashOracle) {
      (left: nat, right: nat, lines: nat) =>
        left + lines < |first| == |second| && right + lines < |first| && RangesEqual(left, right, lines)
    }
  }

  /** Decides, from hashes, whether two ranges of lines look equal. */
  type HashOracle = (nat, nat, nat) -> bool

  /** Equal line ranges compare equal; unequal ones may collide freely. */
  ghost predicate Sound(oracle: HashOracle, layout: LineLayout) {
    forall left: nat, right: nat, lines: nat ::
      SameLines(layout, left, right, lines) ==> oracle(left, right, lines)
  }

  /** Fingerprints of the first `n` lines. */
  ghost function Prints(lines: seq<Text>, n: nat, mark: Text -> Word): (r: seq<Word>)
    requires n <= |lines|
    ensures |r| == n && forall i :: 0 <= i < n ==> r[i] == mark(lines[i])
  {
    seq(n, i requires 0 <= i < n => mark(lines[i]))
  }

  lemma PrefixSound(lines: seq<Text>, n: nat, mark: Text -> Word, prefix: seq<Word>, rotation: nat,
      left: nat, right: nat, count: nat)
    requires n <= |lines| && left + count <= n && right + count <= n
    requires Prefixes(prefix, Prints(lines, n, mark), rotation)
    requires lines[left..left + count] == lines[right..right + count]
    ensures RangeHash(prefix, left, count, rotation) == RangeHash(prefix, right, count, rotation)
  {
    var prints := Prints(lines, n, mark);
    var l, r := prints[left..left + count], prints[right..right + count];
    forall i | 0 <= i < count ensures l[i] == r[i] {
      assert lines[left..left + count][i] == lines[right..right + count][i];
    }
    EqualPrintsHashEqually(prefix, prints, rotation, left, right, count);
  }

  lemma PrefixSnoc(lines: seq<Text>, n: nat, mark: Text -> Word, prefix: seq<Word>, rotation: nat)
    requires n < |lines| && Prefixes(prefix, Prints(lines, n, mark), rotation)
    ensures Prefixes(
      prefix + [Xor(Rotate(prefix[n], rotation), mark(lines[n]))], Prints(lines, n + 1, mark), rotation)
  {
    assert Prints(lines, n + 1, mark)[..n] == Prints(lines, n, mark);
  }

  const FIRST_SEED: bv64 := 0x9e37_79b1_85eb_ca87
  const SECOND_SEED: bv64 := 0xc2b2_ae3d_27d4_eb4f

  function FirstPrint(line: Text): (r: Word) {
    Fingerprint.Bits(Fingerprint.Of(line, FIRST_SEED), 64)
  }

  function SecondPrint(line: Text): (r: Word) {
    Fingerprint.Bits(Fingerprint.Of(line, SECOND_SEED), 64)
  }

  /** The two fingerprints of one line. */
  method LinePrints(line: Text) returns (first: Word, second: Word)
    ensures first == FirstPrint(line) && second == SecondPrint(line)
  {
    var x := Fingerprint.Compute(line, FIRST_SEED);
    var y := Fingerprint.Compute(line, SECOND_SEED);
    first, second := Fingerprint.Bits(x, 64), Fingerprint.Bits(y, 64);
  }

  /** `BlockHashes::new`: the tables of both fingerprints are sound for the text. */
  method NewHashes(layout: LineLayout) returns (hashes: BlockHashes)
    requires layout.Valid()
    ensures Sound(hashes.Oracle(), layout)
  {
    var first, second := PrefixTables(layout, FirstPrint, SecondPrint);
    hashes := BlockHashes(first, second);
    TablesSound(layout, hashes, FirstPrint, SecondPrint);
  }

  /** Both prefix tables in one pass; `a` and `b` stand for the fingerprints of a line. */
  method PrefixTables(layout: LineLayout, ghost a: Text -> Word, ghost b: Text -> Word)
    returns (first: seq<Word>, second: seq<Word>)
    requires layout.Valid() && a == FirstPrint && b == SecondPrint
    ensures Prefixes(first, Prints(Split(layout.text), layout.completeLines, a), FIRST_ROTATION)
    ensures Prefixes(second, Prints(Split(layout.text), layout.completeLines, b), SECOND_ROTATION)
  {
    first, second := [ZERO], [ZERO];
    ghost var lines := Split(layout.text);
    for line := 0 to layout.completeLines
      invariant Prefixes(first, Prints(lines, line, a), FIRST_ROTATION)
      invariant Prefixes(second, Prints(lines, line, b), SECOND_ROTATION)
    {
      PrefixSnoc(lines, line, a, first, FIRST_ROTATION);
      PrefixSnoc(lines, line, b, second, SECOND_ROTATION);
      var x, y := LinePrints(layout.Line(line));
      first := first + [Xor(Rotate(first[line], FIRST_ROTATION), x)];
      second := second + [Xor(Rotate(second[line], SECOND_ROTATION), y)];
    }
  }

  /** Whatever the fingerprints, tables built from them never separate equal ranges. */
  lemma TablesSound(layout: LineLayout, hashes: BlockHashes, a: Text -> Word, b: Text -> Word)
    requires layout.Valid()
    requires Prefixes(hashes.first, Prints(Split(layout.text), layout.completeLines, a), FIRST_ROTATION)
    requires Prefixes(hashes.second, Prints(Split(layout.text), layout.completeLines, b), SECOND_ROTATION)
    ensures Sound(hashes.Oracle(), layout)
  {
    var lines := Split(layout.text);
    forall left: nat, right: nat, count: nat | SameLines(layout, left, right, count)
      ensures hashes.Oracle()(left, right, count)
    {
      PrefixSound(lines, layout.completeLines, a, hashes.first, FIRST_ROTATION, left, right, count);
      PrefixSound(lines, layout.completeLines, b, hashes.second, SECOND_ROTATION, left, right, count);
    }
  }
}
