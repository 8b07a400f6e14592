/**
 UTF-8 as section 4 of RFC 3629 defines it, the decoder that reports how far
 a byte string is valid, and cutting text at character boundaries.
 */
module Utf8 {
  import opened Bytes

  predicate Tail(b: byte) {
    0x80 <= b <= 0xBF
  }

  /** The grammar's UTF8-char. */
  predicate ValidChar(c: Text) {
    || (|c| == 1 && c[0] <= 0x7F)
    || (|c| == 2 && 0xC2 <= c[0] <= 0xDF && Tail(c[1]))
    || (|c| == 3 && c[0] == 0xE0 && 0xA0 <= c[1] <= 0xBF && Tail(c[2]))
    || (|c| == 3 && 0xE1 <= c[0] <= 0xEC && Tail(c[1]) && Tail(c[2]))
    || (|c| == 3 && c[0] == 0xED && 0x80 <= c[1] <= 0x9F && Tail(c[2]))
    || (|c| == 3 && 0xEE <= c[0] <= 0xEF && Tail(c[1]) && Tail(c[2]))
    || (|c| == 4 && c[0] == 0xF0 && 0x90 <= c[1] <= 0xBF && Tail(c[2]) && Tail(c[3]))
    || (|c| == 4 && 0xF1 <= c[0] <= 0xF3 && Tail(c[1]) && Tail(c[2]) && Tail(c[3]))
    || (|c| == 4 && c[0] == 0xF4 && 0x80 <= c[1] <= 0x8F && Tail(c[2]) && Tail(c[3]))
  }

  /** The grammar's UTF8-octets: a sequence of characters. */
  ghost predicate ValidUtf8(s: Text) {
    exists chars: seq<Text> :: AllValid(chars) && Concat(chars) == s
  }

  predicate AllValid(chars: seq<Text>) {
    forall i :: 0 <= i < |chars| ==> ValidChar(chars[i])
  }

  /** Length of the character at the start of `s`, or 0 if there is none. */
  function CharLen(s: Text): (k: nat)
    ensures k <= |s| && k <= 4
    ensures k > 0 <==> exists n :: 1 <= n <= |s| && ValidChar(s[..n])
    ensures k > 0 ==> ValidChar(s[..k])
    ensures forall n :: 1 <= n <= |s| && ValidChar(s[..n]) ==> n == k
  {
    if |s| >= 1 && ValidChar(s[..1]) then 1
    else if |s| >= 2 && ValidChar(s[..2]) then 2
    else if |s| >= 3 && ValidChar(s[..3]) then 3
    else if |s| >= 4 && ValidChar(s[..4]) then 4
    else 0
  }

  /** `s` is the beginning of a character and not all of it. */
  predicate Incomplete(s: Text) {
    || (|s| == 1 && 0xC2 <= s[0] <= 0xF4)
    || (|s| == 2 && 0xE0 <= s[0] <= 0xF4 && SecondByte(s[0], s[1]))
    || (|s| == 3 && 0xF0 <= s[0] <= 0xF4 && SecondByte(s[0], s[1]) && Tail(s[2]))
  }

  predicate SecondByte(first: byte, second: byte) {
    if first == 0xE0 then 0xA0 <= second <= 0xBF
    else if first == 0xED then 0x80 <= second <= 0x9F
    else if first == 0xF0 then 0x90 <= second <= 0xBF
    else if first == 0xF4 then 0x80 <= second <= 0x8F
    else Tail(second)
  }

  /** A valid character extending `s`, when there is one. */
  lemma IncompleteExtends(s: Text) returns (c: Text)
    requires Incomplete(s)
    ensures ValidChar(c) && |s| < |c| && c[..|s|] == s
  {
    var first := s[0];
    var second: byte := if |s| >= 2 then s[1]
      else if first == 0xE0 || first == 0xF0 then 0xA0 else 0x80;
    var third: byte := if |s| >= 3 then s[2] else 0x80;
    c := if first <= 0xDF then [first, second]
      else if first <= 0xEF then [first, second, third]
      else [first, second, third, 0x80];
  }

  /** Proper beginnings of characters are exactly the incomplete strings. */
  lemma PrefixIsIncomplete(c: Text, n: nat)
    requires ValidChar(c) && 1 <= n < |c|
    ensures Incomplete(c[..n])
  {
  }

  /** No character is the beginning of another. */
  lemma IncompleteIsNoChar(s: Text)
    requires Incomplete(s)
    ensures CharLen(s) == 0 && |s| <= 3
  {
    forall n | 1 <= n <= |s| ensures !ValidChar(s[..n]) {
    }
  }

  lemma FirstChar(chars: seq<Text>)
    requires AllValid(chars) && chars != []
    ensures CharLen(Concat(chars)) == |chars[0]| && Concat(chars)[..|chars[0]|] == chars[0]
    ensures Concat(chars)[|chars[0]|..] == Concat(chars[1..])
  {
    var s := Concat(chars);
    assert s == chars[0] + Concat(chars[1..]);
    assert s[..|chars[0]|] == chars[0];
    assert ValidChar(s[..|chars[0]|]);
  }

  /** Validity is read off from the front, one character at a time. */
  lemma ValidUnfold(s: Text)
    ensures ValidUtf8([])
    ensures s != [] ==> (ValidUtf8(s) <==> CharLen(s) > 0 && ValidUtf8(s[CharLen(s)..]))
  {
    assert Concat([]) == [] && AllValid([]);
    if s != [] && ValidUtf8(s) {
      var chars :| AllValid(chars) && Concat(chars) == s;
      FirstChar(chars);
      assert AllValid(chars[1..]);
    }
    if s != [] && CharLen(s) > 0 && ValidUtf8(s[CharLen(s)..]) {
      var k := CharLen(s);
      var rest :| AllValid(rest) && Concat(rest) == s[k..];
      var chars := [s[..k]] + rest;
      assert chars[1..] == rest;
      assert Concat(chars) == s[..k] + s[k..] == s;
      assert AllValid(chars);
    }
  }

  /** A valid prefix neither helps nor hurts what follows. */
  lemma {:induction false} ValidCancel(a: Text, b: Text)
    requires ValidUtf8(a)
    ensures ValidUtf8(a + b) <==> ValidUtf8(b)
    decreases |a|
  {
    if a == [] {
      assert a + b == b;
    } else {
      var k := CharLen(a);
      ValidUnfold(a);
      ValidUnfold(a + b);
      assert (a + b)[..k] == a[..k];
      assert CharLen(a + b) == k;
      assert (a + b)[k..] == a[k..] + b;
      ValidCancel(a[k..], b);
    }
  }

  lemma ValidAppend(a: Text, b: Text)
    requires ValidUtf8(a) && ValidUtf8(b)
    ensures ValidUtf8(a + b)
  {
    ValidCancel(a, b);
  }

  /** Nothing appended to `s` can make it valid. */
  ghost predicate Hopeless(s: Text) {
    forall t: Text :: !ValidUtf8(s + t)
  }

  lemma BadStart(s: Text)
    requires s != [] && CharLen(s) == 0 && !Incomplete(s)
    ensures Hopeless(s)
  {
    forall t: Text ensures !ValidUtf8(s + t) {
      ValidUnfold(s + t);
      CharOfExtension(s, t);
    }
  }

  /** A character at the start of an extension lies in `s` or is begun by `s`. */
  lemma CharOfExtension(s: Text, t: Text)
    requires s != []
    ensures CharLen(s + t) == 0 || CharLen(s + t) == CharLen(s) || Incomplete(s)
  {
    var k := CharLen(s + t);
    if 0 < k <= |s| {
      assert (s + t)[..k] == s[..k];
    } else if k > |s| {
      PrefixIsIncomplete((s + t)[..k], |s|);
      assert (s + t)[..k][..|s|] == s;
    }
  }

  lemma HopelessShift(a: Text, b: Text)
    requires ValidUtf8(a) && Hopeless(b)
    ensures Hopeless(a + b)
  {
    forall t: Text ensures !ValidUtf8(a + b + t) {
      assert a + b + t == a + (b + t);
      ValidCancel(a, b + t);
    }
  }

  /** `std::str::from_utf8`: valid, or the length of the longest decodable prefix and whether input merely ended. */
  datatype Decoded = Valid | Error(validUpTo: nat, unfinished: bool)

  function FromUtf8(s: Text): (r: Decoded)
    decreases |s|
  {
    if s == [] then Valid
    else
      var k := CharLen(s);
      if k == 0 then Error(0, Incomplete(s))
      else
        match FromUtf8(s[k..])
        case Valid => Valid
        case Error(n, unfinished) => Error(k + n, unfinished)
  }

  /** What the decoder's answer means. */
  lemma {:induction false} FromUtf8Meaning(s: Text)
    ensures match FromUtf8(s)
      case Valid => ValidUtf8(s)
      case Error(n, unfinished) =>
        && n < |s| && ValidUtf8(s[..n]) && !ValidUtf8(s)
        && (if unfinished then Incomplete(s[n..]) && !Hopeless(s) else Hopeless(s))
    decreases |s|
  {
    ValidUnfold(s);
    if s != [] {
      var k := CharLen(s);
      if k == 0 {
        assert s[..0] == [] && s[0..] == s;
        if Incomplete(s) {
          ValidUnfold([]);
          Repairable(s, 0);
        } else {
          BadStart(s);
        }
      } else {
        FromUtf8Meaning(s[k..]);
        match FromUtf8(s[k..])
        case Valid =>
        case Error(n, unfinished) => ErrorShift(s, k, n, unfinished);
      }
    }
  }

  /** An error behind a first character is the same error further on. */
  lemma ErrorShift(s: Text, k: nat, n: nat, unfinished: bool)
    requires k <= |s| && ValidChar(s[..k]) && n < |s[k..]| && ValidUtf8(s[k..][..n]) && !ValidUtf8(s[k..])
    requires if unfinished then Incomplete(s[k..][n..]) else Hopeless(s[k..])
    ensures ValidUtf8(s[..k + n]) && !ValidUtf8(s)
    ensures if unfinished then Incomplete(s[k + n..]) && !Hopeless(s) else Hopeless(s)
  {
    OneChar(s[..k]);
    assert s == s[..k] + s[k..];
    ValidCancel(s[..k], s[k..]);
    assert s[..k + n] == s[..k] + s[k..][..n];
    ValidAppend(s[..k], s[k..][..n]);
    assert s[k + n..] == s[k..][n..];
    if unfinished {
      Repairable(s, k + n);
    } else {
      HopelessShift(s[..k], s[k..]);
    }
  }

  /** Valid text followed by an unfinished character has a valid continuation. */
  lemma Repairable(s: Text, n: nat)
    requires n <= |s| && ValidUtf8(s[..n]) && Incomplete(s[n..])
    ensures !Hopeless(s)
  {
    var c := IncompleteExtends(s[n..]);
    var rest := c[|s| - n..];
    assert s + rest == s[..n] + c;
    OneChar(c);
    ValidAppend(s[..n], c);
  }

  lemma OneChar(c: Text)
    requires ValidChar(c)
    ensures ValidUtf8(c)
  {
    ConcatOne(c);
    assert AllValid([c]) && Concat([c]) == c;
  }

  // ---- Cutting valid text ----

  /** `is_char_boundary`. */
  predicate Boundary(s: Text, i: nat)
    requires i <= |s|
  {
    i == 0 || i == |s| || !Tail(s[i])
  }

  /** In valid text, boundaries are exactly the places where both halves are valid. */
  lemma {:induction false} BoundarySplits(s: Text, i: nat)
    requires ValidUtf8(s) && i <= |s|
    ensures Boundary(s, i) <==> ValidUtf8(s[..i])
    ensures Boundary(s, i) ==> ValidUtf8(s[i..])
    decreases |s|
  {
    ValidUnfold(s);
    ValidUnfold(s[..i]);
    if i == 0 {
      assert s[..0] == [] && s[0..] == s;
    } else if i == |s| {
      assert s[..i] == s && s[i..] == [];
    } else {
      var k := CharLen(s);
      if i < k {
        InsideChar(s, s[..k], i);
      } else {
        BoundarySplits(s[k..], i - k);
        AfterChar(s, k, i);
        CharStart(s, k);
      }
    }
  }

  /** Inside its first character a text has no boundary. */
  lemma InsideChar(s: Text, c: Text, i: nat)
    requires ValidChar(c) && c <= s && 1 <= i < |c|
    ensures Tail(s[i]) && CharLen(s[..i]) == 0
  {
    assert c[i] == s[i];
    PrefixIsIncomplete(c, i);
    assert c[..i] == s[..i];
    IncompleteIsNoChar(s[..i]);
  }

  lemma AfterChar(s: Text, k: nat, i: nat)
    requires k <= i <= |s| && ValidChar(s[..k])
    ensures ValidUtf8(s[..i]) <==> ValidUtf8(s[k..][..i - k])
    ensures s[i..] == s[k..][i - k..]
  {
    OneChar(s[..k]);
    assert s[..i] == s[..k] + s[k..][..i - k];
    ValidCancel(s[..k], s[k..][..i - k]);
  }

  /** A character never starts with a continuation byte. */
  lemma CharStart(s: Text, k: nat)
    requires ValidUtf8(s) && k == CharLen(s) && s != []
    ensures k < |s| ==> !Tail(s[k])
  {
    ValidUnfold(s);
    if k < |s| {
      var rest := s[k..];
      ValidUnfold(rest);
      assert ValidChar(rest[..CharLen(rest)]);
      assert rest[0] == rest[..CharLen(rest)][0];
    }
  }

  /** Every position of valid text has a boundary at most three bytes before and after it. */
  lemma {:induction false} NearBoundary(s: Text, i: nat) returns (before: nat, after: nat)
    requires ValidUtf8(s) && i <= |s|
    ensures before <= i <= after <= |s| && i - before <= 3 && after - i <= 3
    ensures Boundary(s, before) && Boundary(s, after)
    decreases |s|
  {
    ValidUnfold(s);
    if i == 0 {
      before, after := 0, 0;
    } else {
      var k := CharLen(s);
      CharStart(s, k);
      if i < k {
        before, after := 0, k;
      } else {
        before, after := NearBoundary(s[k..], i - k);
        before, after := before + k, after + k;
      }
    }
  }

  /** `i` is the last boundary at or before `index`. */
  ghost predicate LastBoundary(text: Text, index: nat, i: nat) {
    && i <= |text| && i <= index && Boundary(text, i)
    && forall j :: i < j <= index && j <= |text| ==> !Boundary(text, j)
  }

  /** `i` is the first boundary at or after `index`, or the end. */
  ghost predicate FirstBoundary(text: Text, index: nat, i: nat) {
    && i <= |text| && Boundary(text, i) && (if index <= |text| then index <= i else i == |text|)
    && forall j :: index <= j < i ==> !Boundary(text, j)
  }

  /** `floor_boundary`: the last boundary at or before `index`. */
  method FloorBoundary(text: Text, index: nat) returns (r: nat)
    requires ValidUtf8(text)
    ensures LastBoundary(text, index, r)
    ensures ValidUtf8(text[..r]) && ValidUtf8(text[r..])
    ensures (if index < |text| then index else |text|) - r <= 3
  {
    var start := if index < |text| then index else |text|;
    r := start;
    ghost var before, after := NearBoundary(text, start);
    while r > 0 && !Boundary(text, r)
      invariant before <= r <= start
      invariant forall j :: r < j <= start ==> !Boundary(text, j)
    {
      r := r - 1;
    }
    BoundarySplits(text, r);
  }

  /** `ceil_boundary`: the first boundary at or after `index`. */
  method CeilBoundary(text: Text, index: nat) returns (r: nat)
    requires ValidUtf8(text)
    ensures FirstBoundary(text, index, r)
    ensures ValidUtf8(text[..r]) && ValidUtf8(text[r..])
    ensures r - (if index < |text| then index else |text|) <= 3
  {
    var start := if index < |text| then index else |text|;
    r := start;
    ghost var before, after := NearBoundary(text, start);
    while r < |text| && !Boundary(text, r)
      invariant start <= r <= after
      invariant forall j :: start <= j < r ==> !Boundary(text, j)
    {
      r := r + 1;
    }
    BoundarySplits(text, r);
  }

  /** `head` is the longest valid prefix. */
  ghost predicate LongestHead(bytes: Text, head: Text) {
    head <= bytes && ValidUtf8(head) && forall n :: |head| < n <= |bytes| ==> !ValidUtf8(bytes[..n])
  }

  /** `tail` is the longest valid suffix, or empty when that would drop more than three bytes. */
  ghost predicate NearTail(bytes: Text, tail: Text) {
    && |tail| <= |bytes| && tail == bytes[|bytes| - |tail|..] && ValidUtf8(tail)
    && (tail == [] || |bytes| - |tail| <= 3)
    && forall k :: 0 <= k < |bytes| - |tail| && k <= 3 ==> !ValidUtf8(bytes[k..])
  }

  /** `complete_utf8_head`: the longest valid prefix; of a cut stream it drops at most three bytes. */
  method CompleteHead(bytes: Text) returns (head: Text)
    ensures LongestHead(bytes, head)
    ensures (exists rest: Text :: ValidUtf8(bytes + rest)) ==> |bytes| - |head| <= 3
  {
    var end := |bytes|;
    while end > 0
      invariant 0 <= end <= |bytes|
      invariant forall n :: end < n <= |bytes| ==> !ValidUtf8(bytes[..n])
    {
      FromUtf8Meaning(bytes[..end]);
      if FromUtf8(bytes[..end]).Valid? {
        HeadIsNear(bytes, end);
        return bytes[..end];
      }
      end := end - 1;
    }
    ValidUnfold([]);
    assert bytes[..0] == [];
    HeadIsNear(bytes, 0);
    head := [];
  }

  lemma HeadIsNear(bytes: Text, end: nat)
    requires end <= |bytes| && forall n :: end < n <= |bytes| ==> !ValidUtf8(bytes[..n])
    ensures (exists rest: Text :: ValidUtf8(bytes + rest)) ==> |bytes| - end <= 3
  {
    if rest: Text :| ValidUtf8(bytes + rest) {
      var before, after := NearBoundary(bytes + rest, |bytes|);
      BoundarySplits(bytes + rest, before);
      assert (bytes + rest)[..before] == bytes[..before];
    }
  }

  /** `complete_utf8_tail`: drops up to three bytes from the front; enough for the end of any valid stream. */
  method CompleteTail(bytes: Text) returns (tail: Text)
    ensures NearTail(bytes, tail)
    ensures (exists before: Text :: ValidUtf8(before + bytes)) ==> |bytes| - |tail| <= 3
  {
    for start := 0 to if |bytes| < 4 then |bytes| else 4
      invariant forall k :: 0 <= k < start ==> !ValidUtf8(bytes[k..])
    {
      FromUtf8Meaning(bytes[start..]);
      if FromUtf8(bytes[start..]).Valid? {
        return bytes[start..];
      }
    }
    ValidUnfold([]);
    TailIsNear(bytes);
    tail := [];
  }

  lemma TailIsNear(bytes: Text)
    requires forall k :: 0 <= k < |bytes| && k < 4 ==> !ValidUtf8(bytes[k..])
    ensures (exists before: Text :: ValidUtf8(before + bytes)) ==> |bytes| <= 3
  {
    if before: Text :| ValidUtf8(before + bytes) {
      var s, n := before + bytes, |before|;
      var _, after := NearBoundary(s, n);
      BoundarySplits(s, after);
      assert s[after..] == bytes[after - n..];
    }
  }
}
