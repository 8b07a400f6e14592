/**
 `StreamText`: decides, chunk by chunk and in constant space, whether a byte
 stream is UTF-8 text and whether it contains CR LF.
 */
module StreamTracking {
  import opened Bytes
  import opened Utf8

  predicate HasCrLf(s: Text) {
    exists i :: 0 < i < |s| && s[i - 1] == CR && s[i] == LF
  }

  predicate EndsInCr(s: Text) {
    s != [] && s[|s| - 1] == CR
  }

  /** CR LF in a concatenation lies in one part or across the seam. */
  lemma CrLfAppend(a: Text, b: Text)
    ensures HasCrLf(a + b) <==> HasCrLf(a) || HasCrLf(b) || (EndsInCr(a) && b != [] && b[0] == LF)
  {
    var s := a + b;
    if HasCrLf(s) {
      var i :| 0 < i < |s| && s[i - 1] == CR && s[i] == LF;
      if i > |a| {
        assert b[i - |a| - 1] == CR && b[i - |a|] == LF;
      }
    }
    if HasCrLf(a) {
      var i :| 0 < i < |a| && a[i - 1] == CR && a[i] == LF;
      assert s[i - 1] == CR && s[i] == LF;
    }
    if HasCrLf(b) {
      var i :| 0 < i < |b| && b[i - 1] == CR && b[i] == LF;
      assert s[|a| + i - 1] == CR && s[|a| + i] == LF;
    }
    if EndsInCr(a) && b != [] && b[0] == LF {
      assert s[|a| - 1] == CR && s[|a|] == LF;
    }
  }

  /** The stream so far is valid text followed by `pending`, an unfinished character or nothing. */
  ghost predicate Open(seen: Text, pending: Text) {
    && |pending| <= |seen| && seen[|seen| - |pending|..] == pending
    && ValidUtf8(seen[..|seen| - |pending|])
    && (pending == [] || Incomplete(pending))
  }

  /** An open stream is valid exactly when nothing is pending. */
  lemma OpenIsValid(seen: Text, pending: Text)
    requires Open(seen, pending)
    ensures ValidUtf8(seen) <==> pending == []
    ensures |pending| <= 3
  {
    var done := seen[..|seen| - |pending|];
    assert seen == done + pending;
    ValidCancel(done, pending);
    ValidUnfold(pending);
    if pending != [] {
      IncompleteIsNoChar(pending);
    }
  }

  lemma OpenAppend(done: Text, rest: Text)
    requires ValidUtf8(done) && (rest == [] || Incomplete(rest))
    ensures Open(done + rest, rest)
  {
    var all := done + rest;
    assert all[..|all| - |rest|] == done && all[|all| - |rest|..] == rest;
  }

  /** What decoding `combined`, the end of the stream, means for the whole stream. */
  ghost predicate Judged(stream: Text, combined: Text) {
    match FromUtf8(combined)
    case Valid => Open(stream, [])
    case Error(n, unfinished) =>
      if unfinished then n <= |combined| && Open(stream, combined[n..]) else Hopeless(stream)
  }

  /** What the decoder says about `pending + bytes` holds for the whole stream. */
  lemma DecodeContinues(seen: Text, pending: Text, bytes: Text)
    requires Open(seen, pending)
    ensures Judged(seen + bytes, pending + bytes)
  {
    var done, combined := seen[..|seen| - |pending|], pending + bytes;
    assert seen == done + pending;
    assert seen + bytes == done + combined;
    DecodeAfter(done, combined);
  }

  lemma DecodeAfter(done: Text, combined: Text)
    requires ValidUtf8(done)
    ensures Judged(done + combined, combined)
  {
    FromUtf8Meaning(combined);
    match FromUtf8(combined)
    case Valid =>
      ValidAppend(done, combined);
      OpenAppend(done + combined, []);
      assert done + combined + [] == done + combined;
    case Error(n, unfinished) =>
      if unfinished {
        OpenAfter(done, combined, n);
      } else {
        HopelessShift(done, combined);
      }
  }

  lemma OpenAfter(done: Text, combined: Text, n: nat)
    requires ValidUtf8(done) && n <= |combined| && ValidUtf8(combined[..n]) && Incomplete(combined[n..])
    ensures Open(done + combined, combined[n..])
  {
    ValidAppend(done, combined[..n]);
    OpenAppend(done + combined[..n], combined[n..]);
    assert done + combined[..n] + combined[n..] == done + combined;
  }

  lemma HopelessStays(s: Text, more: Text)
    requires Hopeless(s)
    ensures Hopeless(s + more) && !ValidUtf8(s)
  {
    forall t: Text ensures !ValidUtf8(s + more + t) {
      assert s + more + t == s + (more + t);
    }
    assert s + [] == s;
  }

  class StreamText {
    var valid: bool
    var pending: Text
    var normalized: bool
    var previousCr: bool
    /** Everything observed so far. */
    ghost var seen: Text

    ghost predicate Valid()
      reads this
    {
      && (valid ==> Open(seen, pending))
      && (!valid ==> Hopeless(seen) && pending == [])
      && (normalized <==> HasCrLf(seen))
      && (previousCr <==> EndsInCr(seen))
    }

    constructor ()
      ensures Valid() && seen == []
    {
      valid, pending, normalized, previousCr, seen := true, [], false, false, [];
      new;
      ValidUnfold([]);
      assert seen[..0] == [];
    }

    method Observe(bytes: Text)
      requires Valid()
      modifies this
      ensures Valid() && seen == old(seen) + bytes
    {
      if bytes == [] {
        assert seen + bytes == seen;
        return;
      }
      CrLfAppend(seen, bytes);
      if (previousCr && bytes[0] == LF) || HasCrLf(bytes) {
        normalized := true;
      }
      previousCr := bytes[|bytes| - 1] == CR;
      if !valid {
        HopelessStays(seen, bytes);
        seen := seen + bytes;
        return;
      }
      Validate(bytes);
    }

    /** `validate`: decodes the unfinished character together with the new bytes. */
    method Validate(bytes: Text)
      requires valid && Open(seen, pending)
      modifies this`valid, this`pending, this`seen
      ensures seen == old(seen) + bytes
      ensures valid ==> Open(seen, pending)
      ensures !valid ==> Hopeless(seen) && pending == []
    {
      var combined := pending + bytes;
      DecodeContinues(seen, pending, bytes);
      seen := seen + bytes;
      match FromUtf8(combined)
      case Valid =>
        pending := [];
      case Error(n, unfinished) =>
        if unfinished {
          pending := combined[n..];
          OpenIsValid(seen, pending);
          assert |pending| <= 3;
        } else {
          valid := false;
          pending := [];
        }
    }

    /** `is_text`: the whole stream is UTF-8. */
    method IsText() returns (r: bool)
      requires Valid()
      ensures r <==> ValidUtf8(seen)
      ensures normalized <==> HasCrLf(seen)
      ensures |pending| <= 3
    {
      if valid {
        OpenIsValid(seen, pending);
      } else {
        HopelessStays(seen, []);
      }
      r := valid && pending == [];
    }
  }

  /** However a stream is cut into chunks, tracking it chunk by chunk judges the whole stream. */
  method Track(chunks: seq<Text>) returns (isText: bool, normalized: bool)
    ensures isText <==> ValidUtf8(Concat(chunks))
    ensures normalized <==> HasCrLf(Concat(chunks))
  {
    var tracker := new StreamText();
    for i := 0 to |chunks|
      invariant fresh(tracker) && tracker.Valid() && tracker.seen == Concat(chunks[..i])
    {
      tracker.Observe(chunks[i]);
      assert chunks[..i + 1] == chunks[..i] + [chunks[i]];
      ConcatAppend(chunks[..i], [chunks[i]]);
      ConcatOne(chunks[i]);
    }
    assert chunks[..|chunks|] == chunks;
    isText := tracker.IsText();
    normalized := tracker.normalized;
  }
}
