/** Capacity and message framing (Steganography.py, encode lines 42-48 and
    decode line 99): the "STOP" terminator appended before encoding, and the
    cut at its first occurrence after decoding. */
module Framing {
  import opened Results
  import opened Codec

  /** The terminator "STOP" as code points: 'S', 'T', 'O', 'P'. */
  const Terminator: seq<CodePoint> := [83, 84, 79, 80]

  /** char_limit: the most characters of 8 bits that fit in one bit per
      channel of a width x height image with three channels per pixel. */
  function Capacity(width: nat, height: nat): (cap: nat)
    ensures 8 * cap <= width * height * 3 < 8 * cap + 8
  {
    (width * height * 3) / 8
  }

  /** `pat` starts at position `i` of `text`. */
  predicate OccursAt(text: seq<CodePoint>, pat: seq<CodePoint>, i: nat) {
    i + |pat| <= |text| && text[i..i + |pat|] == pat
  }

  /** Python's `pat in text`. */
  predicate Contains(text: seq<CodePoint>, pat: seq<CodePoint>) {
    exists i: nat | i <= |text| :: OccursAt(text, pat, i)
  }

  /** Python's `text.index(pat, from)`: the first position at or after `from`
      where `pat` starts, or None where `index` would raise. */
  function IndexFrom(text: seq<CodePoint>, pat: seq<CodePoint>, from: nat): (r: Option<nat>)
    ensures r.Some? ==> from <= r.value && OccursAt(text, pat, r.value)
    ensures r.Some? ==> forall i: nat :: from <= i < r.value ==> !OccursAt(text, pat, i)
    ensures r.None? ==> forall i: nat :: from <= i ==> !OccursAt(text, pat, i)
    decreases |text| - from
  {
    if from + |pat| > |text| then None
    else if text[from..from + |pat|] == pat then Some(from)
    else IndexFrom(text, pat, from + 1)
  }

  /** Decode line 99: the decoded text up to the first "STOP", or the whole
      text when it holds none. */
  function Unframe(text: seq<CodePoint>): (r: seq<CodePoint>)
    ensures |r| <= |text| && r == text[..|r|]
    ensures Contains(text, Terminator) ==> OccursAt(text, Terminator, |r|)
    ensures !Contains(text, Terminator) ==> r == text
    ensures !Contains(r, Terminator)
  {
    match IndexFrom(text, Terminator, 0)
    case Some(i) =>
      var r := text[..i];
      forall j: nat | OccursAt(r, Terminator, j)
        ensures false
      {
        assert text[j..j + 4] == r[j..j + 4];
        assert OccursAt(text, Terminator, j);
      }
      r
    case None => text
  }

  /** Encode lines 45 and 48 as written: "STOP" is appended, then the whole
      is cut to the capacity, which may cut into the terminator itself. */
  function FrameAsWritten(message: seq<CodePoint>, cap: nat): (r: seq<CodePoint>)
    ensures |r| == Min(|message| + 4, cap)
    ensures r <= message + Terminator
  {
    var framed := message + Terminator;
    if |framed| > cap then framed[..cap] else framed
  }

  /** The framing the source evidently intends: decoding (line 99) relies on
      finding a whole "STOP", so the raw message is cut to leave room for the
      terminator, which is then stored whole. An image of capacity below 4
      cannot hold the terminator at all; there the source's cut is kept. */
  function Frame(message: seq<CodePoint>, cap: nat): (r: seq<CodePoint>)
    ensures |r| <= cap
    ensures cap >= 4 ==> |r| == Min(|message|, cap - 4) + 4
    ensures cap >= 4 ==> OccursAt(r, Terminator, |r| - 4) && r[..|r| - 4] <= message
    ensures cap < 4 ==> r == FrameAsWritten(message, cap)
  {
    if cap < 4 then FrameAsWritten(message, cap)
    else
      var kept := if |message| > cap - 4 then message[..cap - 4] else message;
      assert (kept + Terminator)[..|kept|] == kept;
      kept + Terminator
  }

  // ---------------------------------------------------------------------
  // Lemmas
  // ---------------------------------------------------------------------

  /** No occurrence of "STOP" can straddle the end of a text that has none:
      the terminator's first letter never recurs inside it. */
  lemma {:induction false} FirstTerminatorAfter(m: seq<CodePoint>, rest: seq<CodePoint>)
    requires !Contains(m, Terminator)
    ensures IndexFrom(m + Terminator + rest, Terminator, 0) == Some(|m|)
  {
    var t := m + Terminator + rest;
    assert OccursAt(t, Terminator, |m|) by {
      assert t[|m|..|m| + 4] == Terminator;
    }
    forall i: nat | i < |m|
      ensures !OccursAt(t, Terminator, i)
    {
      if i + 4 <= |m| {
        assert t[i..i + 4] == m[i..i + 4];
        assert !OccursAt(m, Terminator, i);
      } else {
        var d := |m| - i;
        assert t[i + d] == 83;
        assert Terminator[d] != 83;
      }
    }
  }

  /** A text without the letter 'S' has no "STOP" in it. */
  lemma NoTerminatorWithoutS(m: seq<CodePoint>)
    requires forall k :: 0 <= k < |m| ==> m[k] != Terminator[0]
    ensures !Contains(m, Terminator)
  {
    forall i: nat | i <= |m|
      ensures !OccursAt(m, Terminator, i)
    {
      if i + 4 <= |m| {
        assert m[i..i + 4][0] == m[i];
      }
    }
  }

  /** A message with no "STOP" in it, framed and followed by anything,
      unframes to itself. */
  lemma UnframeFramed(m: seq<CodePoint>, rest: seq<CodePoint>)
    requires !Contains(m, Terminator)
    ensures Unframe(m + Terminator + rest) == m
  {
    FirstTerminatorAfter(m, rest);
    assert (m + Terminator + rest)[..|m|] == m;
  }

  /** Whatever m holds, nothing after a "STOP" appended to it is ever shown:
      unframing m + "STOP" + rest gives what unframing m alone gives. When m
      holds a "STOP" of its own, the text is cut there. */
  lemma UnframeAfterTerminator(m: seq<CodePoint>, rest: seq<CodePoint>)
    ensures Unframe(m + Terminator + rest) == Unframe(m)
  {
    if !Contains(m, Terminator) {
      UnframeFramed(m, rest);
    } else {
      var t := m + (Terminator + rest);
      assert t == m + Terminator + rest;
      var w: nat :| w <= |m| && OccursAt(m, Terminator, w);
      var first := IndexFrom(m, Terminator, 0);
      assert first.Some?;
      var i := first.value;
      OccursInExtension(m, Terminator + rest, Terminator, i);
      forall j: nat | j < i
        ensures !OccursAt(t, Terminator, j)
      {
        OccursInExtension(m, Terminator + rest, Terminator, j);
      }
      FirstOccurrence(t, Terminator, i);
      assert t[..i] == m[..i];
    }
  }

  /** An occurrence that ends within m is unaffected by what follows m. */
  lemma OccursInExtension(m: seq<CodePoint>, tail: seq<CodePoint>, pat: seq<CodePoint>, i: nat)
    requires i + |pat| <= |m|
    ensures OccursAt(m + tail, pat, i) <==> OccursAt(m, pat, i)
  {
    assert (m + tail)[i..i + |pat|] == m[i..i + |pat|];
  }

  /** An occurrence with none before it is the one `index` finds. */
  lemma FirstOccurrence(text: seq<CodePoint>, pat: seq<CodePoint>, i: nat)
    requires OccursAt(text, pat, i)
    requires forall j: nat :: j < i ==> !OccursAt(text, pat, j)
    ensures IndexFrom(text, pat, 0) == Some(i)
  {
  }

  /** Unframing what the intended framing stores, followed by anything,
      shows the kept part of the message up to its own first "STOP", if any. */
  lemma FrameUnframeKept(message: seq<CodePoint>, cap: nat, rest: seq<CodePoint>)
    requires cap >= 4
    ensures Unframe(Frame(message, cap) + rest) == Unframe(message[..Min(|message|, cap - 4)])
  {
    var kept := message[..Min(|message|, cap - 4)];
    assert Frame(message, cap) == kept + Terminator;
    UnframeAfterTerminator(kept, rest);
  }

  /** Unframing what the intended framing stores, followed by anything,
      recovers the kept part of the message when it holds no "STOP". */
  lemma FrameUnframe(message: seq<CodePoint>, cap: nat, rest: seq<CodePoint>)
    requires cap >= 4
    requires !Contains(message[..Min(|message|, cap - 4)], Terminator)
    ensures Unframe(Frame(message, cap) + rest) == message[..Min(|message|, cap - 4)]
  {
    var kept := message[..Min(|message|, cap - 4)];
    assert Frame(message, cap) == kept + Terminator;
    UnframeFramed(kept, rest);
  }

  /** Appending "STOP", whose letters are all below 256, never changes
      whether a message passes check_string. */
  lemma EncodableWithTerminator(message: seq<CodePoint>)
    ensures Encodable(message + Terminator) <==> Encodable(message)
  {
    assert forall k :: 0 <= k < |message| ==> (message + Terminator)[k] == message[k];
    assert forall k :: |message| <= k < |message| + 4 ==> (message + Terminator)[k] == Terminator[k - |message|];
  }

  /** When the framed message fits, the source's framing and the intended one
      store the same text. */
  lemma FrameAgreesWhenFits(message: seq<CodePoint>, cap: nat)
    requires |message| + 4 <= cap
    ensures FrameAsWritten(message, cap) == Frame(message, cap) == message + Terminator
  {
  }

  /** The source's framing cuts into the terminator whenever the message
      is longer than cap - 4: no complete "STOP" survives where it belongs. */
  lemma FrameAsWrittenCutsTerminator(message: seq<CodePoint>, cap: nat)
    requires cap < |message| + 4
    requires !Contains(message, Terminator)
    ensures !Contains(FrameAsWritten(message, cap), Terminator)
  {
    var r := FrameAsWritten(message, cap);
    var t := message + Terminator;
    FirstTerminatorAfter(message, []);
    assert t == message + Terminator + [];
    forall i: nat | OccursAt(r, Terminator, i)
      ensures false
    {
      assert r == t[..|r|];
      assert t[i..i + 4] == r[i..i + 4];
      assert OccursAt(t, Terminator, i);
    }
  }
}
