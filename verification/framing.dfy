// Frame extraction for the receive loops: `extract_complete_message`, which src/engine.rs and
// src/fix_engine.rs define with identical text. The byte buffer is ASCII, so its `String` view has
// the same offsets as its bytes and is modelled by the same `string`.

module Framing {
  import opened Wire

  /** The text that marks the CheckSum(10) field. */
  const CHECKSUM_MARK: string := "10="

  /** `p` is the first index at which `pat` occurs in `s`. */
  predicate FirstOccurrence(s: string, pat: string, p: nat)
  {
    OccursAt(s, pat, p) && forall j :: 0 <= j < p ==> !OccursAt(s, pat, j)
  }

  /** `Find` answers with the first occurrence, or with nothing when `pat` does not occur. */
  lemma FindSpec(s: string, pat: string)
    ensures Find(s, pat).Some? ==> FirstOccurrence(s, pat, Find(s, pat).value)
    ensures Find(s, pat).None? <==> forall j :: !OccursAt(s, pat, j)
  {
  }

  /** `extract_complete_message`: the text up to and including the first SOH at or after the first
      "10=", and the bytes after it; nothing when there is no "10=" or no SOH after it. */
  function ExtractCompleteMessage(buffer: string): Option<(string, string)>
  {
    match Find(buffer, CHECKSUM_MARK)
    case None => None
    case Some(checksumPos) =>
      match IndexOf(buffer[checksumPos..], SOH)
      case None => None
      case Some(endPos) =>
        var n := checksumPos + endPos + 1;
        Some((buffer[..n], buffer[n..]))
  }

  /** The frame of `buffer` ends just after index `n - 1`: that is the first SOH at or after the
      first "10=". */
  ghost predicate FrameEndsAt(buffer: string, n: nat)
  {
    exists p: nat :: FirstOccurrence(buffer, CHECKSUM_MARK, p)
      && p < n <= |buffer| && buffer[n - 1] == SOH && SOH !in buffer[p..n - 1]
  }

  /** At most one index starts the first occurrence. */
  lemma FirstOccurrenceUnique(s: string, pat: string, p: nat, q: nat)
    requires FirstOccurrence(s, pat, p) && FirstOccurrence(s, pat, q)
    ensures p == q
  {
  }

  /** When a frame is found, it ends where `FrameEndsAt` says. */
  lemma ExtractEndsAtFrame(buffer: string)
    requires ExtractCompleteMessage(buffer).Some?
    ensures var n := |ExtractCompleteMessage(buffer).value.0|;
      FrameEndsAt(buffer, n) && ExtractCompleteMessage(buffer) == Some((buffer[..n], buffer[n..]))
  {
    FindSpec(buffer, CHECKSUM_MARK);
    var p := Find(buffer, CHECKSUM_MARK).value;
    var t := buffer[p..];
    var e := IndexOf(t, SOH).value;
    var n := p + e + 1;
    assert buffer[n - 1] == t[e];
    assert buffer[p..n - 1] == t[..e];
  }

  /** Every frame end is the one found. */
  lemma FrameEndFound(buffer: string, n: nat)
    requires FrameEndsAt(buffer, n)
    ensures ExtractCompleteMessage(buffer) == Some((buffer[..n], buffer[n..]))
  {
    var p: nat :| FirstOccurrence(buffer, CHECKSUM_MARK, p)
      && p < n <= |buffer| && buffer[n - 1] == SOH && SOH !in buffer[p..n - 1];
    FindSpec(buffer, CHECKSUM_MARK);
    assert Find(buffer, CHECKSUM_MARK).Some? by {
      assert OccursAt(buffer, CHECKSUM_MARK, p);
    }
    FirstOccurrenceUnique(buffer, CHECKSUM_MARK, p, Find(buffer, CHECKSUM_MARK).value);
    var t := buffer[p..];
    assert t[n - 1 - p] == SOH;
    var e := IndexOf(t, SOH).value;
    assert t[..n - 1 - p] == buffer[p..n - 1];
  }

  /** `extract_complete_message` is determined by the frame end: it finds a frame exactly when the
      buffer has one, and then splits the buffer at its end. */
  lemma ExtractCharacterised(buffer: string)
    ensures ExtractCompleteMessage(buffer).Some? <==> exists n: nat :: FrameEndsAt(buffer, n)
    ensures forall n: nat :: FrameEndsAt(buffer, n) ==> ExtractCompleteMessage(buffer) == Some((buffer[..n], buffer[n..]))
  {
    if ExtractCompleteMessage(buffer).Some? {
      ExtractEndsAtFrame(buffer);
    }
    forall n: nat | FrameEndsAt(buffer, n) ensures ExtractCompleteMessage(buffer) == Some((buffer[..n], buffer[n..])) {
      FrameEndFound(buffer, n);
    }
  }

  /** The frame and the bytes left over make up the buffer, and the frame ends with SOH. */
  lemma ExtractSplitsBuffer(buffer: string)
    requires ExtractCompleteMessage(buffer).Some?
    ensures var (frame, remaining) := ExtractCompleteMessage(buffer).value;
      frame + remaining == buffer && |frame| >= 4 && frame[|frame| - 1] == SOH
  {
    FindSpec(buffer, CHECKSUM_MARK);
    var p := Find(buffer, CHECKSUM_MARK).value;
    var e := IndexOf(buffer[p..], SOH).value;
    assert buffer[p..][..3] == CHECKSUM_MARK;
    assert e >= 3;
  }

  /** Without "10=" in the buffer there is no frame. */
  lemma ExtractWithoutMark(buffer: string)
    requires forall j :: !OccursAt(buffer, CHECKSUM_MARK, j)
    ensures ExtractCompleteMessage(buffer) == None
  {
    FindSpec(buffer, CHECKSUM_MARK);
  }

  /** With "10=" but no SOH after its first occurrence there is no frame. */
  lemma ExtractWithoutSoh(buffer: string, p: nat)
    requires FirstOccurrence(buffer, CHECKSUM_MARK, p) && SOH !in buffer[p..]
    ensures ExtractCompleteMessage(buffer) == None
  {
    FindSpec(buffer, CHECKSUM_MARK);
    FirstOccurrenceUnique(buffer, CHECKSUM_MARK, p, Find(buffer, CHECKSUM_MARK).value);
  }

  /** The search for "10=" is a plain substring search: a field whose tag merely ends in 10, such
      as 110, ends the frame at its own SOH, before the real CheckSum(10) field in `rest`. */
  lemma EmbeddedMarkEndsFrame(a: string, v: string, rest: string)
    requires forall j: nat :: !OccursAt(a, CHECKSUM_MARK, j)
    requires SOH !in v
    ensures var buffer := a + "110=" + v + [SOH] + rest;
      ExtractCompleteMessage(buffer) == Some((a + "110=" + v + [SOH], rest))
  {
    var buffer := a + "110=" + v + [SOH] + rest;
    var p := |a| + 1;
    var n := |a| + 4 + |v| + 1;
    assert OccursAt(buffer, CHECKSUM_MARK, p) by {
      assert buffer[p..p + 3] == "10=";
    }
    forall j | 0 <= j < p ensures !OccursAt(buffer, CHECKSUM_MARK, j) {
      if j + 3 <= |a| {
        assert buffer[j..j + 3] == a[j..j + 3];
        assert !OccursAt(a, CHECKSUM_MARK, j);
      } else {
        assert buffer[j + 2] != '=';
      }
    }
    assert FirstOccurrence(buffer, CHECKSUM_MARK, p);
    assert buffer[p..n - 1] == "10=" + v;
    assert SOH !in "10=" + v;
    assert buffer[n - 1] == SOH;
    assert FrameEndsAt(buffer, n);
    FrameEndFound(buffer, n);
    assert buffer[..n] == a + "110=" + v + [SOH];
    assert buffer[n..] == rest;
  }
}
