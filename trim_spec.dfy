/**
 * What gb_trim_string computes, stated on byte sequences: the payload with the
 * longest run of cut bytes removed from its front, then from its back.
 */
module TrimSpec {
  import opened LibC

  /** Bytes that the trim cursors step over: those strchr finds in the cut set. */
  predicate IsCut(b: byte, cutSet: seq<byte>)
  {
    StrChr(cutSet, b)
  }

  predicate AllCut(s: seq<byte>, cutSet: seq<byte>)
  {
    forall k :: 0 <= k < |s| ==> IsCut(s[k], cutSet)
  }

  /** Length of the longest run of cut bytes at the front of s. */
  function CutPrefixLen(s: seq<byte>, cutSet: seq<byte>): (n: nat)
    ensures n <= |s|
  {
    if |s| == 0 || !IsCut(s[0], cutSet) then 0 else CutPrefixLen(s[1..], cutSet) + 1
  }

  /** Length of the longest run of cut bytes at the back of s. */
  function CutSuffixLen(s: seq<byte>, cutSet: seq<byte>): (n: nat)
    ensures n <= |s|
  {
    if |s| == 0 || !IsCut(s[|s| - 1], cutSet) then 0 else CutSuffixLen(s[..|s| - 1], cutSet) + 1
  }

  /** The cut prefix is all cut, and the byte after it, if any, is not. */
  lemma {:induction false} CutPrefixLenSpec(s: seq<byte>, cutSet: seq<byte>)
    ensures forall k :: 0 <= k < CutPrefixLen(s, cutSet) ==> IsCut(s[k], cutSet)
    ensures CutPrefixLen(s, cutSet) < |s| ==> !IsCut(s[CutPrefixLen(s, cutSet)], cutSet)
  {
    if |s| > 0 && IsCut(s[0], cutSet) {
      CutPrefixLenSpec(s[1..], cutSet);
      assert forall k :: 1 <= k < |s| ==> s[k] == s[1..][k - 1];
    }
  }

  /** The cut suffix is all cut, and the byte before it, if any, is not. */
  lemma {:induction false} CutSuffixLenSpec(s: seq<byte>, cutSet: seq<byte>)
    ensures forall k :: |s| - CutSuffixLen(s, cutSet) <= k < |s| ==> IsCut(s[k], cutSet)
    ensures CutSuffixLen(s, cutSet) < |s| ==> !IsCut(s[|s| - 1 - CutSuffixLen(s, cutSet)], cutSet)
  {
    if |s| > 0 && IsCut(s[|s| - 1], cutSet) {
      var init := s[..|s| - 1];
      CutSuffixLenSpec(init, cutSet);
      assert forall k :: 0 <= k < |s| - 1 ==> s[k] == init[k];
    }
  }

  /** When some byte is not cut, the cut suffix ends after the cut prefix. */
  lemma PrefixBeforeSuffix(s: seq<byte>, cutSet: seq<byte>)
    requires CutPrefixLen(s, cutSet) < |s|
    ensures CutPrefixLen(s, cutSet) + CutSuffixLen(s, cutSet) < |s|
  {
    CutPrefixLenSpec(s, cutSet);
    CutSuffixLenSpec(s, cutSet);
  }

  /**
   * The trimmed payload: the bytes after the cut prefix and before the cut
   * suffix, or nothing when every byte is cut.
   */
  function Trimmed(s: seq<byte>, cutSet: seq<byte>): (t: seq<byte>)
    ensures CutPrefixLen(s, cutSet) + |t| <= |s|
    ensures t == s[CutPrefixLen(s, cutSet)..CutPrefixLen(s, cutSet) + |t|]
  {
    var i := CutPrefixLen(s, cutSet);
    if i == |s| then []
    else
      PrefixBeforeSuffix(s, cutSet);
      s[i..|s| - CutSuffixLen(s, cutSet)]
  }

  /** When some byte is not cut, the trimmed payload is the slice between the two cut runs. */
  lemma TrimmedSlice(s: seq<byte>, cutSet: seq<byte>)
    requires CutPrefixLen(s, cutSet) < |s|
    ensures CutPrefixLen(s, cutSet) < |s| - CutSuffixLen(s, cutSet)
    ensures Trimmed(s, cutSet) == s[CutPrefixLen(s, cutSet)..|s| - CutSuffixLen(s, cutSet)]
  {
    PrefixBeforeSuffix(s, cutSet);
  }

  /** The result is empty exactly when every byte is cut. */
  lemma TrimmedEmpty(s: seq<byte>, cutSet: seq<byte>)
    ensures Trimmed(s, cutSet) == [] <==> AllCut(s, cutSet)
  {
    CutPrefixLenSpec(s, cutSet);
    if CutPrefixLen(s, cutSet) < |s| {
      TrimmedSlice(s, cutSet);
    }
  }

  /** A non-empty result starts and ends with a byte that is not cut. */
  lemma TrimmedEnds(s: seq<byte>, cutSet: seq<byte>)
    ensures Trimmed(s, cutSet) != [] ==> !IsCut(Trimmed(s, cutSet)[0], cutSet)
    ensures Trimmed(s, cutSet) != [] ==> !IsCut(Trimmed(s, cutSet)[|Trimmed(s, cutSet)| - 1], cutSet)
  {
    var i := CutPrefixLen(s, cutSet);
    if i < |s| {
      CutPrefixLenSpec(s, cutSet);
      CutSuffixLenSpec(s, cutSet);
      TrimmedSlice(s, cutSet);
      var j := |s| - CutSuffixLen(s, cutSet);
      assert Trimmed(s, cutSet)[0] == s[i];
      assert Trimmed(s, cutSet)[j - i - 1] == s[j - 1];
    }
  }

  /** What trimming drops behind the result is all cut. */
  lemma TrimmedDropsCutSuffix(s: seq<byte>, cutSet: seq<byte>)
    ensures forall k :: CutPrefixLen(s, cutSet) + |Trimmed(s, cutSet)| <= k < |s| ==> IsCut(s[k], cutSet)
  {
    CutPrefixLenSpec(s, cutSet);
    CutSuffixLenSpec(s, cutSet);
    if CutPrefixLen(s, cutSet) < |s| {
      TrimmedSlice(s, cutSet);
    }
  }

  /**
   * Trimming never grows the payload; what it drops behind the result is all
   * cut; the result is empty exactly when every byte is cut, and otherwise
   * starts and ends with a byte that is not cut.
   */
  lemma TrimmedSpec(s: seq<byte>, cutSet: seq<byte>)
    ensures |Trimmed(s, cutSet)| <= |s|
    ensures forall k :: CutPrefixLen(s, cutSet) + |Trimmed(s, cutSet)| <= k < |s| ==> IsCut(s[k], cutSet)
    ensures Trimmed(s, cutSet) == [] <==> AllCut(s, cutSet)
    ensures Trimmed(s, cutSet) != [] ==> !IsCut(Trimmed(s, cutSet)[0], cutSet)
    ensures Trimmed(s, cutSet) != [] ==> !IsCut(Trimmed(s, cutSet)[|Trimmed(s, cutSet)| - 1], cutSet)
  {
    TrimmedDropsCutSuffix(s, cutSet);
    TrimmedEmpty(s, cutSet);
    TrimmedEnds(s, cutSet);
  }

  /**
   * Where the trim cursors stop: the start cursor after the cut prefix, the
   * end cursor on the last byte before the cut suffix, unless the whole payload
   * is cut. The bytes between them, both included, are the trimmed payload.
   */
  lemma CursorsDelimitTrimmed(s: seq<byte>, cutSet: seq<byte>, start: nat, end: int)
    requires start <= CutPrefixLen(s, cutSet)
    requires start < |s| ==> !IsCut(s[start], cutSet)
    requires start - 1 <= end <= |s| - 1
    requires start < |s| ==> |s| - 1 - CutSuffixLen(s, cutSet) <= end
    requires end > start ==> !IsCut(s[end], cutSet)
    ensures var n := if start > end then 0 else end - start + 1;
            start + n <= |s| && Trimmed(s, cutSet) == s[start..start + n]
  {
    CutPrefixLenSpec(s, cutSet);
    CutSuffixLenSpec(s, cutSet);
    if start < |s| {
      PrefixBeforeSuffix(s, cutSet);
    }
  }

  /** A run of cut bytes at the front is exactly the one CutPrefixLen measures. */
  lemma PrefixLenUnique(s: seq<byte>, cutSet: seq<byte>, k: nat)
    requires k <= |s| && forall j :: 0 <= j < k ==> IsCut(s[j], cutSet)
    requires k < |s| ==> !IsCut(s[k], cutSet)
    ensures CutPrefixLen(s, cutSet) == k
  {
    CutPrefixLenSpec(s, cutSet);
  }

  /** A run of cut bytes at the back is exactly the one CutSuffixLen measures. */
  lemma SuffixLenUnique(s: seq<byte>, cutSet: seq<byte>, k: nat)
    requires k <= |s| && forall j :: |s| - k <= j < |s| ==> IsCut(s[j], cutSet)
    requires k < |s| ==> !IsCut(s[|s| - 1 - k], cutSet)
    ensures CutSuffixLen(s, cutSet) == k
  {
    CutSuffixLenSpec(s, cutSet);
  }

  /**
   * Reference characterisation: whenever s splits into a cut prefix p, a
   * middle m that is empty or begins and ends with an uncut byte, and a cut
   * suffix q, trimming s gives m.
   */
  lemma TrimmedCharacterization(p: seq<byte>, m: seq<byte>, q: seq<byte>, cutSet: seq<byte>)
    requires AllCut(p, cutSet) && AllCut(q, cutSet)
    requires m != [] ==> !IsCut(m[0], cutSet) && !IsCut(m[|m| - 1], cutSet)
    ensures Trimmed(p + m + q, cutSet) == m
  {
    var s := p + m + q;
    assert forall k :: 0 <= k < |p| ==> s[k] == p[k];
    assert forall k :: |p| + |m| <= k < |s| ==> s[k] == q[k - |p| - |m|];
    if m == [] {
      PrefixLenUnique(s, cutSet, |s|);
    } else {
      assert s[|p|] == m[0];
      PrefixLenUnique(s, cutSet, |p|);
      assert s[|s| - 1 - |q|] == m[|m| - 1];
      SuffixLenUnique(s, cutSet, |q|);
      assert s[|p|..|s| - |q|] == m;
    }
  }

  /** Trimming twice gives what trimming once gives. */
  lemma TrimIdempotent(s: seq<byte>, cutSet: seq<byte>)
    ensures Trimmed(Trimmed(s, cutSet), cutSet) == Trimmed(s, cutSet)
  {
    var t := Trimmed(s, cutSet);
    var none: seq<byte> := [];
    TrimmedSpec(s, cutSet);
    assert none + t + none == t;
    TrimmedCharacterization(none, t, none, cutSet);
  }
}
