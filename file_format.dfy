/** What the editor decides from a file before decoding it: whether its
    name has a supported extension (`loadImage`), and the size a re-encoded
    copy is estimated to have (`updateFileSizeComparison`). */
module FileFormat {
  import opened ByteMath

  /** The extensions `loadImage` accepts, compared after lower-casing. */
  const SupportedFormats: set<string> := {"jpg", "jpeg", "png", "bmp"}

  /** `name.split('.').pop()`: the text after the last '.', or the whole name when it
      has none. */
  function LastSegment(name: string): (ext: string)
    ensures '.' !in ext
    ensures |ext| <= |name| && ext == name[|name| - |ext|..]
    ensures |ext| < |name| ==> name[|name| - |ext| - 1] == '.'
  {
    if name == [] then []
    else if name[|name| - 1] == '.' then []
    else LastSegment(name[..|name| - 1]) + [name[|name| - 1]]
  }

  function LowerChar(c: char): char
  {
    if 'A' <= c <= 'Z' then (c as int + 32) as char else c
  }

  /** `toLowerCase` restricted to ASCII. No other character lower-cases to a letter
      of an accepted extension, so the restriction does not change the decision. */
  function Lower(s: string): (l: string)
    ensures |l| == |s| && forall i :: 0 <= i < |s| ==> l[i] == LowerChar(s[i])
  {
    seq(|s|, i requires 0 <= i < |s| => LowerChar(s[i]))
  }

  /** The extension test of `loadImage`. */
  predicate IsSupportedFileName(name: string)
  {
    Lower(LastSegment(name)) in SupportedFormats
  }

  /** `name` ends in `ext` (in any case), and that ending is the whole name or follows a '.'. */
  predicate HasExtension(name: string, ext: string)
  {
    && |ext| <= |name|
    && Lower(name[|name| - |ext|..]) == ext
    && (|ext| == |name| || name[|name| - |ext| - 1] == '.')
  }

  /** A dot-free ending that follows a '.' (or is the whole name) is the last segment. */
  lemma {:induction false} LastSegmentIsDotFreeEnding(name: string, n: nat)
    requires n <= |name|
    requires forall i :: |name| - n <= i < |name| ==> name[i] != '.'
    requires n == |name| || name[|name| - n - 1] == '.'
    ensures LastSegment(name) == name[|name| - n..]
  {
    if n > 0 {
      var init, last := name[..|name| - 1], name[|name| - 1];
      assert last != '.';
      assert LastSegment(name) == LastSegment(init) + [last];
      forall i | |init| - (n - 1) <= i < |init|
        ensures init[i] != '.'
      {
        assert init[i] == name[i];
      }
      LastSegmentIsDotFreeEnding(init, n - 1);
      assert name[|name| - n..] == init[|init| - (n - 1)..] + [last];
    }
  }

  /** A file is accepted exactly when its name ends in '.' followed by a supported
      extension in any case, or is itself such an extension. */
  lemma SupportedIffExtension(name: string)
    ensures IsSupportedFileName(name) <==> exists ext :: ext in SupportedFormats && HasExtension(name, ext)
  {
    if IsSupportedFileName(name) {
      SegmentIsExtension(name);
    }
    if ext :| ext in SupportedFormats && HasExtension(name, ext) {
      ExtensionIsSegment(name, ext);
    }
  }

  /** The lower-cased last segment of a name is an extension of it. */
  lemma SegmentIsExtension(name: string)
    ensures HasExtension(name, Lower(LastSegment(name)))
  {
    var seg := LastSegment(name);
    var ext := Lower(seg);
    assert |ext| == |seg|;
    assert name[|name| - |ext|..] == seg;
  }

  /** No supported extension contains a '.'. */
  lemma SupportedHasNoDot(ext: string)
    requires ext in SupportedFormats
    ensures forall i :: 0 <= i < |ext| ==> ext[i] != '.'
  {
  }

  /** A supported extension that a name ends in is its last segment, so the name is
      accepted. */
  lemma ExtensionIsSegment(name: string, ext: string)
    requires ext in SupportedFormats && HasExtension(name, ext)
    ensures IsSupportedFileName(name)
  {
    SupportedHasNoDot(ext);
    DotFreeExtensionIsSegment(name, ext);
  }

  /** A dot-free extension that a name ends in is, lower-cased, its last segment. */
  lemma DotFreeExtensionIsSegment(name: string, ext: string)
    requires HasExtension(name, ext)
    requires forall i :: 0 <= i < |ext| ==> ext[i] != '.'
    ensures Lower(LastSegment(name)) == ext
  {
    DotFreeEnding(name, ext);
    LastSegmentIsDotFreeEnding(name, |ext|);
    assert LastSegment(name) == name[|name| - |ext|..];
  }

  /** A name ending in a dot-free extension has no '.' in that ending: lower-casing keeps
      '.' as it is. */
  lemma DotFreeEnding(name: string, ext: string)
    requires HasExtension(name, ext)
    requires forall i :: 0 <= i < |ext| ==> ext[i] != '.'
    ensures forall i :: |name| - |ext| <= i < |name| ==> name[i] != '.'
  {
    var start := |name| - |ext|;
    var tail := name[start..];
    var lowered := Lower(tail);
    forall i | start <= i < |name|
      ensures name[i] != '.'
    {
      var j := i - start;
      assert tail[j] == name[i];
      assert lowered[j] == ext[j];
      assert LowerChar(tail[j]) != '.';
    }
  }

  /** `Math.round(originalFileSize * (quality / 100))`, the size shown for the resized
      copy, computed on integers. */
  function EstimatedSize(size: nat, quality: int): int
  {
    RoundQuotient(size * quality, 100)
  }

  /** The integer definition is the script's formula over exact numbers. */
  lemma EstimatedSizeIsScriptFormula(size: nat, quality: int)
    ensures EstimatedSize(size, quality) == Round(size as real * (quality as real / 100.0))
  {
    var S, Q := size as real, quality as real;
    CastMul(size, quality);
    QuotientOf(S * Q, 100.0, S * (Q / 100.0));
    RoundQuotientIsRound(size * quality, 100);
  }

  /** For a quality between 0 and 100 the estimate lies between 0 and the original size,
      reaching both ends, and never shrinks as the quality grows. */
  lemma EstimatedSizeBounds(size: nat, quality: int, higher: int)
    requires 0 <= quality <= higher <= 100
    ensures 0 <= EstimatedSize(size, quality) <= EstimatedSize(size, higher) <= size
    ensures EstimatedSize(size, 0) == 0 && EstimatedSize(size, 100) == size
  {
    MulMonotone(quality, higher, size);
    MulMonotone(higher, 100, size);
    RoundQuotientMonotone(0, size * quality, 100);
    RoundQuotientMonotone(size * quality, size * higher, 100);
    RoundQuotientMonotone(size * higher, size * 100, 100);
    RoundQuotientExact(0, 100);
    RoundQuotientExact(size, 100);
  }
}
