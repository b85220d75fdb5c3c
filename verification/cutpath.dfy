/**
 The request-path normaliser of the HTTP client metric: three optional
 transforms (query removal, segment-range slicing, identifier removal) that
 always run in this order, each on the previous one's output.
 */
module CutPath {
  import opened Wrappers
  import opened Strings
  import opened Segments

  /** The cutting options. `boundaries`, when present, is the pair
      `[min, max)` of segment indices to keep. */
  datatype CuttingPathOpts = CuttingPathOpts(
    removeQueryInPath: bool,
    boundaries: Option<(nat, nat)>,
    removeIdsInPath: bool)

  /** True iff no segment of `path` is an identifier segment. */
  predicate NoIdSegments(path: string)
  {
    NoIds(Split(path, '/'))
  }

  // ---------------------------------------------------------------------
  // Step 1: query removal
  // ---------------------------------------------------------------------

  /** The text before the first `?` (the first piece of `strings.Split(path, "?")`). */
  function CutQuery(path: string): (r: string)
    ensures r <= path
    ensures '?' !in r
    ensures |r| < |path| ==> path[|r|] == '?'
    ensures '?' !in path ==> r == path
  {
    var parts := Split(path, '?');
    parts[0]
  }

  /** Cutting the query twice is cutting it once. */
  lemma CutQueryIdempotent(path: string)
    ensures CutQuery(CutQuery(path)) == CutQuery(path)
  {
  }

  /** The three facts of `CutQuery`'s contract determine its result. */
  lemma CutQueryUnique(path: string, r: string)
    requires r <= path && '?' !in r
    requires |r| < |path| ==> path[|r|] == '?'
    ensures r == CutQuery(path)
  {
  }

  /** Cutting the query of a concatenation: a `?` in the first part cuts
      there, otherwise the first part is kept whole. */
  lemma CutQueryAppend(x: string, y: string)
    ensures '?' in x ==> CutQuery(x + y) == CutQuery(x)
    ensures '?' !in x ==> CutQuery(x + y) == x + CutQuery(y)
  {
    if '?' in x {
      CutQueryUnique(x + y, CutQuery(x));
    } else {
      CutQueryUnique(x + y, x + CutQuery(y));
    }
  }

  /** The segments left of `parts`' join after query removal ([] for none). */
  function QueryCutSegments(parts: seq<string>): (cut: seq<string>)
    ensures NoSep(cut, '/')
  {
    if |parts| == 0 then [] else Split(CutQuery(Join(parts, '/')), '/')
  }

  /** When no `?` occurs up to and including segment `d`, query removal
      keeps the segments up to `d` and cuts only inside the ones after it. */
  lemma CutQueryPastSegment(a: seq<string>, d: string, b: seq<string>)
    requires '/' !in d && '?' !in d
    requires |a| == 0 || '?' !in Join(a, '/')
    ensures CutQuery(Join(a + [d] + b, '/')) == Join(a + [d] + QueryCutSegments(b), '/')
  {
    var front := Join(a + [d], '/');
    assert '?' !in front by {
      if |a| > 0 {
        JoinAppend(a, [d], '/');
      }
    }
    if |b| == 0 {
      assert a + [d] + b == a + [d];
    } else {
      var cut := QueryCutSegments(b);
      JoinAppend(a + [d], b, '/');
      JoinAppend(a + [d], cut, '/');
      CutQueryAppend(front + ['/'], Join(b, '/'));
    }
  }

  // ---------------------------------------------------------------------
  // Step 2: segment-range slicing
  // ---------------------------------------------------------------------

  /** The bounds as the client clamps them for `n` segments: a lower bound
      past the end becomes the last index, an upper bound past the end
      becomes `n`. */
  function ClampBounds(n: nat, lo: nat, hi: nat): (b: (nat, nat))
    requires n >= 1
    ensures b.0 <= n - 1 && b.1 <= n
    ensures lo < n ==> b.0 == lo
    ensures lo >= n ==> b.0 == n - 1
    ensures hi <= n ==> b.1 == hi
    ensures hi > n ==> b.1 == n
  {
    (if lo >= n then n - 1 else lo, if hi > n then n else hi)
  }

  /** The slice `sl[min:max]` is legal: after clamping, `min <= max`.
      Otherwise the client panics. */
  predicate SliceDefined(path: string, lo: nat, hi: nat)
    ensures lo <= hi ==> SliceDefined(path, lo, hi)
  {
    var b := ClampBounds(|Split(path, '/')|, lo, hi);
    b.0 <= b.1
  }

  /** The segments `[min, max)` of `path`, after clamping, joined with `/`. */
  function SlicePath(path: string, lo: nat, hi: nat): (r: string)
    requires SliceDefined(path, lo, hi)
    ensures forall c :: c != '/' && c in r ==> c in path
  {
    var sl := Split(path, '/');
    var b := ClampBounds(|sl|, lo, hi);
    var r := Join(sl[b.0..b.1], '/');
    assert forall c :: c != '/' && c in r ==> c in path by {
      forall c | c != '/' && c in r
        ensures c in path
      {
        JoinBlockChars(path, '/', b.0, b.1, c);
      }
    }
    r
  }

  /** Well-ordered bounds never make the slice panic; reversed bounds make it
      panic unless the lower bound is clamped down to meet the upper one. */
  lemma SliceDefinedIff(path: string, lo: nat, hi: nat)
    ensures var n := |Split(path, '/')|;
      SliceDefined(path, lo, hi) <==> lo <= hi || (n <= lo && n <= hi + 1)
  {
  }

  /** The slice is the join of the contiguous block `[min, max)` of segments:
      splitting it again gives exactly that block (or nothing is left). */
  lemma SlicePathSegments(path: string, lo: nat, hi: nat)
    requires SliceDefined(path, lo, hi)
    ensures var sl := Split(path, '/');
      var b := ClampBounds(|sl|, lo, hi);
      && (b.0 < b.1 ==> Split(SlicePath(path, lo, hi), '/') == sl[b.0..b.1])
      && (b.0 == b.1 ==> SlicePath(path, lo, hi) == "")
  {
    var sl := Split(path, '/');
    var b := ClampBounds(|sl|, lo, hi);
    if b.0 < b.1 {
      NoSepBlock(sl, b.0, b.1, '/');
      SplitJoin(sl[b.0..b.1], '/');
    }
  }

  /** On a path given as its segments, slicing keeps the clamped block of
      those segments. */
  lemma SliceOfJoin(parts: seq<string>, lo: nat, hi: nat)
    requires |parts| >= 1 && NoSep(parts, '/')
    ensures var b := ClampBounds(|parts|, lo, hi);
      && (SliceDefined(Join(parts, '/'), lo, hi) <==> b.0 <= b.1)
      && (b.0 <= b.1 ==> SlicePath(Join(parts, '/'), lo, hi) == Join(parts[b.0..b.1], '/'))
  {
    SplitJoin(parts, '/');
  }

  /** Slicing from index 1 with an upper bound of at least 2 keeps the second
      of two segments. */
  lemma SliceSecondOfTwo(path: string, x: string, y: string, hi: nat)
    requires '/' !in x && '/' !in y && hi >= 2
    requires path == Join([x, y], '/')
    ensures SliceDefined(path, 1, hi)
    ensures SlicePath(path, 1, hi) == y
  {
    SliceOfJoin([x, y], 1, hi);
    assert [x, y][1..2] == [y];
  }

  /** Both bounds at or past the end give exactly the last segment. */
  lemma SliceLastSegment(path: string, lo: nat, hi: nat)
    requires |Split(path, '/')| <= lo && |Split(path, '/')| <= hi
    ensures SliceDefined(path, lo, hi)
    ensures var sl := Split(path, '/'); SlicePath(path, lo, hi) == sl[|sl| - 1]
  {
    var sl := Split(path, '/');
    var n := |sl|;
    assert ClampBounds(n, lo, hi) == (n - 1, n);
    assert sl[n - 1..n] == [sl[n - 1]];
    assert Join([sl[n - 1]], '/') == sl[n - 1];
  }

  /** Bounds `(0, n)` covering every segment give the path back. */
  lemma SliceWholePath(path: string, hi: nat)
    requires |Split(path, '/')| <= hi
    ensures SliceDefined(path, 0, hi)
    ensures SlicePath(path, 0, hi) == path
  {
    var sl := Split(path, '/');
    assert sl[0..|sl|] == sl;
  }

  /** Slicing from index 0 is idempotent. */
  lemma SliceFromZeroIdempotent(path: string, hi: nat)
    ensures SliceDefined(path, 0, hi)
    ensures SliceDefined(SlicePath(path, 0, hi), 0, hi)
    ensures SlicePath(SlicePath(path, 0, hi), 0, hi) == SlicePath(path, 0, hi)
  {
    var r := SlicePath(path, 0, hi);
    SliceFromZeroShort(path, hi);
    if r == "" {
      SliceEmptyPath(hi);
    } else {
      SliceWholePath(r, hi);
    }
  }

  /** The empty path slices to itself from index 0, whatever the upper bound. */
  lemma SliceEmptyPath(hi: nat)
    ensures SliceDefined("", 0, hi)
    ensures SlicePath("", 0, hi) == ""
  {
    assert Split("", '/') == [""];
  }

  /** Slicing from index 0 leaves at most `hi` segments, or the empty path. */
  lemma SliceFromZeroShort(path: string, hi: nat)
    ensures SliceDefined(path, 0, hi)
    ensures var r := SlicePath(path, 0, hi); r == "" || |Split(r, '/')| <= hi
  {
    SlicePathSegments(path, 0, hi);
  }

  // ---------------------------------------------------------------------
  // Step 3: identifier removal
  // ---------------------------------------------------------------------

  /** The path with every identifier segment dropped, the rest re-joined with `/`. */
  function RemoveIds(path: string): (r: string)
    ensures NoIdSegments(r)
    ensures |Split(r, '/')| <= |Split(path, '/')|
    ensures forall c :: c != '/' && c in r ==> c in path
  {
    KeptJoinFacts(path);
    Join(KeepNonIds(Split(path, '/')), '/')
  }

  /** The facts `RemoveIds` promises, about the join of the kept segments. */
  lemma KeptJoinFacts(path: string)
    ensures var r := Join(KeepNonIds(Split(path, '/')), '/');
      && NoIdSegments(r)
      && |Split(r, '/')| <= |Split(path, '/')|
      && forall c :: c != '/' && c in r ==> c in path
  {
    var r := Join(KeepNonIds(Split(path, '/')), '/');
    KeptSegmentsRoundTrip(path);
    forall c | c != '/' && c in r
      ensures c in path
    {
      KeptChars(path, c);
    }
  }

  /** A character other than `/` in the join of the kept segments of `path`
      occurs in `path`. */
  lemma KeptChars(path: string, c: char)
    requires c != '/'
    ensures c in Join(KeepNonIds(Split(path, '/')), '/') ==> c in path
  {
    var sl := Split(path, '/');
    var kept := KeepNonIds(sl);
    JoinChars(kept, '/', c);
    SplitChars(path, '/', c);
    if c in Join(kept, '/') {
      var i :| 0 <= i < |kept| && c in kept[i];
      var j :| 0 <= j < |sl| && sl[j] == kept[i];
    }
  }

  /** Re-splitting the join of the kept segments of `path` gives them back. */
  lemma KeptSegmentsRoundTrip(path: string)
    ensures var kept := KeepNonIds(Split(path, '/'));
      && (|kept| > 0 ==> Split(Join(kept, '/'), '/') == kept)
      && (|kept| == 0 ==> Join(kept, '/') == "")
  {
    var kept := KeepNonIds(Split(path, '/'));
    if |kept| > 0 {
      assert NoSep(kept, '/') by {
        var sl := Split(path, '/');
        forall i | 0 <= i < |kept|
          ensures '/' !in kept[i]
        {
          var j :| 0 <= j < |sl| && sl[j] == kept[i];
        }
      }
      SplitJoin(kept, '/');
    }
  }

  /** The segments of the result are the kept segments, in order; when every
      segment was an identifier the result is the empty path. */
  lemma RemoveIdsSegments(path: string)
    ensures var kept := KeepNonIds(Split(path, '/'));
      && (|kept| > 0 ==> Split(RemoveIds(path), '/') == kept)
      && (|kept| == 0 ==> RemoveIds(path) == "")
  {
    KeptSegmentsRoundTrip(path);
  }

  /** On a path given as its segments, identifier removal filters exactly
      those segments. */
  lemma RemoveIdsOfJoin(parts: seq<string>)
    requires |parts| >= 1 && NoSep(parts, '/')
    ensures RemoveIds(Join(parts, '/')) == Join(KeepNonIds(parts), '/')
  {
    SplitJoin(parts, '/');
  }

  /** An identifier segment between separator-free segments is dropped and
      the segments around it are filtered independently. */
  lemma RemoveIdsDropsId(a: seq<string>, d: string, b: seq<string>)
    requires IsId(d)
    requires NoSep(a, '/') && NoSep(b, '/')
    ensures RemoveIds(Join(a + [d] + b, '/')) == Join(KeepNonIds(a) + KeepNonIds(b), '/')
  {
    var parts := a + [d] + b;
    assert '/' !in d by {
      assert forall i :: 0 <= i < |d| ==> IsIdChar(d[i]);
    }
    NoSepAround(a, d, b, '/');
    RemoveIdsOfJoin(parts);
    assert KeepNonIds(parts) == KeepNonIds(a) + KeepNonIds(b) by {
      KeepNonIdsAppend(a + [d], b);
      KeepNonIdsAppend(a, [d]);
      assert KeepNonIds([d]) == [];
      assert KeepNonIds(a) + [] == KeepNonIds(a);
    }
  }

  /** A path without identifier segments is left unchanged. */
  lemma RemoveIdsNoop(path: string)
    requires NoIdSegments(path)
    ensures RemoveIds(path) == path
  {
    KeepNonIdsFixed(Split(path, '/'));
  }

  /** Removing identifiers twice is removing them once. */
  lemma RemoveIdsIdempotent(path: string)
    ensures RemoveIds(RemoveIds(path)) == RemoveIds(path)
  {
    RemoveIdsNoop(RemoveIds(path));
  }

  // ---------------------------------------------------------------------
  // The normaliser
  // ---------------------------------------------------------------------

  /** Step 1 when enabled, otherwise the identity. */
  function QueryStep(o: CuttingPathOpts, path: string): string
  {
    if o.removeQueryInPath then CutQuery(path) else path
  }

  predicate SliceStepDefined(o: CuttingPathOpts, path: string)
  {
    o.boundaries.Some? ==> SliceDefined(path, o.boundaries.value.0, o.boundaries.value.1)
  }

  /** Step 2 when bounds are present, otherwise the identity. */
  function SliceStep(o: CuttingPathOpts, path: string): string
    requires SliceStepDefined(o, path)
  {
    if o.boundaries.Some? then SlicePath(path, o.boundaries.value.0, o.boundaries.value.1) else path
  }

  /** Step 3 when enabled, otherwise the identity. */
  function IdStep(o: CuttingPathOpts, path: string): string
  {
    if o.removeIdsInPath then RemoveIds(path) else path
  }

  /** The normaliser does not panic on `path`. */
  predicate NormalizeDefined(opts: Option<CuttingPathOpts>, path: string)
  {
    opts.Some? ==> SliceStepDefined(opts.value, QueryStep(opts.value, path))
  }

  /** The path label for `path`: unchanged without options, otherwise query
      removal, then slicing, then identifier removal. */
  function Normalize(opts: Option<CuttingPathOpts>, path: string): (r: string)
    requires NormalizeDefined(opts, path)
    ensures opts.None? ==> r == path
    ensures opts.Some? && opts.value.removeQueryInPath ==> '?' !in r
    ensures opts.Some? && opts.value.removeIdsInPath ==> NoIdSegments(r)
  {
    match opts
    case None => path
    case Some(o) =>
      var p1 := QueryStep(o, path);
      var p2 := SliceStep(o, p1);
      IdStep(o, p2)
  }

  /** Options with no transform enabled leave every path unchanged. */
  lemma NormalizeAllOff(path: string)
    ensures NormalizeDefined(Some(CuttingPathOpts(false, None, false)), path)
    ensures Normalize(Some(CuttingPathOpts(false, None, false)), path) == path
  {
  }

  /** Without bounds, a path with no `?` is only subject to identifier removal. */
  lemma NormalizeQueryFree(o: CuttingPathOpts, path: string)
    requires o.boundaries.None? && '?' !in path
    ensures NormalizeDefined(Some(o), path)
    ensures Normalize(Some(o), path) == IdStep(o, path)
  {
  }

  /** Normalising a normalised path changes nothing, as long as slicing (if
      any) starts at index 0. */
  lemma NormalizeIdempotent(opts: Option<CuttingPathOpts>, path: string)
    requires NormalizeDefined(opts, path)
    requires opts.Some? && opts.value.boundaries.Some? ==> opts.value.boundaries.value.0 == 0
    ensures NormalizeDefined(opts, Normalize(opts, path))
    ensures Normalize(opts, Normalize(opts, path)) == Normalize(opts, path)
  {
    if opts.Some? {
      var o := opts.value;
      var p2 := SliceStep(o, QueryStep(o, path));
      var r := IdStep(o, p2);
      assert QueryStep(o, r) == r;
      if o.boundaries.Some? {
        var hi := o.boundaries.value.1;
        SliceFromZeroShort(QueryStep(o, path), hi);
        assert r == "" || |Split(r, '/')| <= hi;
        if r == "" {
          SliceEmptyPath(hi);
        } else {
          SliceWholePath(r, hi);
        }
      }
      assert SliceStep(o, r) == r;
      if o.removeIdsInPath {
        RemoveIdsIdempotent(p2);
      }
    }
  }
}
