/**
 The HTTP client metric: its cutting options, the path normaliser as the
 client runs it (statement by statement, with the filtering loop), and the
 two recording operations, which use the normalised path as the "path"
 label value.
 */
module HttpClient {
  import opened Wrappers
  import opened Strings
  import opened Segments
  import opened CutPath

  /** The variable labels of both collectors: "method", "status", "path". */
  datatype Labels = Labels(httpMethod: string, status: string, path: string)

  /** The metric. `reqs` models the request counter (one count per label
      combination) and `latency` the latency histogram (the observations
      recorded per label combination). The collectors' constant labels and
      buckets are not modelled. */
  datatype HttpClientMetric = HttpClientMetric(
    cuttingPathOpts: Option<CuttingPathOpts>,
    reqs: map<Labels, nat>,
    latency: map<Labels, seq<real>>)

  /** The count recorded under `key` (0 for a series never incremented). */
  function Requests(h: HttpClientMetric, key: Labels): nat
  {
    if key in h.reqs then h.reqs[key] else 0
  }

  /** The latencies recorded under `key`, oldest first. */
  function Observations(h: HttpClientMetric, key: Labels): seq<real>
  {
    if key in h.latency then h.latency[key] else []
  }

  /** Replaces the cutting options; the recorded series are untouched. */
  function SetCuttingPathOpts(h: HttpClientMetric, opts: Option<CuttingPathOpts>): (r: HttpClientMetric)
    ensures r.cuttingPathOpts == opts
    ensures forall key :: Requests(r, key) == Requests(h, key)
    ensures forall key :: Observations(r, key) == Observations(h, key)
  {
    h.(cuttingPathOpts := opts)
  }

  /** Only the last options set matter. */
  lemma SetCuttingPathOptsLastWins(h: HttpClientMetric, a: Option<CuttingPathOpts>, b: Option<CuttingPathOpts>)
    ensures SetCuttingPathOpts(SetCuttingPathOpts(h, a), b) == SetCuttingPathOpts(h, b)
  {
  }

  /** The normaliser as the client runs it: `path` is overwritten by each
      enabled step in turn. It computes exactly `Normalize`, the composition
      of the three steps in their fixed order. */
  method CheckAndCutPath(h: HttpClientMetric, path: string) returns (r: string)
    requires NormalizeDefined(h.cuttingPathOpts, path)
    ensures r == Normalize(h.cuttingPathOpts, path)
  {
    if h.cuttingPathOpts.None? {
      return path;
    }
    var o := h.cuttingPathOpts.value;
    r := path;

    if o.removeQueryInPath {
      r := Split(r, '?')[0];
    }
    assert r == QueryStep(o, path);

    if o.boundaries.Some? {
      var sl := Split(r, '/');
      var min: int := o.boundaries.value.0;
      if min >= |sl| {
        min := |sl| - 1;
      }
      var max: int := o.boundaries.value.1;
      if max > |sl| {
        max := |sl|;
      }
      assert (min, max) == ClampBounds(|sl|, o.boundaries.value.0, o.boundaries.value.1);
      r := Join(sl[min..max], '/');
    }
    assert r == SliceStep(o, QueryStep(o, path));

    if o.removeIdsInPath {
      var nsl := FilterIds(Split(r, '/'));
      r := Join(nsl, '/');
    }
  }

  /** The filtering loop of identifier removal: appends, in order, every
      segment that does not match `^[\d,]+$`. */
  method FilterIds(sl: seq<string>) returns (nsl: seq<string>)
    ensures nsl == KeepNonIds(sl)
  {
    nsl := [];
    for i := 0 to |sl|
      invariant nsl == KeepNonIds(sl[..i])
    {
      if !IsId(sl[i]) {
        nsl := nsl + [sl[i]];
      }
      assert sl[..i + 1] == sl[..i] + [sl[i]];
      KeepNonIdsAppend(sl[..i], [sl[i]]);
    }
    assert sl[..|sl|] == sl;
  }

  /** `Inc`: adds one to the request count of the series labelled with
      `httpMethod`, `code` and the normalised `path`, and to no other series. */
  function Inc(h: HttpClientMetric, httpMethod: string, code: string, path: string): (r: HttpClientMetric)
    requires NormalizeDefined(h.cuttingPathOpts, path)
    ensures r.cuttingPathOpts == h.cuttingPathOpts && r.latency == h.latency
    ensures var key := Labels(httpMethod, code, Normalize(h.cuttingPathOpts, path));
      && Requests(r, key) == Requests(h, key) + 1
      && forall other :: other != key ==> Requests(r, other) == Requests(h, other)
  {
    var key := Labels(httpMethod, code, Normalize(h.cuttingPathOpts, path));
    h.(reqs := h.reqs[key := Requests(h, key) + 1])
  }

  /** `WriteTiming`: appends the elapsed milliseconds to the latency series
      labelled with `httpMethod`, `code` and the normalised `path`, and to no
      other series. The elapsed time is a parameter: the clock is not
      modelled. */
  function WriteTiming(h: HttpClientMetric, elapsedMs: real, httpMethod: string, code: string, path: string): (r: HttpClientMetric)
    requires NormalizeDefined(h.cuttingPathOpts, path)
    ensures r.cuttingPathOpts == h.cuttingPathOpts && r.reqs == h.reqs
    ensures var key := Labels(httpMethod, code, Normalize(h.cuttingPathOpts, path));
      && Observations(r, key) == Observations(h, key) + [elapsedMs]
      && forall other :: other != key ==> Observations(r, other) == Observations(h, other)
  {
    var key := Labels(httpMethod, code, Normalize(h.cuttingPathOpts, path));
    h.(latency := h.latency[key := Observations(h, key) + [elapsedMs]])
  }

  /** Without cutting options the raw path is the label value. */
  lemma IncWithoutOptsUsesRawPath(h: HttpClientMetric, httpMethod: string, code: string, path: string)
    requires h.cuttingPathOpts.None?
    ensures Requests(Inc(h, httpMethod, code, path), Labels(httpMethod, code, path))
         == Requests(h, Labels(httpMethod, code, path)) + 1
  {
  }

  /** Two paths that differ only in one identifier segment normalise to the
      same label when identifier removal is on and no bounds are set. The
      segments may carry a query: query removal cuts both paths at the same
      place, or after the identifier, where it keeps both identifiers. */
  lemma {:induction false} IdSegmentsCollapse(o: CuttingPathOpts, a: seq<string>, d: string, e: string, b: seq<string>)
    requires o.boundaries.None? && o.removeIdsInPath
    requires IsId(d) && IsId(e)
    requires NoSep(a, '/') && NoSep(b, '/')
    ensures NormalizeDefined(Some(o), Join(a + [d] + b, '/'))
    ensures NormalizeDefined(Some(o), Join(a + [e] + b, '/'))
    ensures Normalize(Some(o), Join(a + [d] + b, '/')) == Normalize(Some(o), Join(a + [e] + b, '/'))
  {
    assert '/' !in d && '?' !in d && '/' !in e && '?' !in e by {
      assert forall i :: 0 <= i < |d| ==> IsIdChar(d[i]);
      assert forall i :: 0 <= i < |e| ==> IsIdChar(e[i]);
    }
    if !o.removeQueryInPath {
      RemoveIdsDropsId(a, d, b);
      RemoveIdsDropsId(a, e, b);
    } else if |a| > 0 && '?' in Join(a, '/') {
      QueryInFront(a, d, b);
      QueryInFront(a, e, b);
    } else {
      var cut := QueryCutSegments(b);
      CutQueryPastSegment(a, d, b);
      CutQueryPastSegment(a, e, b);
      RemoveIdsDropsId(a, d, cut);
      RemoveIdsDropsId(a, e, cut);
    }
  }

  /** A `?` in the segments before `d` cuts the path before `d`, so the
      query-free part does not depend on `d`. */
  lemma QueryInFront(a: seq<string>, d: string, b: seq<string>)
    requires |a| > 0 && '?' in Join(a, '/')
    ensures CutQuery(Join(a + [d] + b, '/')) == CutQuery(Join(a, '/'))
  {
    assert a + [d] + b == a + ([d] + b);
    JoinAppend(a, [d] + b, '/');
    CutQueryAppend(Join(a, '/'), ['/'] + Join([d] + b, '/'));
    assert Join(a, '/') + ['/'] + Join([d] + b, '/') == Join(a, '/') + (['/'] + Join([d] + b, '/'));
  }

  /** With identifier removal on and no bounds, a path whose segments are
      `a`, the identifier `d`, then `b`, normalises to the join of the
      non-identifiers of `a` and `b`, when query removal is off or no
      segment holds a `?`. */
  lemma IdJoinRemoved(o: CuttingPathOpts, a: seq<string>, d: string, b: seq<string>)
    requires o.boundaries.None? && o.removeIdsInPath
    requires IsId(d)
    requires NoSep(a, '/') && NoSep(b, '/')
    requires !o.removeQueryInPath || (NoSep(a, '?') && NoSep(b, '?'))
    ensures NormalizeDefined(Some(o), Join(a + [d] + b, '/'))
    ensures Normalize(Some(o), Join(a + [d] + b, '/')) == Join(KeepNonIds(a) + KeepNonIds(b), '/')
  {
    var parts := a + [d] + b;
    var p := Join(parts, '/');
    if o.removeQueryInPath {
      assert '?' !in p by {
        assert '?' !in d by {
          assert forall i :: 0 <= i < |d| ==> IsIdChar(d[i]);
        }
        NoSepAround(a, d, b, '?');
        JoinChars(parts, '/', '?');
      }
      NormalizeQueryFree(o, p);
    }
    RemoveIdsDropsId(a, d, b);
  }

  /** Hence, with identifier removal on and no bounds, two requests whose
      paths differ only in an identifier segment are counted in the same
      series. */
  lemma IncCollapsesIds(h: HttpClientMetric, httpMethod: string, code: string,
                        a: seq<string>, d: string, e: string, b: seq<string>)
    requires h.cuttingPathOpts.Some?
    requires h.cuttingPathOpts.value.boundaries.None? && h.cuttingPathOpts.value.removeIdsInPath
    requires IsId(d) && IsId(e)
    requires NoSep(a, '/') && NoSep(b, '/')
    ensures var p := Join(a + [d] + b, '/');
      var q := Join(a + [e] + b, '/');
      var key := Labels(httpMethod, code, Normalize(h.cuttingPathOpts, p));
      && NormalizeDefined(h.cuttingPathOpts, p)
      && NormalizeDefined(h.cuttingPathOpts, q)
      && Requests(Inc(Inc(h, httpMethod, code, p), httpMethod, code, q), key) == Requests(h, key) + 2
  {
    IdSegmentsCollapse(h.cuttingPathOpts.value, a, d, e, b);
  }
}
