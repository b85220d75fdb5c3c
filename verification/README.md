# wbprom HTTP client path normaliser, in Dafny

The `wbprom` package wraps Prometheus collectors for common kinds of service
instrumentation. Its one piece of real logic is the HTTP client metric's
request-path normaliser, `checkAndCutPath`. It turns a raw request path into a
low-cardinality value for the "path" label. It applies three optional
transforms, always in this order, each to the previous one's output:

1. **query removal**: keep the text before the first `?`;
2. **segment-range slicing**: split on `/`, clamp the bounds `[min, max)` to
   the number of segments, keep that block and re-join it with `/`;
3. **identifier removal**: split on `/`, drop every segment matching
   `^[\d,]+$`, and re-join the rest with `/`.

Without options (a nil `*CuttingPathOpts`) the path is returned unchanged.

The model has six modules:

- `Wrappers` (`wrappers.dfy`): `Option`, standing for Go's nil-able pointers
  and slices.
- `Strings` (`strings.dfy`): Go's `strings.Split` and `strings.Join` for a
  one-character separator. It proves they are inverse: `Join(Split(s)) == s`,
  and `Split(Join(parts)) == parts` for a non-empty list of separator-free
  pieces.
- `Segments` (`segments.dfy`): the identifier predicate `IsId`, which
  replaces the regular expression, and the order-preserving filter
  `KeepNonIds`.
- `CutPath` (`cutpath.dfy`): the options record, the three steps, their
  composition `Normalize`, and the properties of each.
- `CutPathExamples` (`cutpath_examples.dfy`): worked examples of the steps on
  concrete paths, such as "/users/123/orders/45,6" becoming "/users/orders".
- `HttpClient` (`httpclient.dfy`): the metric record and
  `SetCuttingPathOpts`. It also has `CheckAndCutPath`, written statement by
  statement like the Go method (including the filtering loop) and proved
  equal to `Normalize`. `Inc` and `WriteTiming` record under the normalised
  path label.

Go's slice expression `sl[min:max]` panics when the clamped `min` exceeds
`max`, for example with bounds (2, 1) on a path of three segments. The model
makes that case a precondition (`SliceDefined`, `NormalizeDefined`) instead of
inventing a result. `SliceDefinedIff` states exactly when it holds.

## Model

| member | source | states |
|---|---|---|
| Strings.Join | httpclient.go:86-99 | `strings.Join` of no pieces is "" and of one piece is that piece. Otherwise the result starts with the first piece, followed directly by the separator. |
| Strings.JoinCount | httpclient.go:86 | Joining n separator-free pieces puts exactly n - 1 separators into the result. |
| Strings.JoinAppend | httpclient.go:86-99 | Joining two non-empty lists is joining each and putting one separator between them. |
| Strings.JoinInjective | httpclient.go:86 | Two non-empty lists of separator-free pieces with the same join are equal. |
| Strings.Split | httpclient.go:77 | `strings.Split` returns one more piece than there are separators (so never an empty slice). No piece contains the separator, and the pieces joined with the separator give back the input. |
| Strings.SplitJoin | httpclient.go:86 | Splitting the join of a non-empty list of separator-free pieces returns exactly those pieces. So a re-split of a cut path sees the segments that were kept. |
| Strings.JoinChars | httpclient.go:86 | A character other than the separator occurs in a join iff it occurs in one of the joined pieces. |
| Segments.IsId | httpclient.go:91-95 | A segment the pattern `^[\d,]+$` matches contains neither `/` nor `?`, so dropping it never removes a separator or a query. |
| Segments.KeepNonIdsMiddle | httpclient.go:94-98 | An identifier between two non-identifiers is dropped and the other two are kept, in order. |
| Segments.KeepNonIds | httpclient.go:93-98 | The filtered list contains no segment matching `^[\d,]+$` and only segments of the input. It contains every non-matching input segment, empty ones included, and is never longer than the input. A single segment is kept iff it does not match. |
| Segments.KeepNonIdsAppend | httpclient.go:94-98 | Filtering a concatenation is concatenating the filtered parts, so the kept segments keep their relative order. |
| Segments.KeepNonIdsFixed | httpclient.go:94-98 | The filter leaves a list unchanged iff the list has no identifier segment. |
| Segments.KeepNonIdsIdempotent | httpclient.go:94-98 | Filtering twice gives the same list as filtering once. |
| Segments.KeepNonIdsExample | httpclient.go:91-98 | In ["", "users", "123", "orders", "45,6"], "123" and "45,6" are dropped; "", "users" and "orders" are kept in order. |
| CutPath.CutQuery | httpclient.go:72-74 | Query removal gives a prefix of the path with no `?`. That prefix ends where the first `?` stands, and it is the whole path when there is no `?`. |
| CutPath.CutQueryIdempotent | httpclient.go:72-74 | Removing the query twice gives the same path as removing it once. |
| CutPath.CutQueryUnique | httpclient.go:72-74 | A `?`-free prefix of the path that ends at a `?` or at the end of the path is exactly the query-free part. |
| CutPath.CutQueryAppend | httpclient.go:72-74 | For a concatenation x + y: a `?` in x cuts inside x, and otherwise x is kept whole and the cut falls in y. |
| CutPath.CutQueryPastSegment | httpclient.go:72-74 | When the segments up to and including a `?`-free segment d hold no `?`, query removal keeps them and d, and only cuts the segments after d. |
| CutPathExamples.CutQueryExample | httpclient.go:73 | "a/b?x=1" becomes "a/b". |
| CutPath.ClampBounds | httpclient.go:78-85 | The clamped lower bound is at most the last segment index and the clamped upper bound at most the segment count. Bounds already in range are kept. A lower bound at or past the count becomes the last index, and an upper bound past the count becomes the count. |
| CutPath.SlicePath | httpclient.go:76-87 | Slicing introduces no character, other than `/`, that the path did not contain. |
| CutPath.SliceDefined | httpclient.go:86 | Bounds with min <= max never make the slice panic, whatever the path. |
| CutPath.SliceOfJoin | httpclient.go:77-86 | For a path built by joining separator-free segments, the slice is defined iff the clamped bounds are ordered. The slice is then the join of the clamped block of those segments. |
| CutPath.SliceSecondOfTwo | httpclient.go:77-86 | In a path of two segments, slicing from 1 to any upper bound of at least 2 gives the second segment. |
| CutPath.SliceFromZeroShort | httpclient.go:77-86 | Slicing from 0 is always defined, and the result is "" or has at most `hi` segments. |
| CutPath.SliceDefinedIff | httpclient.go:78-86 | `sl[min:max]` does not panic iff min <= max, or the lower bound is at or past the end and the upper bound is at least the last index. |
| CutPathExamples.SliceReversedBoundsPanic | httpclient.go:86 | Bounds (2, 1) on "/a/b" (three segments) make the slice panic. |
| CutPath.SlicePathSegments | httpclient.go:77-86 | The slice is the join of the contiguous block of segments between the clamped bounds. Re-splitting it gives exactly that block, and an empty block gives "". |
| CutPath.SliceLastSegment | httpclient.go:78-86 | When both bounds are at or past the segment count, the result is exactly the last segment. |
| CutPath.SliceWholePath | httpclient.go:82-86 | Bounds (0, n) with n at least the segment count give the path back unchanged. |
| CutPath.SliceEmptyPath | httpclient.go:77-86 | The empty path, sliced from index 0, stays empty for every upper bound. |
| CutPath.SliceFromZeroIdempotent | httpclient.go:76-87 | Slicing from index 0 is idempotent. |
| CutPathExamples.SliceNotIdempotent | httpclient.go:76-87 | Slicing is not idempotent in general: bounds (1, 3) turn "/a/b/c/d" into "a/b", and "a/b" into "b". |
| CutPath.RemoveIds | httpclient.go:89-100 | After identifier removal no segment of the result matches `^[\d,]+$`. There are no more segments than before, and no character other than `/` is introduced. |
| CutPath.RemoveIdsSegments | httpclient.go:92-99 | Re-splitting the result of `RemoveIds` gives exactly the kept segments, in order. When every segment was an identifier, the result is "". |
| CutPath.RemoveIdsOfJoin | httpclient.go:91-99 | For a path built by joining separator-free segments, identifier removal gives the join of the filtered segments. |
| CutPath.RemoveIdsDropsId | httpclient.go:91-99 | An identifier segment between other segments is dropped. The segments before and after it are filtered independently and joined in order. |
| CutPath.RemoveIdsNoop | httpclient.go:89-100 | A path with no identifier segment is left unchanged. |
| CutPath.RemoveIdsIdempotent | httpclient.go:89-100 | Removing identifiers twice gives the same path as removing them once. |
| CutPathExamples.RemoveIdsExample | httpclient.go:89-100 | "/users/123/orders/45,6" becomes "/users/orders". |
| CutPath.Normalize | httpclient.go:67-103 | Without options the path is returned unchanged. With query removal the result has no `?`, even after slicing and filtering. With identifier removal no segment of the result is an identifier. |
| CutPath.NormalizeAllOff | httpclient.go:67-103 | Options with every transform disabled leave every path unchanged. |
| CutPath.NormalizeQueryFree | httpclient.go:72-100 | Without bounds, a path with no `?` is changed only by identifier removal. |
| CutPath.NormalizeIdempotent | httpclient.go:72-102 | Normalising a normalised path with the same options changes nothing when there are no bounds or the lower bound is 0. |
| CutPathExamples.StepOrderMatters | httpclient.go:76-100 | The step order changes results. With bounds (1, 2) and identifier removal, "/1/a" normalises to "", but filtering before slicing would give "a". |
| CutPathExamples.SliceThenRemoveIds | httpclient.go:76-100 | Slicing "/1/a" to [1, 2) leaves the identifier "1", which identifier removal then drops, giving "". |
| CutPathExamples.RemoveIdsThenSlice | httpclient.go:76-100 | Dropping identifiers from "/1/a" first and then slicing [1, 2) gives "a". |
| HttpClient.SetCuttingPathOpts | httpclient.go:62-65 | The options are replaced by the given ones, nil included. No recorded series changes. |
| HttpClient.SetCuttingPathOptsLastWins | httpclient.go:62-65 | When the options are set twice, only the second value matters. |
| HttpClient.CheckAndCutPath | httpclient.go:67-103 | Running the Go method step by step gives exactly the composition identifier-removal ∘ slicing ∘ query-removal. Each step is the identity when disabled, and the filtering loop builds exactly the order-preserving filter. |
| HttpClient.FilterIds | httpclient.go:93-98 | The loop that appends every non-matching segment to `nsl` builds exactly the order-preserving filter of the segments. |
| HttpClient.Inc | httpclient.go:106-108 | Adds exactly one to the request count of the series labelled with the method, the status and the normalised path. No other series changes. |
| HttpClient.WriteTiming | httpclient.go:112-114 | Appends the elapsed time to the latency series labelled with the method, the status and the normalised path. No other series changes. |
| HttpClient.IncWithoutOptsUsesRawPath | httpclient.go:68-70 | Without options, the raw path is the label value that `Inc` counts under. |
| HttpClient.IdSegmentsCollapse | httpclient.go:67-102 | With options set, identifier removal on and no bounds, two paths that differ only in one identifier segment normalise to the same label. Query removal may be on or off, and the segments may hold a `?`: "/users/123/x?y=1" and "/users/456/x?y=1" give the same label. |
| HttpClient.IdJoinRemoved | httpclient.go:72-100 | With options set, identifier removal on and no bounds, an identifier segment is dropped, provided query removal is off or no segment holds a `?`. The label is the join of the filtered segments before and after it. |
| HttpClient.IncCollapsesIds | httpclient.go:106-108 | With options set, identifier removal on and no bounds, two requests whose paths differ only in an identifier segment are counted in the same series, which goes up by two. Without options the raw paths are two labels (`IncWithoutOptsUsesRawPath`). |

## Left out

- Metric construction and registration (`NewHttpClientMetrics` and the other
  constructors, `prometheus.MustRegister`): they only configure the external
  Prometheus library and its global registry. The constant labels, metric
  names and histogram buckets are not part of the model either.
- The forwarding methods of the other metrics (HTTP server, SQL, Redis,
  message queue, worker, counter, gauge, DB gauge): they only pass label
  values on to library calls.
- `ReadStatsFromDB`: it reads `database/sql` pool statistics and converts
  them to floating point.
- `MillisecondsFromStart` / `SecondsFromStart`: they read the wall clock.
  `WriteTiming` takes the elapsed milliseconds as a parameter instead.
- HttpClient.WriteTiming: the histogram's bucketing of observations is not
  modelled. Every observation is kept in a list per label combination.
- Segments.IsId: the regular expression engine is replaced by
  a direct predicate. A segment matches when it is non-empty and made only of
  ASCII digits and commas, as `^[\d,]+$` matches under RE2.
- CutPath.ClampBounds: the option bounds are unbounded naturals. Go converts
  them with `int(...)`, and a value beyond the largest `int` would wrap to a
  negative index and panic; that case is not modelled.
- CutPath.Normalize: a slice that would panic is excluded by a precondition
  (`NormalizeDefined`). The panic itself is not modelled as an outcome.
  The declaration of `Boundaries4CuttingPath` is not part of this model. The
  code indexes it at [0] and [1] after a nil check (httpclient.go:76-82). If
  it is a Go slice, a non-nil slice with fewer than two elements panics there.
  The model's bounds are an optional pair, so that case cannot arise.
- HttpClient.SetCuttingPathOpts: Go stores the caller's pointer
  (httpclient.go:63), so a later change to the caller's options record
  changes the labels of later requests. The model copies the options by
  value, and that aliasing is not modelled.
- Strings.Split: Go splits byte strings and the model splits character
  sequences. The separators `/` and `?` are ASCII, so they never occur inside
  a multi-byte UTF-8 character, and both views give the same pieces.
- Concurrency: the model is sequential. In Go, `SetCuttingPathOpts` writes
  the options field without synchronisation while `Inc` and `WriteTiming`
  read it through `checkAndCutPath`, so a concurrent set races with them.
  Given fixed options, the normaliser itself only reads them, and the
  collectors' thread safety belongs to the Prometheus library.
