# Endpoint availability monitor: the per-domain counters

This project models the bookkeeping core of `run` in `fetchchallenge.py`, a
script that probes a list of HTTP endpoints in passes, sleeping 15 seconds
after each pass (so the period is the pass time plus 15 seconds). The script
keeps two `collections.Counter` maps keyed by domain (the URL's network
location, `urlparse(url).netloc`).
`reqs_per_domain` counts attempts. `UPs_per_domain` counts 2xx responses. After
every pass over the list it prints, for every domain ever seen, the rounded
percentage `round(UPs / reqs * 100)`. The counters are never reset.

Three modules:

- `Rounding`: Python's `round` on the exact rational `100 * ups / total`. It
  gives the nearest integer, and an exact tie goes to the even neighbour. The
  result is proved unique, between 0 and 100, 100 when every attempt was up and
  0 when none was; 2 of 3 gives 67 and 1 of 2 gives 50.
- `Aggregation`: the counters as a value (`Stats`: both maps plus the insertion
  order of the attempt counter's keys, which fixes the report order), and one
  function per part of the loop: `Step` for one endpoint, `Fold` for one pass,
  `Cycles` for several passes, `Report` and `Reports` for what is printed. The
  lemmas state the invariant the loop keeps. The success count never exceeds
  the attempt count. Every attempted domain has a nonzero count, so the report
  never divides by zero. Counters only grow. After `k` completed passes a
  domain has `k` attempts per target with that domain. The `k`-th printed
  report is the report of the counters after the first `k + 1` passes.
- `Monitor`: the class `Counters` holds the two maps (and the key order) as
  fields. Its methods `Record`, `Pass`, `Availability` and `Run` update or read
  them in place; `Pass`, `Availability` and `Run` are the looping methods. Each
  is proved equal to the matching function of `Aggregation`.

A probe result is an input, `Probe = Response(status) | Timeout | TransportError`.
`Response` and `Timeout` are counted as attempts. `TransportError` stands for
any other exception raised by the request. The script catches only
`requests.exceptions.Timeout` (line 54), so such an exception leaves `run`
before line 57. The endpoint is not counted, and the monitor stops. Counting
such errors as failed attempts would need a catch the script does not have, so
the model does not count them. A `Pass` that meets a `TransportError` returns
`completed == false`, and `Run` prints no report for that pass and stops.

## Model

| member | source | states |
|---|---|---|
| `Aggregation.Bump` | fetchchallenge.py:53 | `m[d] += 1` on a Counter: the key set gains `d`, `d` reads one more than before (0 if absent), every other key reads as before |
| `Aggregation.ClassificationExamples` | fetchchallenge.py:52 | 200, 201 and 299 are up; 199, 300 and 404 are not; a timeout is counted but not up; a transport exception is not counted |
| `Aggregation.IsUp` | fetchchallenge.py:52 | a status code is up exactly when it lies in [200, 299] |
| `Aggregation.Completes` | fetchchallenge.py:49-57 | a probe is counted as an attempt exactly when it is a response or a timeout, the one exception caught |
| `Aggregation.Succeeds` | fetchchallenge.py:52-53 | a probe is counted as a success exactly when it is a response with a 2xx status |
| `Aggregation.Get` | fetchchallenge.py:53 | a Counter reads its stored count for a key it holds and 0 for any other key |
| `Aggregation.Empty` | fetchchallenge.py:37-38 | both Counters start with no keys |
| `Aggregation.Fold` | fetchchallenge.py:41-57 | one `for req in targets` pass: `Step` for each target in list order, stopping at the first uncaught exception |
| `Aggregation.FoldPerfect` | fetchchallenge.py:41-57 | a pass whose every probe is 2xx keeps success and attempt counts equal for every domain |
| `Aggregation.Cycles` | fetchchallenge.py:40-57 | the counters after several passes over the same list, carried from pass to pass, the first pass with an uncaught exception being the last |
| `Aggregation.Reports` | fetchchallenge.py:40-65 | everything the loop prints: one report after each completed pass, none after a pass ended by an exception, and nothing after it |
| `Aggregation.ReportsHead` | fetchchallenge.py:40-63 | after a completed first pass the printed reports are that pass's report followed by those of the remaining passes |
| `Aggregation.ReportsAbort` | fetchchallenge.py:49-57 | a first pass ended by an uncaught exception prints nothing and is the last pass run |
| `Aggregation.ReportsAt` | fetchchallenge.py:40-63 | the `k`-th printed report is the report of the counters after the first `k + 1` passes, which satisfy the invariant |
| `Aggregation.AllUpReports` | fetchchallenge.py:40-63 | when every probe of every pass is 2xx, every line of every printed report is 100: availability stays at 100 across passes |
| `Aggregation.EmptyConsistent` | fetchchallenge.py:37-38 | the freshly created counters satisfy the invariant |
| `Aggregation.Step` | fetchchallenge.py:49-57 | one endpoint adds exactly 1 to its domain's attempt count for a response of any status or a timeout, and 1 to its success count exactly for a 2xx response; all other domains keep both counts; the success keys gain the domain exactly on a 2xx response; the key order gains the domain at its end exactly when it is counted for the first time; a transport exception changes nothing |
| `Aggregation.StepConsistent` | fetchchallenge.py:52-57 | after every endpoint step: success ≤ attempts for every domain, success keys ⊆ attempt keys, every attempt count is nonzero, and the key order lists each attempted domain once |
| `Aggregation.FoldConsistent` | fetchchallenge.py:41-57 | a pass keeps that invariant, whatever the probes produced |
| `Aggregation.FoldCounts` | fetchchallenge.py:41-57 | a completed pass adds to a domain's attempt count the number of targets with that domain, and to its success count the number of those with a 2xx response |
| `Aggregation.FoldMonotone` | fetchchallenge.py:41-57 | during a pass neither counter of any domain decreases and the key order only grows at the end |
| `Aggregation.FoldOthersUnchanged` | fetchchallenge.py:41-57 | a pass leaves both counters unchanged for every domain that is not among its targets |
| `Aggregation.CyclesConsistent` | fetchchallenge.py:40-57 | the invariant holds after any number of passes |
| `Aggregation.CyclesAttempts` | fetchchallenge.py:37-57 | counters are cumulative: after `k` completed passes over the same list a domain's attempt count has grown by `k` times the number of its targets |
| `Aggregation.CyclesAttemptsFromStart` | fetchchallenge.py:37-57 | from startup, `k` completed passes give a domain exactly `k` times its number of targets as attempt count |
| `Aggregation.CyclesMonotone` | fetchchallenge.py:40-57 | across passes, including one ended by an exception, neither counter ever decreases |
| `Aggregation.CyclesPerfect` | fetchchallenge.py:40-57 | when every probe of every pass is 2xx, success and attempt counts stay equal for every domain |
| `Aggregation.LineFor` | fetchchallenge.py:62 | the line of an attempted domain carries the correctly rounded value of `100 * ups / reqs`, which lies in [0, 100] |
| `Aggregation.Report` | fetchchallenge.py:60-63 | one line per key of the attempt counter, in insertion order, each the rounded availability of its domain |
| `Aggregation.ReportCovers` | fetchchallenge.py:59-63 | the report names exactly the domains ever attempted, not only those of the last pass, each once, and every percentage is in [0, 100] |
| `Aggregation.ReportExtremes` | fetchchallenge.py:60-62 | a domain with every attempt up reports 100; one with none up reports 0 |
| `Aggregation.PerfectReport` | fetchchallenge.py:60-62 | when success and attempt counts agree everywhere, every line of the report is 100 |
| `Aggregation.ReportsCount` | fetchchallenge.py:40-65 | the loop prints at most one report per pass, and one for every pass exactly when no pass raised an uncaught exception |
| `Aggregation.ExamplePass` | fetchchallenge.py:41-57 | one pass over `a, a, b` with 2xx, 2xx, timeout leaves `a` at 2 of 2 and `b` at 0 of 1, in the order `a, b` |
| `Aggregation.ExampleReport` | fetchchallenge.py:59-63 | those counters report `a` at 100 and `b` at 0 |
| `Aggregation.CycleExample` | fetchchallenge.py:40-63 | the whole first cycle of that example prints exactly `[a: 100, b: 0]`, for any two distinct domains |
| `Rounding.RoundHalfEven` | fetchchallenge.py:62 | the result is within one half of `n / d`, and even when exactly one half away |
| `Rounding.RoundingIsUnique` | fetchchallenge.py:62 | at most one integer satisfies that rounding rule |
| `Rounding.RoundHalfEvenUnique` | fetchchallenge.py:62 | any integer satisfying the rounding rule is the computed one |
| `Rounding.Percent` | fetchchallenge.py:62 | the availability is the correctly rounded (ties to even) value of `100 * ups / total` |
| `Rounding.PercentBounds` | fetchchallenge.py:62 | with `ups <= total` the availability lies in [0, 100]; it is 100 when all attempts were up and 0 when none were |
| `Rounding.PercentExamples` | fetchchallenge.py:62 | 2 of 3 gives 67, 1 of 2 gives 50, and the ties 0.5 and 1.5 round to 0 and 2 |
| `Monitor.Counters.constructor` | fetchchallenge.py:37-38 | both counters and the key order start empty, and the invariant holds |
| `Monitor.Counters.Record` | fetchchallenge.py:49-57 | the in-place update of both maps for one endpoint is `Step`; it keeps the invariant and reports whether the endpoint was counted |
| `Monitor.Counters.Pass` | fetchchallenge.py:41-57 | the in-place pass loop leaves the counters equal to `Fold` of the old ones, keeps the invariant, and completes exactly when no probe raised an uncaught exception |
| `Monitor.Counters.Availability` | fetchchallenge.py:60-63 | the report loop produces exactly `Report` of the current counters, without changing them |
| `Monitor.Counters.Run` | fetchchallenge.py:40-65 | the bounded cycle loop prints exactly `Reports` and leaves the counters equal to `Cycles` of the old ones |
| `Monitor.RunFromStart` | fetchchallenge.py:32-65 | `run` from fresh counters prints `Reports(Empty(), …)`: one report per pass exactly when every pass completes, fewer otherwise |

## Left out

- Loading the YAML target file (fetchchallenge.py:34-35): file I/O and a third-party parser. The model takes the target list as the sequence of the targets' domains.
- The HTTP request (fetchchallenge.py:50-51): a network call. Its outcome is the input `Probe`. The method, headers and body of a target feed only the request, and the method and URL also feed the timeout log line (fetchchallenge.py:55), so they are not modelled. A target's `name` (fetchchallenge.py:42) is read and never used.
- Errors raised before the request: a target with no `name` or `url` key (fetchchallenge.py:42-43), or a URL that `urlparse` rejects (fetchchallenge.py:47), raises an exception that ends `run` mid-pass. These are not modelled separately: a `TransportError` at that target gives the same counters and the same output.
- Extracting the domain with `urlparse(url).netloc` (fetchchallenge.py:47): a library call. Each target is given by its domain.
- The timeout log line (fetchchallenge.py:55), the `logging` setup (fetchchallenge.py:30) and the exact printed text (fetchchallenge.py:61-63): output formatting. The model produces the report as a list of `(domain, percent)` lines.
- `time.sleep(15)` (fetchchallenge.py:65): timing. `Run` goes from one pass to the next directly.
- The infinite `while(True)` (fetchchallenge.py:40): `Run` executes a given finite sequence of passes. The reports of any prefix of an infinite run are covered.
- Rounding.Percent: uses exact rational arithmetic, so it does not model the floating-point error of `(UPs / reqs) * 100` before `round`. The two can differ only when the exact value is within float error of a half.
- What happens after an uncaught transport exception: the script's process ends with a traceback. The model ends the run and keeps the counters as they were before that endpoint.
- The concurrent fan-out discussed in the header note (fetchchallenge.py:6-18): it is not implemented. The code runs sequentially, and so does the model.
