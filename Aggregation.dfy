/**
 The per-domain bookkeeping of the monitoring loop, on values. `Stats` is the
 pair of `collections.Counter` maps (`reqs_per_domain`, `UPs_per_domain`)
 together with the insertion order of the attempt counter's keys, which is the
 order the report walks them in. Everything the loop does to them is a
 function here; the class in module `Monitor` is tied to these functions.
 */
module Aggregation {
  import opened Rounding

  /**
   A domain is the network location of an endpoint's URL: host and port, with
   any `user:password@` part the URL carries.
   */
  type Domain = string

  /**
   What one HTTP request produced: a response with a status code, a timeout
   (the one exception the loop catches), or any other transport exception,
   which the loop does not catch.
   */
  datatype Probe = Response(status: int) | Timeout | TransportError

  /** A status code counts as up exactly when it is a 2xx code. */
  predicate IsUp(status: int)
  {
    200 <= status <= 299
  }

  /** The probe is counted as an attempt: it did not raise an uncaught exception. */
  predicate Completes(p: Probe)
  {
    !p.TransportError?
  }

  /** The probe is counted as a success. */
  predicate Succeeds(p: Probe)
  {
    p.Response? && IsUp(p.status)
  }

  lemma ClassificationExamples()
    ensures Succeeds(Response(200)) && Succeeds(Response(201)) && Succeeds(Response(299))
    ensures !Succeeds(Response(199)) && !Succeeds(Response(300)) && !Succeeds(Response(404))
    ensures !Succeeds(Timeout) && Completes(Timeout) && !Completes(TransportError)
  {
  }

  datatype Stats = Stats(reqs: map<Domain, nat>, ups: map<Domain, nat>, order: seq<Domain>)

  /** A `Counter` reads 0 for a key it does not hold. */
  function Get(m: map<Domain, nat>, d: Domain): nat
  {
    if d in m then m[d] else 0
  }

  /** `m[d] += 1` on a `Counter`. */
  function Bump(m: map<Domain, nat>, d: Domain): (r: map<Domain, nat>)
    ensures r.Keys == m.Keys + {d}
    ensures forall e :: Get(r, e) == Get(m, e) + (if e == d then 1 else 0)
  {
    m[d := Get(m, d) + 1]
  }

  /** The two counters as created at startup. */
  function Empty(): Stats
  {
    Stats(map[], map[], [])
  }

  /**
   The invariant the fold keeps: every domain holding an attempt count has a
   nonzero one, success counts never exceed attempt counts, only domains that
   were attempted have a success count, and `order` lists exactly the attempted
   domains, each once.
   */
  ghost predicate Consistent(s: Stats)
  {
    && (forall d :: d in s.reqs ==> s.reqs[d] > 0)
    && s.ups.Keys <= s.reqs.Keys
    && (forall d :: Get(s.ups, d) <= Get(s.reqs, d))
    && (forall i, j :: 0 <= i < j < |s.order| ==> s.order[i] != s.order[j])
    && (forall d :: d in s.order <==> d in s.reqs)
  }

  lemma EmptyConsistent()
    ensures Consistent(Empty())
  {
  }

  /**
   One endpoint of a pass: a 2xx response bumps the success counter, then the
   attempt counter is bumped whether the response was 2xx, another status, or a
   timeout. An uncaught exception leaves both counters as they were.
   */
  function Step(s: Stats, d: Domain, p: Probe): (r: Stats)
    ensures forall e :: Get(r.reqs, e) == Get(s.reqs, e) + (if e == d && Completes(p) then 1 else 0)
    ensures forall e :: Get(r.ups, e) == Get(s.ups, e) + (if e == d && Succeeds(p) then 1 else 0)
    ensures r.reqs.Keys == if Completes(p) then s.reqs.Keys + {d} else s.reqs.Keys
    ensures r.ups.Keys == if Succeeds(p) then s.ups.Keys + {d} else s.ups.Keys
    ensures r.order == if Completes(p) && d !in s.reqs then s.order + [d] else s.order
  {
    if !Completes(p) then s
    else
      var ups := if Succeeds(p) then Bump(s.ups, d) else s.ups;
      var order := if d in s.reqs then s.order else s.order + [d];
      Stats(Bump(s.reqs, d), ups, order)
  }

  /** Every completed endpoint step keeps the invariant. */
  lemma StepConsistent(s: Stats, d: Domain, p: Probe)
    requires Consistent(s)
    ensures Consistent(Step(s, d, p))
  {
    var r := Step(s, d, p);
    if Completes(p) && d !in s.reqs {
      assert d !in s.order;
      forall i, j | 0 <= i < j < |r.order|
        ensures r.order[i] != r.order[j]
      {
        if j == |s.order| {
          assert r.order[i] == s.order[i];
        }
      }
      forall e
        ensures e in r.order <==> e in r.reqs
      {
        assert e in r.order <==> e in s.order || e == d;
      }
    }
  }

  /**
   One pass over the target list: each target's domain with the probe issued
   for it, in list order. An uncaught exception ends the pass (and the
   monitoring loop) at that target.
   */
  function Fold(s: Stats, targets: seq<Domain>, probes: seq<Probe>): Stats
    requires |probes| == |targets|
    decreases |targets|
  {
    if targets == [] then s
    else if !Completes(probes[0]) then s
    else Fold(Step(s, targets[0], probes[0]), targets[1..], probes[1..])
  }

  /** No probe of the pass raises an uncaught exception. */
  predicate PassCompletes(probes: seq<Probe>)
  {
    forall i :: 0 <= i < |probes| ==> Completes(probes[i])
  }

  /** How many targets of the pass are `d` and got a 2xx response. */
  function UpsAt(targets: seq<Domain>, probes: seq<Probe>, d: Domain): nat
    requires |probes| == |targets|
    decreases |targets|
  {
    if targets == [] then 0
    else (if targets[0] == d && Succeeds(probes[0]) then 1 else 0) + UpsAt(targets[1..], probes[1..], d)
  }

  lemma {:induction false} FoldConsistent(s: Stats, targets: seq<Domain>, probes: seq<Probe>)
    requires |probes| == |targets|
    requires Consistent(s)
    ensures Consistent(Fold(s, targets, probes))
    decreases |targets|
  {
    if targets != [] && Completes(probes[0]) {
      StepConsistent(s, targets[0], probes[0]);
      FoldConsistent(Step(s, targets[0], probes[0]), targets[1..], probes[1..]);
    }
  }

  /**
   A pass that completes adds to each domain's attempt count the number of
   targets with that domain, and to its success count the number of those that
   got a 2xx response.
   */
  lemma {:induction false} FoldCounts(s: Stats, targets: seq<Domain>, probes: seq<Probe>, d: Domain)
    requires |probes| == |targets|
    requires PassCompletes(probes)
    ensures Get(Fold(s, targets, probes).reqs, d) == Get(s.reqs, d) + multiset(targets)[d]
    ensures Get(Fold(s, targets, probes).ups, d) == Get(s.ups, d) + UpsAt(targets, probes, d)
    decreases |targets|
  {
    if targets != [] {
      assert Completes(probes[0]);
      assert targets == [targets[0]] + targets[1..];
      assert PassCompletes(probes[1..]) by {
        forall i | 0 <= i < |probes[1..]| ensures Completes(probes[1..][i]) {
          assert probes[1..][i] == probes[i + 1];
        }
      }
      FoldCounts(Step(s, targets[0], probes[0]), targets[1..], probes[1..], d);
    }
  }

  /** Neither counter ever decreases during a pass, whatever the probes produced. */
  lemma {:induction false} FoldMonotone(s: Stats, targets: seq<Domain>, probes: seq<Probe>, d: Domain)
    requires |probes| == |targets|
    ensures Get(s.reqs, d) <= Get(Fold(s, targets, probes).reqs, d)
    ensures Get(s.ups, d) <= Get(Fold(s, targets, probes).ups, d)
    ensures s.order <= Fold(s, targets, probes).order
    decreases |targets|
  {
    if targets != [] && Completes(probes[0]) {
      FoldMonotone(Step(s, targets[0], probes[0]), targets[1..], probes[1..], d);
    }
  }

  /** A pass leaves the counters of every domain that is not among its targets alone. */
  lemma {:induction false} FoldOthersUnchanged(s: Stats, targets: seq<Domain>, probes: seq<Probe>, d: Domain)
    requires |probes| == |targets|
    requires d !in targets
    ensures Get(Fold(s, targets, probes).reqs, d) == Get(s.reqs, d)
    ensures Get(Fold(s, targets, probes).ups, d) == Get(s.ups, d)
    decreases |targets|
  {
    if targets != [] && Completes(probes[0]) {
      assert d != targets[0];
      FoldOthersUnchanged(Step(s, targets[0], probes[0]), targets[1..], probes[1..], d);
    }
  }

  /** Every pass gives one probe per target. */
  predicate WellFormed(targets: seq<Domain>, rounds: seq<seq<Probe>>)
  {
    forall k :: 0 <= k < |rounds| ==> |rounds[k]| == |targets|
  }

  /** Every pass completes: the loop is still running after the last of them. */
  predicate AllComplete(rounds: seq<seq<Probe>>)
  {
    forall k :: 0 <= k < |rounds| ==> PassCompletes(rounds[k])
  }

  /**
   The counters after the given passes over the same target list, counters
   carried from one pass to the next. The first pass that raises an uncaught
   exception is the last one run.
   */
  function Cycles(s: Stats, targets: seq<Domain>, rounds: seq<seq<Probe>>): Stats
    requires WellFormed(targets, rounds)
    decreases |rounds|
  {
    if rounds == [] then s
    else
      var next := Fold(s, targets, rounds[0]);
      if PassCompletes(rounds[0]) then Cycles(next, targets, rounds[1..]) else next
  }

  lemma {:induction false} CyclesConsistent(s: Stats, targets: seq<Domain>, rounds: seq<seq<Probe>>)
    requires WellFormed(targets, rounds)
    requires Consistent(s)
    ensures Consistent(Cycles(s, targets, rounds))
    decreases |rounds|
  {
    if rounds != [] {
      FoldConsistent(s, targets, rounds[0]);
      if PassCompletes(rounds[0]) {
        CyclesConsistent(Fold(s, targets, rounds[0]), targets, rounds[1..]);
      }
    }
  }

  /**
   Counters are cumulative: after `k` completed passes over the same list, the
   attempt count of `d` has grown by `k` times the number of targets with
   domain `d`.
   */
  lemma {:induction false} CyclesAttempts(s: Stats, targets: seq<Domain>, rounds: seq<seq<Probe>>, d: Domain)
    requires WellFormed(targets, rounds)
    requires AllComplete(rounds)
    ensures Get(Cycles(s, targets, rounds).reqs, d) == Get(s.reqs, d) + |rounds| * multiset(targets)[d]
    decreases |rounds|
  {
    if rounds != [] {
      var next := Fold(s, targets, rounds[0]);
      var m := multiset(targets)[d];
      assert PassCompletes(rounds[0]);
      FoldCounts(s, targets, rounds[0], d);
      TailFacts(targets, rounds);
      CyclesAttempts(next, targets, rounds[1..], d);
      assert Cycles(s, targets, rounds) == Cycles(next, targets, rounds[1..]);
      MulSucc(|rounds[1..]|, m);
    }
  }

  lemma MulSucc(k: nat, m: nat)
    ensures (k + 1) * m == m + k * m
  {
  }

  /** The passes after the first are well formed and complete when all of them are. */
  lemma TailFacts(targets: seq<Domain>, rounds: seq<seq<Probe>>)
    requires rounds != []
    requires WellFormed(targets, rounds)
    ensures WellFormed(targets, rounds[1..])
    ensures AllComplete(rounds) ==> AllComplete(rounds[1..])
  {
    if AllComplete(rounds) {
      forall k | 0 <= k < |rounds[1..]| ensures PassCompletes(rounds[1..][k]) {
        assert rounds[1..][k] == rounds[k + 1];
      }
    }
  }

  /** From startup, `k` completed passes give each domain `k` attempts per target. */
  lemma CyclesAttemptsFromStart(targets: seq<Domain>, rounds: seq<seq<Probe>>, d: Domain)
    requires WellFormed(targets, rounds)
    requires AllComplete(rounds)
    ensures Get(Cycles(Empty(), targets, rounds).reqs, d) == |rounds| * multiset(targets)[d]
  {
    CyclesAttempts(Empty(), targets, rounds, d);
  }

  /** Neither counter ever decreases across passes, even one ended by an exception. */
  lemma {:induction false} CyclesMonotone(s: Stats, targets: seq<Domain>, rounds: seq<seq<Probe>>, d: Domain)
    requires WellFormed(targets, rounds)
    ensures Get(s.reqs, d) <= Get(Cycles(s, targets, rounds).reqs, d)
    ensures Get(s.ups, d) <= Get(Cycles(s, targets, rounds).ups, d)
    decreases |rounds|
  {
    if rounds != [] {
      FoldMonotone(s, targets, rounds[0], d);
      if PassCompletes(rounds[0]) {
        CyclesMonotone(Fold(s, targets, rounds[0]), targets, rounds[1..], d);
      }
    }
  }

  /** Every probe of every pass is a 2xx response. */
  predicate AllUp(rounds: seq<seq<Probe>>)
  {
    forall k, i :: 0 <= k < |rounds| && 0 <= i < |rounds[k]| ==> Succeeds(rounds[k][i])
  }

  /** The success counters agree with the attempt counters everywhere. */
  ghost predicate Perfect(s: Stats)
  {
    forall d :: Get(s.ups, d) == Get(s.reqs, d)
  }

  lemma {:induction false} FoldPerfect(s: Stats, targets: seq<Domain>, probes: seq<Probe>)
    requires |probes| == |targets|
    requires Perfect(s)
    requires forall i :: 0 <= i < |probes| ==> Succeeds(probes[i])
    ensures Perfect(Fold(s, targets, probes))
    decreases |targets|
  {
    if targets != [] {
      assert Succeeds(probes[0]);
      FoldPerfect(Step(s, targets[0], probes[0]), targets[1..], probes[1..]);
    }
  }

  /** With no failure in any pass the success counters stay equal to the attempt counters. */
  lemma {:induction false} CyclesPerfect(s: Stats, targets: seq<Domain>, rounds: seq<seq<Probe>>)
    requires WellFormed(targets, rounds)
    requires Perfect(s)
    requires AllUp(rounds)
    ensures Perfect(Cycles(s, targets, rounds))
    decreases |rounds|
  {
    if rounds != [] {
      assert forall i :: 0 <= i < |rounds[0]| ==> Succeeds(rounds[0][i]);
      FoldPerfect(s, targets, rounds[0]);
      assert PassCompletes(rounds[0]);
      CyclesPerfect(Fold(s, targets, rounds[0]), targets, rounds[1..]);
    }
  }

  /** One printed report line: a domain and its availability percentage. */
  datatype Line = Line(domain: Domain, percent: nat)

  /** The report line of one attempted domain: its availability, in [0, 100]. */
  function LineFor(s: Stats, d: Domain): (l: Line)
    requires Consistent(s) && d in s.reqs
    ensures l.domain == d && l.percent <= 100
    ensures RoundsHalfEven(100 * Get(s.ups, d), s.reqs[d], l.percent)
  {
    PercentBounds(Get(s.ups, d), s.reqs[d]);
    Line(d, Percent(Get(s.ups, d), s.reqs[d]))
  }

  /**
   The report printed after a pass: one line for every domain in the attempt
   counter (every domain ever seen, not only those of the last pass), in the
   counter's insertion order, with its cumulative availability.
   */
  function Report(s: Stats): (r: seq<Line>)
    requires Consistent(s)
    ensures |r| == |s.order|
    ensures forall i :: 0 <= i < |r| ==> r[i] == LineFor(s, s.order[i])
  {
    seq(|s.order|, i requires 0 <= i < |s.order| => assert s.order[i] in s.order; LineFor(s, s.order[i]))
  }

  /**
   The report covers exactly the domains ever attempted, each once, and every
   percentage is the rounded cumulative availability of its domain.
   */
  lemma ReportCovers(s: Stats)
    requires Consistent(s)
    ensures forall i :: 0 <= i < |Report(s)| ==> Report(s)[i].domain in s.reqs
    ensures forall d :: d in s.reqs ==> exists i :: 0 <= i < |Report(s)| && Report(s)[i].domain == d
    ensures forall i, j :: 0 <= i < j < |Report(s)| ==> Report(s)[i].domain != Report(s)[j].domain
    ensures forall i :: 0 <= i < |Report(s)| ==> Report(s)[i].percent <= 100
  {
    var r := Report(s);
    forall d | d in s.reqs
      ensures exists i :: 0 <= i < |r| && r[i].domain == d
    {
      assert d in s.order;
      var i :| 0 <= i < |s.order| && s.order[i] == d;
      assert r[i].domain == d;
    }
  }

  /** A domain all of whose attempts were up reports 100; one with none up reports 0. */
  lemma ReportExtremes(s: Stats, i: nat)
    requires Consistent(s)
    requires i < |Report(s)|
    ensures Get(s.ups, Report(s)[i].domain) == s.reqs[Report(s)[i].domain] ==> Report(s)[i].percent == 100
    ensures Get(s.ups, Report(s)[i].domain) == 0 ==> Report(s)[i].percent == 0
  {
    var l := Report(s)[i];
    PercentBounds(Get(s.ups, l.domain), s.reqs[l.domain]);
    RoundHalfEvenUnique(100 * Get(s.ups, l.domain), s.reqs[l.domain], l.percent);
  }

  /** When every attempt so far was up, every domain reports 100. */
  lemma PerfectReport(s: Stats)
    requires Consistent(s) && Perfect(s)
    ensures forall i :: 0 <= i < |Report(s)| ==> Report(s)[i].percent == 100
  {
    forall i | 0 <= i < |Report(s)|
      ensures Report(s)[i].percent == 100
    {
      ReportExtremes(s, i);
    }
  }

  /**
   The reports printed by the given passes from state `s`: one after each pass
   that completes. A pass ended by an exception prints nothing and ends the run.
   */
  function Reports(s: Stats, targets: seq<Domain>, rounds: seq<seq<Probe>>): seq<seq<Line>>
    requires WellFormed(targets, rounds)
    requires Consistent(s)
    decreases |rounds|
  {
    if rounds == [] then []
    else
      var next := Fold(s, targets, rounds[0]);
      FoldConsistent(s, targets, rounds[0]);
      if PassCompletes(rounds[0]) then [Report(next)] + Reports(next, targets, rounds[1..]) else []
  }

  /** One report per pass exactly when no pass raised an exception. */
  lemma {:induction false} ReportsCount(s: Stats, targets: seq<Domain>, rounds: seq<seq<Probe>>)
    requires WellFormed(targets, rounds)
    requires Consistent(s)
    ensures |Reports(s, targets, rounds)| <= |rounds|
    ensures |Reports(s, targets, rounds)| == |rounds| <==> AllComplete(rounds)
    decreases |rounds|
  {
    if rounds != [] {
      FoldConsistent(s, targets, rounds[0]);
      var next := Fold(s, targets, rounds[0]);
      ReportsCount(next, targets, rounds[1..]);
      if AllComplete(rounds) {
        assert AllComplete(rounds[1..]) by {
          forall k | 0 <= k < |rounds[1..]| ensures PassCompletes(rounds[1..][k]) {
            assert rounds[1..][k] == rounds[k + 1];
          }
        }
      } else if PassCompletes(rounds[0]) {
        var k :| 0 <= k < |rounds| && !PassCompletes(rounds[k]);
        assert !PassCompletes(rounds[1..][k - 1]);
      }
    }
  }

  /** After a completed first pass, the printed reports are its report and those of the rest. */
  lemma ReportsHead(s: Stats, targets: seq<Domain>, rounds: seq<seq<Probe>>)
    requires WellFormed(targets, rounds)
    requires Consistent(s)
    requires rounds != [] && PassCompletes(rounds[0])
    ensures WellFormed(targets, rounds[1..])
    ensures Consistent(Fold(s, targets, rounds[0]))
    ensures Reports(s, targets, rounds)
            == [Report(Fold(s, targets, rounds[0]))] + Reports(Fold(s, targets, rounds[0]), targets, rounds[1..])
    ensures Cycles(s, targets, rounds) == Cycles(Fold(s, targets, rounds[0]), targets, rounds[1..])
  {
    TailFacts(targets, rounds);
    FoldConsistent(s, targets, rounds[0]);
  }

  /** A first pass ended by an exception prints nothing and is the last pass run. */
  lemma ReportsAbort(s: Stats, targets: seq<Domain>, rounds: seq<seq<Probe>>)
    requires WellFormed(targets, rounds)
    requires Consistent(s)
    requires rounds != [] && !PassCompletes(rounds[0])
    ensures Reports(s, targets, rounds) == []
    ensures Cycles(s, targets, rounds) == Fold(s, targets, rounds[0])
  {
  }

  /** Every prefix of well-formed passes is well formed. */
  lemma PrefixWellFormed(targets: seq<Domain>, rounds: seq<seq<Probe>>, n: nat)
    requires WellFormed(targets, rounds) && n <= |rounds|
    ensures WellFormed(targets, rounds[..n])
  {
    forall j | 0 <= j < n ensures |rounds[..n][j]| == |targets| {
      assert rounds[..n][j] == rounds[j];
    }
  }

  /** The first printed report is that of the counters after the first pass. */
  lemma ReportsAtFirst(s: Stats, targets: seq<Domain>, rounds: seq<seq<Probe>>)
    requires WellFormed(targets, rounds)
    requires Consistent(s)
    requires rounds != [] && PassCompletes(rounds[0])
    ensures WellFormed(targets, rounds[..1])
    ensures Consistent(Cycles(s, targets, rounds[..1]))
    ensures Reports(s, targets, rounds)[0] == Report(Cycles(s, targets, rounds[..1]))
  {
    ReportsHead(s, targets, rounds);
    var first := rounds[..1];
    assert first == [rounds[0]] && first[1..] == [];
    PrefixWellFormed(targets, rounds, 1);
    assert Cycles(s, targets, first) == Fold(s, targets, rounds[0]);
  }

  /** The first `k + 1` passes are the first pass followed by the first `k` of the rest. */
  lemma CyclesPrefix(s: Stats, targets: seq<Domain>, rounds: seq<seq<Probe>>, k: nat)
    requires WellFormed(targets, rounds)
    requires 0 < k < |rounds| && PassCompletes(rounds[0])
    ensures WellFormed(targets, rounds[..k + 1]) && WellFormed(targets, rounds[1..][..k])
    ensures Cycles(s, targets, rounds[..k + 1]) == Cycles(Fold(s, targets, rounds[0]), targets, rounds[1..][..k])
  {
    PrefixWellFormed(targets, rounds, k + 1);
    TailFacts(targets, rounds);
    PrefixWellFormed(targets, rounds[1..], k);
    var prefix := rounds[..k + 1];
    assert prefix[0] == rounds[0] && prefix[1..] == rounds[1..][..k];
  }

  /**
   The `k`-th report printed is the report of the counters after the first
   `k + 1` passes: every printed report reflects all passes up to and
   including its own, counters carried from pass to pass.
   */
  lemma {:induction false} ReportsAt(s: Stats, targets: seq<Domain>, rounds: seq<seq<Probe>>, k: nat)
    requires WellFormed(targets, rounds)
    requires Consistent(s)
    requires k < |Reports(s, targets, rounds)|
    ensures k < |rounds| && WellFormed(targets, rounds[..k + 1])
    ensures Consistent(Cycles(s, targets, rounds[..k + 1]))
    ensures Reports(s, targets, rounds)[k] == Report(Cycles(s, targets, rounds[..k + 1]))
    decreases k
  {
    assert rounds != [] && PassCompletes(rounds[0]);
    if k == 0 {
      ReportsAtFirst(s, targets, rounds);
    } else {
      ReportsHead(s, targets, rounds);
      var next := Fold(s, targets, rounds[0]);
      ReportsAt(next, targets, rounds[1..], k - 1);
      CyclesPrefix(s, targets, rounds, k);
    }
  }

  /**
   When every probe of every pass is a 2xx response, every line of every
   printed report is 100: counters accumulate across passes and never reset.
   */
  lemma AllUpReports(s: Stats, targets: seq<Domain>, rounds: seq<seq<Probe>>, k: nat, i: nat)
    requires WellFormed(targets, rounds)
    requires Consistent(s) && Perfect(s)
    requires AllUp(rounds)
    requires k < |Reports(s, targets, rounds)| && i < |Reports(s, targets, rounds)[k]|
    ensures Reports(s, targets, rounds)[k][i].percent == 100
  {
    ReportsAt(s, targets, rounds, k);
    var prefix := rounds[..k + 1];
    assert AllUp(prefix) by {
      forall j, m | 0 <= j < |prefix| && 0 <= m < |prefix[j]| ensures Succeeds(prefix[j][m]) {
        assert prefix[j] == rounds[j];
      }
    }
    CyclesPerfect(s, targets, prefix);
    PerfectReport(Cycles(s, targets, prefix));
  }

  /** The counters after the example pass below. */
  function ExampleStats(a: Domain, b: Domain): Stats
  {
    Stats(map[a := 2, b := 1], map[a := 2], [a, b])
  }

  lemma ExamplePass(a: Domain, b: Domain)
    requires a != b
    ensures Fold(Empty(), [a, a, b], [Response(200), Response(200), Timeout]) == ExampleStats(a, b)
  {
    var t := [a, a, b];
    var p := [Response(200), Response(200), Timeout];
    var s1 := Step(Empty(), a, Response(200));
    assert s1 == Stats(map[a := 1], map[a := 1], [a]);
    var s2 := Step(s1, a, Response(200));
    assert s2 == Stats(map[a := 2], map[a := 2], [a]);
    var s3 := Step(s2, b, Timeout);
    assert s3 == ExampleStats(a, b);
    assert Fold(s3, t[3..], p[3..]) == s3;
    assert Fold(s2, t[2..], p[2..]) == s3;
    assert Fold(s1, t[1..], p[1..]) == s3;
  }

  lemma ExampleReport(a: Domain, b: Domain)
    requires a != b
    ensures Consistent(ExampleStats(a, b))
    ensures Report(ExampleStats(a, b)) == [Line(a, 100), Line(b, 0)]
  {
    var s := ExampleStats(a, b);
    assert Consistent(s);
    PercentBounds(2, 2);
    PercentBounds(0, 1);
    assert Report(s)[0] == Line(a, 100);
    assert Report(s)[1] == Line(b, 0);
  }

  /**
   One cycle over two targets on `a` answering 2xx and one on `b` timing out,
   for any two distinct domains, prints `a` at 100 and `b` at 0.
   */
  lemma CycleExample(a: Domain, b: Domain)
    requires a != b
    ensures Reports(Empty(), [a, a, b], [[Response(200), Response(200), Timeout]])
            == [[Line(a, 100), Line(b, 0)]]
  {
    var t := [a, a, b];
    var p := [Response(200), Response(200), Timeout];
    var rounds := [p];
    ExamplePass(a, b);
    ExampleReport(a, b);
    EmptyConsistent();
    assert PassCompletes(p);
    assert rounds[1..] == [];
    assert Reports(ExampleStats(a, b), t, rounds[1..]) == [];
  }
}
