/**
 The monitoring loop of `run`, with its two counters updated in place. The
 probe results of every pass are an input: the HTTP requests themselves are
 not part of this model.
 */
module Monitor {
  import opened Aggregation

  /** The availability counters the loop owns. */
  class Counters {
    /** `reqs_per_domain`: attempts per domain. */
    var reqs: map<Domain, nat>
    /** `UPs_per_domain`: 2xx responses per domain. */
    var ups: map<Domain, nat>
    /** The keys of `reqs_per_domain` in insertion order. */
    var order: seq<Domain>

    function State(): Stats
      reads this
    {
      Stats(reqs, ups, order)
    }

    ghost predicate Valid()
      reads this
    {
      Consistent(State())
    }

    /** Both counters start empty. */
    constructor ()
      ensures Valid() && State() == Empty()
    {
      reqs, ups, order := map[], map[], [];
      EmptyConsistent();
    }

    /**
     Folds in the probe of one endpoint. A TransportError is an exception the
     loop does not catch: nothing is counted and `counted` is false.
     */
    method Record(d: Domain, p: Probe) returns (counted: bool)
      requires Valid()
      modifies this
      ensures Valid()
      ensures counted == Completes(p)
      ensures State() == Step(old(State()), d, p)
    {
      StepConsistent(State(), d, p);
      if p.TransportError? {
        return false;
      }
      if p.Response? && IsUp(p.status) {
        ups := ups[d := Get(ups, d) + 1];
      }
      if d !in reqs {
        order := order + [d];
      }
      reqs := reqs[d := Get(reqs, d) + 1];
      counted := true;
    }

    /**
     One pass over the targets, `probes[i]` being what the request for
     `targets[i]` produced. `completed` is false when a probe raised an
     exception the loop does not catch; the pass stops there.
     */
    method Pass(targets: seq<Domain>, probes: seq<Probe>) returns (completed: bool)
      requires Valid()
      requires |probes| == |targets|
      modifies this
      ensures Valid()
      ensures completed == PassCompletes(probes)
      ensures State() == Fold(old(State()), targets, probes)
    {
      var i := 0;
      while i < |targets|
        invariant 0 <= i <= |targets|
        invariant Valid()
        invariant Fold(State(), targets[i..], probes[i..]) == Fold(old(State()), targets, probes)
        invariant forall j :: 0 <= j < i ==> Completes(probes[j])
      {
        var counted := Record(targets[i], probes[i]);
        if !counted {
          return false;
        }
        assert targets[i..][1..] == targets[i + 1..];
        assert probes[i..][1..] == probes[i + 1..];
        i := i + 1;
      }
      completed := true;
    }

    /**
     The report loop: one line per key of the attempt counter, in insertion
     order, with the rounded availability of that domain.
     */
    method Availability() returns (report: seq<Line>)
      requires Valid()
      ensures report == Report(State())
    {
      report := [];
      var i := 0;
      while i < |order|
        invariant 0 <= i <= |order|
        invariant report == Report(State())[..i]
      {
        var d := order[i];
        assert d in order;
        report := report + [LineFor(State(), d)];
        i := i + 1;
      }
    }

    /**
     The loop of `run`, cut to the given passes: each pass folds its probes
     into the counters and, when it completes, prints the report. A pass
     whose probe raised an uncaught exception ends the run with no report.
     */
    method Run(targets: seq<Domain>, rounds: seq<seq<Probe>>) returns (reports: seq<seq<Line>>)
      requires Valid()
      requires WellFormed(targets, rounds)
      modifies this
      ensures Valid()
      ensures reports == Reports(old(State()), targets, rounds)
      ensures State() == Cycles(old(State()), targets, rounds)
    {
      reports := [];
      var k := 0;
      while k < |rounds|
        invariant 0 <= k <= |rounds|
        invariant Valid()
        invariant WellFormed(targets, rounds[k..])
        invariant reports + Reports(State(), targets, rounds[k..]) == Reports(old(State()), targets, rounds)
        invariant Cycles(State(), targets, rounds[k..]) == Cycles(old(State()), targets, rounds)
      {
        ghost var before, rest := State(), rounds[k..];
        assert rest[0] == rounds[k] && rest[1..] == rounds[k + 1..];
        var completed := Pass(targets, rounds[k]);
        if !completed {
          ReportsAbort(before, targets, rest);
          return;
        }
        ReportsHead(before, targets, rest);
        var report := Availability();
        reports := reports + [report];
        k := k + 1;
      }
    }
  }

  /**
   `run` from startup: fresh counters, then the given passes. The result is
   everything the loop prints.
   */
  method RunFromStart(targets: seq<Domain>, rounds: seq<seq<Probe>>) returns (reports: seq<seq<Line>>)
    requires WellFormed(targets, rounds)
    ensures reports == Reports(Empty(), targets, rounds)
    ensures |reports| <= |rounds|
    ensures |reports| == |rounds| <==> AllComplete(rounds)
  {
    var counters := new Counters();
    reports := counters.Run(targets, rounds);
    EmptyConsistent();
    ReportsCount(Empty(), targets, rounds);
  }
}
