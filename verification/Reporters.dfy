/**
 Processors at work side by side: each one scrapes its counts, adds the number of datapoints
 to the shared counts, and takes part in the election of the one that reports the shared
 counts; the reporter counts its report, which copies the counts, and sends it on. Steps are
 as long as the locks are held, so anything may happen between them. HTTP requests to a
 processor that only counts logs report the same counts, without an election.
 */
module Reporters {
  import opened Wrappers
  import opened SelfReport

  type Counts = map<string, nat>

  /** The copied counts, and how many events had happened by then. */
  datatype Report = Report(counts: Counts, at: nat)

  /** The shared counts, what has happened to them, and the reports copied from them. */
  datatype Ledger = Ledger(shared: Counts, events: seq<Event>, reports: seq<Report>)

  /** Where the scrape of a processor is; a report is named by its place in the ledger. */
  datatype Pc =
    | Idle
    | Scraped(datapoints: nat)
    | Counted
    | Elected
    | Holding(report: nat)

  /** `keys` are those that the processor has counted datapoints under. */
  datatype Proc = Proc(participates: bool, keys: set<string>, pc: Pc)

  datatype Path = Pipeline | Http

  datatype Sent = Sent(path: Path, report: nat)

  datatype State = State(
    ledger: Ledger,
    procs: map<nat, Proc>,
    requests: map<nat, nat>,
    reporter: Option<nat>,
    sent: seq<Sent>)

  datatype Action =
    | Start(proc: nat, participates: bool)
    | Receive(proc: nat, key: string)
    | Step(proc: nat)
    | Stop(proc: nat, resets: bool)
    | ScrapeLogs(name: string, n: nat)
    | Request(id: nat)
    | Answer(id: nat)

  const Initial: State := State(Ledger(map[], [], []), map[], map[], None, [])

  // ---- The ledger

  function Generate(l: Ledger, name: string, n: nat): Ledger {
    l.(shared := l.shared[name := CountOf(l.shared, name) + n], events := l.events + [Generated(name, n)])
  }

  /** The locked part of a report: it is counted, and then the counts are copied. */
  function CountReport(l: Ledger): Ledger {
    var shared := Bumped(l.shared, DATAPOINTS);
    Ledger(shared, l.events + [Reported], l.reports + [Report(shared, |l.events| + 1)])
  }

  // ---- The steps

  function WithProc(s: State, c: nat, pc: Pc): State
    requires c in s.procs
  {
    s.(procs := s.procs[c := s.procs[c].(pc := pc)])
  }

  /** The next step of a processor's scrape. */
  function Advance(s: State, c: nat): State
    requires c in s.procs
  {
    match s.procs[c].pc
    case Idle => WithProc(s, c, Scraped(|s.procs[c].keys|))
    case Scraped(n) =>
      if s.procs[c].participates then WithProc(s.(ledger := Generate(s.ledger, DATAPOINTS, n)), c, Counted)
        else WithProc(s, c, Idle)
    case Counted =>
      var reporter := if s.reporter.None? then Some(c) else s.reporter;
      WithProc(s.(reporter := reporter), c, if reporter == Some(c) then Elected else Idle)
    case Elected => WithProc(s.(ledger := CountReport(s.ledger)), c, Holding(|s.ledger.reports|))
    case Holding(k) => WithProc(s.(sent := s.sent + [Sent(Pipeline, k)]), c, Idle)
  }

  function Do(s: State, a: Action): State {
    match a
    case Start(c, participates) =>
      if c in s.procs then s else s.(procs := s.procs[c := Proc(participates, {}, Idle)])
    case Receive(c, key) =>
      if c !in s.procs then s
      else
        var p := s.procs[c];
        s.(procs := s.procs[c := p.(keys := p.keys + {key})])
    case Step(c) => if c in s.procs then Advance(s, c) else s
    case Stop(c, resets) =>
      // the loop of a processor has ended before it gives up being the reporter
      if c !in s.procs || !s.procs[c].pc.Idle? then s
      else s.(procs := s.procs - {c}, reporter := if resets && s.reporter == Some(c) then None else s.reporter)
    case ScrapeLogs(name, n) => s.(ledger := Generate(s.ledger, name, n))
    case Request(id) =>
      if id in s.requests then s
      else s.(ledger := CountReport(s.ledger), requests := s.requests[id := |s.ledger.reports|])
    case Answer(id) =>
      if id !in s.requests then s
      else s.(requests := s.requests - {id}, sent := s.sent + [Sent(Http, s.requests[id])])
  }

  function Exec(s: State, actions: seq<Action>): State {
    if actions == [] then s else Do(Exec(s, actions[..|actions| - 1]), actions[|actions| - 1])
  }

  // ---- The ledger is true

  /** Every count of `a` is in `b`, and no larger there. */
  predicate Below(a: Counts, b: Counts) {
    forall name | name in a :: name in b && a[name] <= b[name]
  }

  /** It was counted last, and shows the totals up to and including itself. */
  ghost predicate Truthful(r: Report, events: seq<Event>) {
    1 <= r.at <= |events| && events[r.at - 1].Reported? && Agrees(r.counts, events[..r.at])
  }

  /** A report shows the datapoints of reports, its own included. */
  predicate ShowsReports(counts: Counts) {
    DATAPOINTS in counts
  }

  /** A later report shows everything an earlier one does, and more datapoints of reports. */
  predicate ShowsMore(a: Counts, b: Counts) {
    Below(a, b) && ShowsReports(a) && ShowsReports(b) && a[DATAPOINTS] < b[DATAPOINTS]
  }

  ghost predicate Ascend(reports: seq<Report>) {
    forall i, j | 0 <= i < j < |reports| :: ShowsMore(reports[i].counts, reports[j].counts)
  }

  ghost predicate TrueLedger(l: Ledger) {
    && Agrees(l.shared, l.events) && Ascend(l.reports)
    && (forall r | r in l.reports :: Below(r.counts, l.shared) && ShowsReports(r.counts))
    && (forall r | r in l.reports :: Truthful(r, l.events))
  }

  lemma StillBelow(reports: seq<Report>, a: Counts, b: Counts)
    requires (forall r | r in reports :: Below(r.counts, a)) && Below(a, b)
    ensures forall r | r in reports :: Below(r.counts, b)
  {
  }

  lemma StillTrue(r: Report, events: seq<Event>, e: Event)
    requires Truthful(r, events)
    ensures Truthful(r, events + [e])
  {
    assert (events + [e])[..r.at] == events[..r.at];
  }

  lemma GenerateIsTrue(l: Ledger, name: string, n: nat)
    requires TrueLedger(l)
    ensures TrueLedger(Generate(l, name, n))
  {
    var m := Generate(l, name, n);
    AgreesAfterUpdate(l.shared, l.events, name, n);
    StillBelow(l.reports, l.shared, m.shared);
    forall r | r in l.reports
      ensures Truthful(r, m.events)
    {
      StillTrue(r, l.events, Generated(name, n));
    }
  }

  lemma AscendMore(reports: seq<Report>, r: Report)
    requires Ascend(reports) && forall q | q in reports :: ShowsMore(q.counts, r.counts)
    ensures Ascend(reports + [r])
  {
  }

  lemma NewReportIsTrue(l: Ledger)
    requires Agrees(l.shared, l.events)
    ensures Below(l.shared, CountReport(l).shared) && Agrees(CountReport(l).shared, CountReport(l).events)
    ensures Truthful(Report(CountReport(l).shared, |l.events| + 1), CountReport(l).events)
  {
    AgreesAfterReport(l.shared, l.events);
    var events := l.events + [Reported];
    assert events[..|events|] == events;
  }

  lemma BumpedIsMore(shared: Counts, name: string)
    ensures name in Bumped(shared, name) && Bumped(shared, name)[name] > CountOf(shared, name)
  {
    assert name in shared.Keys + {name};
    assert |shared.Keys + {name}| >= 1;
  }

  lemma CountReportIsTrue(l: Ledger)
    requires TrueLedger(l)
    ensures TrueLedger(CountReport(l))
  {
    var m := CountReport(l);
    NewReportIsTrue(l);
    BumpedIsMore(l.shared, DATAPOINTS);
    forall r | r in l.reports
      ensures Truthful(r, m.events) && ShowsMore(r.counts, m.shared)
    {
      StillTrue(r, l.events, Reported);
    }
    AscendMore(l.reports, Report(m.shared, |m.events|));
  }

  /** The three things a step can do to the ledger. */
  ghost predicate LedgerMoves(l: Ledger, m: Ledger) {
    m == l || m == CountReport(l) || exists name, n :: m == Generate(l, name, n)
  }

  lemma StepMovesLedger(s: State, a: Action)
    ensures LedgerMoves(s.ledger, Do(s, a).ledger)
  {
    if a.ScrapeLogs? {
      assert Do(s, a).ledger == Generate(s.ledger, a.name, a.n);
    } else if a.Step? && a.proc in s.procs && s.procs[a.proc].pc.Scraped? && s.procs[a.proc].participates {
      assert Do(s, a).ledger == Generate(s.ledger, DATAPOINTS, s.procs[a.proc].pc.datapoints);
    }
  }

  lemma MovedLedgerIsTrue(l: Ledger, m: Ledger)
    requires TrueLedger(l) && LedgerMoves(l, m)
    ensures TrueLedger(m)
  {
    if m == CountReport(l) {
      CountReportIsTrue(l);
    } else if m != l {
      var name, n :| m == Generate(l, name, n);
      GenerateIsTrue(l, name, n);
    }
  }

  lemma {:induction false} LedgerStaysTrue(actions: seq<Action>)
    ensures TrueLedger(Exec(Initial, actions).ledger)
  {
    if actions != [] {
      var n := |actions| - 1;
      var s := Exec(Initial, actions[..n]);
      LedgerStaysTrue(actions[..n]);
      StepMovesLedger(s, actions[n]);
      MovedLedgerIsTrue(s.ledger, Do(s, actions[n]).ledger);
    }
  }

  // ---- The reporter is one

  predicate Reporting(pc: Pc) {
    pc.Elected? || pc.Holding?
  }

  predicate OneReporter(s: State) {
    forall c | c in s.procs && Reporting(s.procs[c].pc) :: s.reporter == Some(c)
  }

  /** The reports sent along the pipeline come in the order they were counted, and before the one that is held. */
  predicate InOrder(s: State) {
    && (forall i, j | 0 <= i < j < |s.sent| && s.sent[i].path.Pipeline? && s.sent[j].path.Pipeline? ::
        s.sent[i].report < s.sent[j].report)
    && (forall e | e in s.sent :: e.report < |s.ledger.reports|)
    && (forall c, e | c in s.procs && s.procs[c].pc.Holding? && e in s.sent && e.path.Pipeline? ::
        e.report < s.procs[c].pc.report)
  }

  predicate Known(s: State) {
    && (forall c | c in s.procs && s.procs[c].pc.Holding? :: s.procs[c].pc.report < |s.ledger.reports|)
    && (forall id | id in s.requests :: s.requests[id] < |s.ledger.reports|)
  }

  predicate Fits(s: State) {
    OneReporter(s) && InOrder(s) && Known(s)
  }

  /** Nothing is sent, and what is held was held before or has just been counted. */
  lemma FrameFits(s: State, t: State)
    requires Fits(s) && t.sent == s.sent && |s.ledger.reports| <= |t.ledger.reports|
    requires forall c | c in t.procs && Reporting(t.procs[c].pc) :: t.reporter == Some(c)
    requires forall c | c in t.procs && t.procs[c].pc.Holding? ::
               || (c in s.procs && t.procs[c].pc == s.procs[c].pc)
               || |s.ledger.reports| <= t.procs[c].pc.report < |t.ledger.reports|
    requires forall id | id in t.requests ::
               (id in s.requests && t.requests[id] == s.requests[id]) || t.requests[id] < |t.ledger.reports|
    ensures Fits(t)
  {
  }

  lemma SendFits(s: State, c: nat)
    requires Fits(s) && c in s.procs && s.procs[c].pc.Holding?
    ensures Fits(Advance(s, c))
  {
    var t := Advance(s, c);
    forall d | d in t.procs
      ensures !t.procs[d].pc.Holding?
    {
      assert d != c ==> !Reporting(s.procs[d].pc);
    }
  }

  lemma AnswerFits(s: State, id: nat)
    requires Fits(s)
    ensures Fits(Do(s, Answer(id)))
  {
  }

  lemma AdvanceFits(s: State, c: nat)
    requires Fits(s) && c in s.procs
    ensures Fits(Advance(s, c))
  {
    match s.procs[c].pc
    case Idle => FrameFits(s, Advance(s, c));
    case Scraped(_) => FrameFits(s, Advance(s, c));
    case Counted => FrameFits(s, Advance(s, c));
    case Elected => FrameFits(s, Advance(s, c));
    case Holding(_) => SendFits(s, c);
  }

  lemma StopFits(s: State, c: nat, resets: bool)
    requires Fits(s)
    ensures Fits(Do(s, Stop(c, resets)))
  {
    FrameFits(s, Do(s, Stop(c, resets)));
  }

  lemma ReceiveFits(s: State, c: nat, key: string)
    requires Fits(s)
    ensures Fits(Do(s, Receive(c, key)))
  {
    FrameFits(s, Do(s, Receive(c, key)));
  }

  lemma RequestFits(s: State, id: nat)
    requires Fits(s)
    ensures Fits(Do(s, Request(id)))
  {
    FrameFits(s, Do(s, Request(id)));
  }

  lemma DoFits(s: State, a: Action)
    requires Fits(s)
    ensures Fits(Do(s, a))
  {
    match a
    case Step(c) =>
      if c in s.procs {
        AdvanceFits(s, c);
      }
    case Start(_, _) => FrameFits(s, Do(s, a));
    case ScrapeLogs(_, _) => FrameFits(s, Do(s, a));
    case Stop(c, resets) => StopFits(s, c, resets);
    case Receive(c, key) => ReceiveFits(s, c, key);
    case Request(id) => RequestFits(s, id);
    case Answer(id) => AnswerFits(s, id);
  }

  lemma {:induction false} FitsThroughout(actions: seq<Action>)
    ensures Fits(Exec(Initial, actions))
  {
    if actions != [] {
      var n := |actions| - 1;
      FitsThroughout(actions[..n]);
      DoFits(Exec(Initial, actions[..n]), actions[n]);
    }
  }

  // ---- What is reported

  function CountsSent(s: State, i: nat): Counts
    requires i < |s.sent| && s.sent[i].report < |s.ledger.reports|
  {
    s.ledger.reports[s.sent[i].report].counts
  }

  /** Everything sent is a report in the ledger. */
  lemma SentIsKnown(actions: seq<Action>, i: nat)
    requires i < |Exec(Initial, actions).sent|
    ensures var s := Exec(Initial, actions); s.sent[i].report < |s.ledger.reports|
  {
    FitsThroughout(actions);
    var s := Exec(Initial, actions);
    assert s.sent[i] in s.sent;
  }

  lemma ReportsOrdered(reports: seq<Report>, a: nat, b: nat)
    requires Ascend(reports) && a < |reports| && b < |reports|
    ensures Below(reports[a].counts, reports[b].counts) <==> a <= b
  {
    if b < a {
      assert ShowsMore(reports[b].counts, reports[a].counts);
    } else if a < b {
      assert ShowsMore(reports[a].counts, reports[b].counts);
    }
  }

  /**
   In every run, of any two reports sent by any path: the one shows every count of the other,
   and none smaller, exactly if it was counted no earlier.
   */
  lemma ReportsAscendIff(actions: seq<Action>, i: nat, j: nat)
    requires i < |Exec(Initial, actions).sent| && j < |Exec(Initial, actions).sent|
    ensures var s := Exec(Initial, actions);
            && s.sent[i].report < |s.ledger.reports| && s.sent[j].report < |s.ledger.reports|
            && (Below(CountsSent(s, i), CountsSent(s, j)) <==> s.sent[i].report <= s.sent[j].report)
  {
    SentIsKnown(actions, i);
    SentIsKnown(actions, j);
    LedgerStaysTrue(actions);
    var s := Exec(Initial, actions);
    ReportsOrdered(s.ledger.reports, s.sent[i].report, s.sent[j].report);
  }

  /**
   So, whoever is elected and however often that changes: of two reports that go along the
   pipeline, the later one has every count of the earlier one, and none is smaller.
   */
  lemma ReportsNeverDecrease(actions: seq<Action>, i: nat, j: nat)
    requires var sent := Exec(Initial, actions).sent;
             i < j < |sent| && sent[i].path.Pipeline? && sent[j].path.Pipeline?
    ensures var s := Exec(Initial, actions);
            && s.sent[i].report < s.sent[j].report < |s.ledger.reports| && Below(CountsSent(s, i), CountsSent(s, j))
  {
    FitsThroughout(actions);
    ReportsAscendIff(actions, i, j);
  }

  /**
   Every report shows, for every name, how many datapoints had been generated when it was counted,
   its own included.
   */
  lemma ReportsShowTotals(actions: seq<Action>, i: nat)
    requires i < |Exec(Initial, actions).sent|
    ensures var s := Exec(Initial, actions);
            && s.sent[i].report < |s.ledger.reports|
            && var r := s.ledger.reports[s.sent[i].report];
               && 1 <= r.at <= |s.ledger.events| && s.ledger.events[r.at - 1].Reported?
               && r.counts.Keys == Names(s.ledger.events[..r.at])
               && (forall name | name in r.counts :: r.counts[name] == Total(s.ledger.events[..r.at], name))
  {
    FitsThroughout(actions);
    LedgerStaysTrue(actions);
    var s := Exec(Initial, actions);
    assert s.sent[i] in s.sent;
    assert s.ledger.reports[s.sent[i].report] in s.ledger.reports;
  }

  // ---- What a scrape adds

  /**
   A scrape adds as many datapoints as the processor has counted keys, if the processor takes part,
   and then the processor can be elected; otherwise it adds nothing.
   */
  lemma ScrapeIsCounted(s: State, c: nat)
    requires c in s.procs && s.procs[c].pc.Idle?
    ensures var t := Do(Do(s, Step(c)), Step(c));
            if s.procs[c].participates
            then && c in t.procs && t.procs[c].pc.Counted?
                 && DATAPOINTS == "telemetry_stats_datapoints_total" && DATAPOINTS in t.ledger.shared
                 && t.ledger.shared[DATAPOINTS] == CountOf(s.ledger.shared, DATAPOINTS) + |s.procs[c].keys|
                 && (forall name | name != DATAPOINTS ::
                     CountOf(t.ledger.shared, name) == CountOf(s.ledger.shared, name))
                 && t.ledger.events == s.ledger.events + [Generated(DATAPOINTS, |s.procs[c].keys|)]
            else t.ledger == s.ledger && c in t.procs && t.procs[c].pc.Idle?
  {
    assert Do(s, Step(c)).procs[c].pc == Scraped(|s.procs[c].keys|);
  }

  /** A processor that has stopped is no longer there, and somebody else can be elected if it gives that up. */
  lemma ReporterIsFreed(s: State, c: nat, resets: bool)
    requires c in s.procs && s.procs[c].pc.Idle?
    ensures var t := Do(s, Stop(c, resets));
            && c !in t.procs && t.ledger == s.ledger && t.sent == s.sent
            && t.reporter == if resets && s.reporter == Some(c) then None else s.reporter
  {
  }

  /** The first processor that has counted is elected, and no other while it is the reporter. */
  lemma ElectedIff(s: State, c: nat)
    requires c in s.procs && s.procs[c].pc.Counted?
    ensures var t := Do(s, Step(c));
            && c in t.procs && t.reporter == (if s.reporter.None? then Some(c) else s.reporter)
            && (t.procs[c].pc.Elected? <==> s.reporter == None || s.reporter == Some(c))
            && (!t.procs[c].pc.Elected? ==> t.procs[c].pc.Idle?)
  {
  }

  // ---- Reports out of order

  /** The `i`-th and the later `j`-th report sent go by these paths, and the later one shows less. */
  ghost predicate ShowsLess(actions: seq<Action>, i: nat, j: nat, first: Path, second: Path) {
    var s := Exec(Initial, actions);
    && i < j < |s.sent| && s.sent[i].path == first && s.sent[j].path == second
    && s.sent[i].report < |s.ledger.reports| && s.sent[j].report < |s.ledger.reports|
    && !Below(CountsSent(s, i), CountsSent(s, j))
  }

  ghost predicate CanShowLess(first: Path, second: Path) {
    exists actions, i, j :: ShowsLess(actions, i, j, first, second)
  }

  lemma Then(actions: seq<Action>, a: Action)
    ensures Exec(Initial, actions + [a]) == Do(Exec(Initial, actions), a)
  {
    assert (actions + [a])[..|actions|] == actions;
  }

  /** Two reports sent against the order they were counted in. */
  lemma OutOfOrderShowsLess(actions: seq<Action>)
    requires var sent := Exec(Initial, actions).sent; |sent| == 2 && sent[0].report > sent[1].report
    ensures var sent := Exec(Initial, actions).sent; CanShowLess(sent[0].path, sent[1].path)
  {
    ReportsAscendIff(actions, 0, 1);
    var s := Exec(Initial, actions);
    assert ShowsLess(actions, 0, 1, s.sent[0].path, s.sent[1].path);
  }

  /** A new processor scrapes, is elected and counts its report. */
  lemma HoldsAfterSteps(actions: seq<Action>) returns (more: seq<Action>)
    requires var s := Exec(Initial, actions); 0 !in s.procs && s.reporter.None?
    ensures var s, t := Exec(Initial, actions), Exec(Initial, more);
            && 0 in t.procs && t.procs[0].pc == Holding(|s.ledger.reports|) && t.requests == s.requests
            && t.sent == s.sent
            && |t.ledger.reports| == |s.ledger.reports| + 1
  {
    var s := Exec(Initial, actions);
    Then(actions, Start(0, true));
    var a1 := actions + [Start(0, true)];
    assert Exec(Initial, a1) == s.(procs := s.procs[0 := Proc(true, {}, Idle)]);
    Then(a1, Step(0));
    var a2 := a1 + [Step(0)];
    assert Exec(Initial, a2).procs[0].pc == Scraped(0);
    Then(a2, Step(0));
    var a3 := a2 + [Step(0)];
    assert Exec(Initial, a3).procs[0].pc == Counted && Exec(Initial, a3).reporter.None?;
    Then(a3, Step(0));
    var a4 := a3 + [Step(0)];
    assert Exec(Initial, a4).procs[0].pc == Elected;
    Then(a4, Step(0));
    more := a4 + [Step(0)];
  }

  lemma RequestIsCounted(s: State, id: nat)
    requires id !in s.requests
    ensures var t := Do(s, Request(id));
            && t.requests == s.requests[id := |s.ledger.reports|] && |t.ledger.reports| == |s.ledger.reports| + 1
            && t.sent == s.sent && t.procs == s.procs
  {
  }

  lemma RequestIsAnswered(s: State, id: nat)
    requires id in s.requests
    ensures var t := Do(s, Answer(id));
            && t.requests == s.requests - {id} && t.sent == s.sent + [Sent(Http, s.requests[id])]
            && t.ledger == s.ledger && t.procs == s.procs
  {
  }

  /** A request is counted and answered, and then the processor sends what it holds. */
  lemma AnsweredFirst(s: State, c: nat, id: nat)
    requires c in s.procs && s.procs[c].pc.Holding? && id !in s.requests
    ensures var t := Do(Do(Do(s, Request(id)), Answer(id)), Step(c));
            && t.ledger == CountReport(s.ledger)
            && t.sent == s.sent + [Sent(Http, |s.ledger.reports|)] + [Sent(Pipeline, s.procs[c].pc.report)]
  {
    RequestIsCounted(s, id);
    RequestIsAnswered(Do(s, Request(id)), id);
  }

  /**
   The election matters. Wherever a processor holds its report while an HTTP request is
   counted and answered, the report it then sends on shows less than what was just answered.
   */
  lemma TwoReportersDecrease(actions: seq<Action>, c: nat, id: nat)
    requires var s := Exec(Initial, actions); c in s.procs && s.procs[c].pc.Holding? && id !in s.requests
    ensures var n := |Exec(Initial, actions).sent|;
            ShowsLess(actions + [Request(id)] + [Answer(id)] + [Step(c)], n, n + 1, Http, Pipeline)
  {
    var s := Exec(Initial, actions);
    var n, all := |s.sent|, actions + [Request(id)] + [Answer(id)] + [Step(c)];
    FitsThroughout(actions);
    Then(actions, Request(id));
    Then(actions + [Request(id)], Answer(id));
    Then(actions + [Request(id)] + [Answer(id)], Step(c));
    AnsweredFirst(s, c, id);
    ReportsAscendIff(all, n, n + 1);
  }

  /** Two HTTP requests are answered in the other order than they were counted. */
  lemma HttpAfterHttp()
    ensures CanShowLess(Http, Http)
  {
    var a := [] + [Request(0)];
    Then([], Request(0));
    RequestIsCounted(Initial, 0);
    Then(a, Request(1));
    RequestIsCounted(Exec(Initial, a), 1);
    var s := Exec(Initial, a + [Request(1)]);
    assert s.requests == map[0 := 0, 1 := 1] && s.sent == [];
    Then(a + [Request(1)], Answer(1));
    RequestIsAnswered(s, 1);
    var t := Exec(Initial, a + [Request(1)] + [Answer(1)]);
    Then(a + [Request(1)] + [Answer(1)], Answer(0));
    RequestIsAnswered(t, 0);
    OutOfOrderShowsLess(a + [Request(1)] + [Answer(1)] + [Answer(0)]);
  }

  /** An HTTP request is counted and answered while a processor holds the report it then sends. */
  lemma PipelineAfterHttp()
    ensures CanShowLess(Http, Pipeline)
  {
    var a := HoldsAfterSteps([]);
    TwoReportersDecrease(a, 0, 0);
  }

  /** An HTTP request is counted before a report is counted and sent, and answered after it. */
  lemma HttpAfterPipeline()
    ensures CanShowLess(Pipeline, Http)
  {
    Then([], Request(0));
    var a := HoldsAfterSteps([] + [Request(0)]);
    Then(a, Step(0));
    Then(a + [Step(0)], Answer(0));
    OutOfOrderShowsLess(a + [Step(0)] + [Answer(0)]);
  }

  /** A later report can show less than an earlier one exactly when one of them is made for an HTTP request. */
  lemma CanShowLessIff(first: Path, second: Path)
    ensures CanShowLess(first, second) <==> first.Http? || second.Http?
  {
    HttpAfterHttp();
    PipelineAfterHttp();
    HttpAfterPipeline();
    if CanShowLess(Pipeline, Pipeline) {
      var actions, i, j :| ShowsLess(actions, i, j, Pipeline, Pipeline);
      ReportsNeverDecrease(actions, i, j);
    }
  }
}
