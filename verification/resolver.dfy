/** `convert_ids_to_accessions`: for each BioProject identifier, fetch its
    Entrez record with up to three attempts, then file it either under its
    accession code (valid reply) or under its identifier with a diagnostic
    (invalid reply, or no reply at all). A fetch that fails three times ends
    the whole run: the remaining identifiers are not processed. */
module Resolver {

  import opened Wrappers
  import opened Text
  import opened EntrezResponse

  /** Fetch attempts per identifier. */
  const MaxAttempts: nat := 3
  /** The diagnostic filed for an identifier whose fetches all raised. */
  const FailedToFetch: string := "Failed to fetch"

  /** What one call to the fetch service did: it returned the reply's raw
      lines, or it raised. */
  datatype Attempt = Answered(lines: seq<string>) | Raised(error: string)

  /** One identifier together with the service's behaviour for it: the outcome
      of the first, second, ... call. Calls beyond the script raise. */
  datatype Job = Job(id: string, script: seq<Attempt>)

  function AnswerAt(script: seq<Attempt>, k: nat): Attempt {
    if k < |script| then script[k] else Raised("no answer")
  }

  /** The result of the retry loop: the lines of the first answer and the
      number of calls it took, or exhaustion. */
  datatype Fetch = Fetched(lines: seq<string>, attempts: nat) | Exhausted

  /** The retry loop from attempt `k` on: the first answered call wins, and
      no call is made after it or after the third. */
  function RetryFrom(script: seq<Attempt>, k: nat): (f: Fetch)
    requires k <= MaxAttempts
    decreases MaxAttempts - k
    ensures f.Fetched? ==> k < f.attempts <= MaxAttempts
    ensures f.Fetched? ==> AnswerAt(script, f.attempts - 1) == Answered(f.lines)
    ensures f.Fetched? ==> forall a :: k <= a < f.attempts - 1 ==> AnswerAt(script, a).Raised?
    ensures f.Exhausted? <==> forall a :: k <= a < MaxAttempts ==> AnswerAt(script, a).Raised?
  {
    if k == MaxAttempts then Exhausted
    else match AnswerAt(script, k)
      case Answered(lines) => Fetched(lines, k + 1)
      case Raised(_) => RetryFrom(script, k + 1)
  }

  function FetchWithRetry(script: seq<Attempt>): Fetch {
    RetryFrom(script, 0)
  }

  /** The retry loop's result is fixed by where the first answer is. */
  lemma FetchedAt(script: seq<Attempt>, t: nat, lines: seq<string>)
    requires 0 < t <= MaxAttempts
    requires AnswerAt(script, t - 1) == Answered(lines)
    requires forall a :: 0 <= a < t - 1 ==> AnswerAt(script, a).Raised?
    ensures FetchWithRetry(script) == Fetched(lines, t)
  {
  }

  /** What became of one identifier. */
  datatype Outcome = Unfetched | Invalid(cleaned: seq<string>) | Valid(record: Record)

  /** Clean, validate and extract, for one reply: a valid outcome carries an
      abstract line, an invalid one the cleaned lines the validator rejects. */
  function ReplyOutcome(lines: seq<string>): (o: Outcome)
    ensures !o.Unfetched?
    ensures o.Valid? ==> StartsWith(o.record.abstractLine, AbstractMarker)
    ensures o.Invalid? ==> o.cleaned == Clean(lines) && !CheckProperEntrezResponse(o.cleaned)
    ensures o.Valid? <==> CheckProperEntrezResponse(Clean(lines))
    ensures o.Valid? ==> ParseResponse(Clean(lines)) == Some(o.record)
  {
    var cleaned := Clean(lines);
    match ParseResponse(cleaned)
    case Some(record) => Valid(record)
    case None => Invalid(cleaned)
  }

  /** Fetch, clean, validate and extract, for one identifier. It is unfetched
      exactly when all three calls raise. */
  function OutcomeOf(job: Job): (o: Outcome)
    ensures o.Unfetched? <==> forall a :: 0 <= a < MaxAttempts ==> AnswerAt(job.script, a).Raised?
    ensures o.Valid? ==> StartsWith(o.record.abstractLine, AbstractMarker)
    ensures o.Invalid? ==> !CheckProperEntrezResponse(o.cleaned)
    ensures forall a ::
      (&& 0 <= a < MaxAttempts
       && AnswerAt(job.script, a).Answered?
       && forall b :: 0 <= b < a ==> AnswerAt(job.script, b).Raised?)
      ==> o == ReplyOutcome(AnswerAt(job.script, a).lines)
  {
    match FetchWithRetry(job.script)
    case Exhausted => Unfetched
    case Fetched(lines, _) => ReplyOutcome(lines)
  }

  /** An identifier with what became of it. */
  datatype Filed = Filed(id: string, outcome: Outcome)

  /** The outcome of every job, in order. */
  function Outcomes(jobs: seq<Job>): (fs: seq<Filed>)
    ensures |fs| == |jobs|
    ensures forall i :: 0 <= i < |jobs| ==> fs[i] == Filed(jobs[i].id, OutcomeOf(jobs[i]))
  {
    if |jobs| == 0 then []
    else [Filed(jobs[0].id, OutcomeOf(jobs[0]))] + Outcomes(jobs[1..])
  }

  /** The identifier writes its abstract line under accession code `key`. */
  predicate Writes(f: Filed, key: string) {
    f.outcome.Valid? && f.outcome.record.accession == key
  }

  /** The identifier lands in the failure map. */
  predicate Fails(f: Filed) {
    !f.outcome.Valid?
  }

  /** The diagnostic filed for a failing identifier; `show` renders a list of
      lines the way Python's `str(list)` does. */
  function Diagnostic(f: Filed, show: seq<string> -> string): (d: string)
    requires Fails(f)
    ensures f.outcome.Unfetched? ==> d == FailedToFetch
    ensures f.outcome.Invalid? ==> d == show(f.outcome.cleaned)
  {
    match f.outcome
    case Unfetched => FailedToFetch
    case Invalid(cleaned) => show(cleaned)
  }

  /** The state of the run: the two maps, how many identifiers were taken up,
      and whether the run stopped early. */
  datatype Resolution = Resolution(
    accessions: map<string, string>,
    failed: map<string, string>,
    processed: nat,
    halted: bool)

  /** Processing one identifier: a failing one is filed under its own
      identifier with its diagnostic, a valid one writes its abstract line
      under its accession code, an unfetched one stops the run; every other
      entry of both maps stays as it was. */
  function Step(r: Resolution, f: Filed, show: seq<string> -> string): (s: Resolution)
    ensures s.processed == r.processed + 1
    ensures s.halted <==> r.halted || f.outcome.Unfetched?
    ensures s.failed == if Fails(f) then r.failed[f.id := Diagnostic(f, show)] else r.failed
    ensures s.accessions == if f.outcome.Valid?
      then r.accessions[f.outcome.record.accession := f.outcome.record.abstractLine]
      else r.accessions
  {
    match f.outcome
    case Unfetched =>
      Resolution(r.accessions, r.failed[f.id := FailedToFetch], r.processed + 1, true)
    case Invalid(cleaned) =>
      r.(failed := r.failed[f.id := show(cleaned)], processed := r.processed + 1)
    case Valid(record) =>
      r.(accessions := r.accessions[record.accession := record.abstractLine], processed := r.processed + 1)
  }

  /** The run as a reference definition: each identifier in turn, until one of
      them cannot be fetched. */
  function Run(fs: seq<Filed>, show: seq<string> -> string): (r: Resolution)
    ensures r.processed <= |fs|
    ensures !r.halted ==> r.processed == |fs|
    ensures r.halted ==> 0 < r.processed && fs[r.processed - 1].outcome.Unfetched?
    ensures forall i :: 0 <= i < r.processed && fs[i].outcome.Unfetched? ==> r.halted && i == r.processed - 1
  {
    if |fs| == 0 then Resolution(map[], map[], 0, false)
    else
      var prev := Run(fs[..|fs| - 1], show);
      if prev.halted then prev else Step(prev, fs[|fs| - 1], show)
  }

  /** Once the run has stopped, further identifiers change nothing. */
  lemma {:induction false} HaltedIsFinal(fs: seq<Filed>, n: nat, show: seq<string> -> string)
    requires n <= |fs| && Run(fs[..n], show).halted
    ensures Run(fs, show) == Run(fs[..n], show)
    decreases |fs|
  {
    if n < |fs| {
      var init := fs[..|fs| - 1];
      assert init[..n] == fs[..n];
      HaltedIsFinal(init, n, show);
      RunExtends(fs, show);
    } else {
      assert fs[..n] == fs;
    }
  }

  /** An identifier whose fetches all raise is filed as "Failed to fetch",
      adds no accession, and ends the run: the identifiers after it are never
      processed. */
  lemma ExhaustionEndsRun(fs: seq<Filed>, k: nat, show: seq<string> -> string)
    requires k < |fs|
    requires fs[k].outcome.Unfetched?
    requires forall i :: 0 <= i < k ==> !fs[i].outcome.Unfetched?
    ensures var before := Run(fs[..k], show);
      Run(fs, show)
      == Resolution(before.accessions, before.failed[fs[k].id := FailedToFetch], k + 1, true)
  {
    var before := Run(fs[..k], show);
    assert forall i :: 0 <= i < k ==> fs[..k][i] == fs[i];
    if before.halted {
      assert false;
    }
    HaltsAt(fs, k, show);
  }

  /** The run stops right after the first identifier that cannot be fetched. */
  lemma StopsAfter(fs: seq<Filed>, k: nat, show: seq<string> -> string)
    requires k < |fs|
    requires fs[k].outcome.Unfetched?
    requires forall i :: 0 <= i < k ==> !fs[i].outcome.Unfetched?
    ensures Run(fs, show).processed == k + 1 && Run(fs, show).halted
  {
  }

  /** After an identifier exhausts its fetches, the failure map holds only
      identifiers up to it: later identifiers are not filed as failures. */
  lemma ExhaustionHidesLaterFailures(fs: seq<Filed>, k: nat, show: seq<string> -> string)
    requires k < |fs|
    requires fs[k].outcome.Unfetched?
    requires forall i :: 0 <= i < k ==> !fs[i].outcome.Unfetched?
    ensures forall id :: id in Run(fs, show).failed <==>
      exists i :: 0 <= i <= k && fs[i].id == id && Fails(fs[i])
  {
    StopsAfter(fs, k, show);
    FailuresLastWriteWins(fs, show);
  }

  /** ... and the accession map holds only the codes of identifiers before
      it: later identifiers resolve nothing. */
  lemma ExhaustionHidesLaterAccessions(fs: seq<Filed>, k: nat, show: seq<string> -> string)
    requires k < |fs|
    requires fs[k].outcome.Unfetched?
    requires forall i :: 0 <= i < k ==> !fs[i].outcome.Unfetched?
    ensures forall key :: key in Run(fs, show).accessions <==>
      exists i :: 0 <= i < k && Writes(fs[i], key)
  {
    StopsAfter(fs, k, show);
    AccessionsLastWriteWins(fs, show);
    var r := Run(fs, show);
    forall key | key in r.accessions
      ensures exists i :: 0 <= i < k && Writes(fs[i], key)
    {
      var i :| 0 <= i < r.processed && Writes(fs[i], key);
      assert i != k;
    }
  }

  /** `i` is the last of the first `n` identifiers to write accession `key`. */
  predicate LastWriter(fs: seq<Filed>, n: nat, i: int, key: string)
    requires n <= |fs|
  {
    0 <= i < n && Writes(fs[i], key) && forall j :: i < j < n ==> !Writes(fs[j], key)
  }

  /** `i` is the last of the first `n` identifiers to fail under `id`. */
  predicate LastFailure(fs: seq<Filed>, n: nat, i: int, id: string)
    requires n <= |fs|
  {
    0 <= i < n && fs[i].id == id && Fails(fs[i])
    && forall j :: i < j < n ==> !(fs[j].id == id && Fails(fs[j]))
  }

  /** One more identifier, while the run has not stopped, is one more step. */
  lemma RunExtends(fs: seq<Filed>, show: seq<string> -> string)
    requires |fs| > 0
    ensures var prev := Run(fs[..|fs| - 1], show);
      Run(fs, show) == if prev.halted then prev else Step(prev, fs[|fs| - 1], show)
    ensures forall i :: 0 <= i < |fs| - 1 ==> fs[..|fs| - 1][i] == fs[i]
  {
  }

  lemma RunStep(fs: seq<Filed>, n: nat, show: seq<string> -> string)
    requires n < |fs|
    requires !Run(fs[..n], show).halted
    ensures Run(fs[..n + 1], show) == Step(Run(fs[..n], show), fs[n], show)
  {
    assert fs[..n + 1][..n] == fs[..n];
  }

  /** The accession map of `r` holds exactly the codes the identifiers it
      processed resolved to, each with its last writer's abstract line. */
  ghost predicate AccessionsExplained(fs: seq<Filed>, r: Resolution)
    requires r.processed <= |fs|
  {
    && (forall key :: key in r.accessions <==> exists i :: 0 <= i < r.processed && Writes(fs[i], key))
    && (forall key, i :: LastWriter(fs, r.processed, i, key) ==>
          key in r.accessions && r.accessions[key] == fs[i].outcome.record.abstractLine)
  }

  /** The failure map of `r` holds exactly the identifiers it processed that
      failed, each with the diagnostic of its last failure. */
  ghost predicate FailuresExplained(fs: seq<Filed>, r: Resolution, show: seq<string> -> string)
    requires r.processed <= |fs|
  {
    && (forall id :: id in r.failed <==> exists i :: 0 <= i < r.processed && fs[i].id == id && Fails(fs[i]))
    && (forall id, i :: LastFailure(fs, r.processed, i, id) ==>
          id in r.failed && r.failed[id] == Diagnostic(fs[i], show))
  }

  /** Identifiers beyond those processed do not matter. */
  lemma AccessionsExplainedPrefix(init: seq<Filed>, fs: seq<Filed>, r: Resolution)
    requires r.processed <= |init| <= |fs| && init == fs[..|init|]
    requires AccessionsExplained(init, r)
    ensures AccessionsExplained(fs, r)
  {
    assert forall i :: 0 <= i < r.processed ==> init[i] == fs[i];
    forall key, i | LastWriter(fs, r.processed, i, key)
      ensures key in r.accessions && r.accessions[key] == fs[i].outcome.record.abstractLine
    {
      assert LastWriter(init, r.processed, i, key);
    }
  }

  lemma FailuresExplainedPrefix(init: seq<Filed>, fs: seq<Filed>, r: Resolution, show: seq<string> -> string)
    requires r.processed <= |init| <= |fs| && init == fs[..|init|]
    requires FailuresExplained(init, r, show)
    ensures FailuresExplained(fs, r, show)
  {
    assert forall i :: 0 <= i < r.processed ==> init[i] == fs[i];
    forall id, i | LastFailure(fs, r.processed, i, id)
      ensures id in r.failed && r.failed[id] == Diagnostic(fs[i], show)
    {
      assert LastFailure(init, r.processed, i, id);
    }
  }

  /** Filing one more identifier keeps the accession map explained. */
  lemma AccessionsExplainedStep(init: seq<Filed>, last: Filed, r: Resolution, show: seq<string> -> string)
    requires r.processed == |init|
    requires AccessionsExplained(init, r)
    ensures AccessionsExplained(init + [last], Step(r, last, show))
  {
    var fs := init + [last];
    var next := Step(r, last, show);
    assert forall i :: 0 <= i < |init| ==> fs[i] == init[i];
    assert fs[|init|] == last;
    forall key ensures key in next.accessions <==> exists i :: 0 <= i < next.processed && Writes(fs[i], key) {
      if key in next.accessions && !Writes(last, key) {
        var i :| 0 <= i < r.processed && Writes(init[i], key);
        assert Writes(fs[i], key);
      }
    }
    forall key, i | LastWriter(fs, next.processed, i, key)
      ensures key in next.accessions && next.accessions[key] == fs[i].outcome.record.abstractLine
    {
      if i < |init| {
        assert !Writes(last, key);
        assert LastWriter(init, r.processed, i, key);
      }
    }
  }

  /** Filing one more identifier keeps the failure map explained. */
  lemma FailuresExplainedStep(init: seq<Filed>, last: Filed, r: Resolution, show: seq<string> -> string)
    requires r.processed == |init|
    requires FailuresExplained(init, r, show)
    ensures FailuresExplained(init + [last], Step(r, last, show), show)
  {
    var fs := init + [last];
    var next := Step(r, last, show);
    assert forall i :: 0 <= i < |init| ==> fs[i] == init[i];
    assert fs[|init|] == last;
    forall id ensures id in next.failed <==> exists i :: 0 <= i < next.processed && fs[i].id == id && Fails(fs[i]) {
      if id in next.failed && !(last.id == id && Fails(last)) {
        var i :| 0 <= i < r.processed && init[i].id == id && Fails(init[i]);
        assert fs[i].id == id && Fails(fs[i]);
      }
    }
    forall id, i | LastFailure(fs, next.processed, i, id)
      ensures id in next.failed && next.failed[id] == Diagnostic(fs[i], show)
    {
      if i < |init| {
        assert !(last.id == id && Fails(last));
        assert LastFailure(init, r.processed, i, id);
      }
    }
  }

  /** The accession map holds exactly the codes the processed identifiers
      resolved to, each with the abstract line of the last identifier that
      resolved to it. */
  lemma {:induction false} AccessionsLastWriteWins(fs: seq<Filed>, show: seq<string> -> string)
    ensures AccessionsExplained(fs, Run(fs, show))
    decreases |fs|
  {
    if |fs| > 0 {
      var init, last := fs[..|fs| - 1], fs[|fs| - 1];
      var prev := Run(init, show);
      AccessionsLastWriteWins(init, show);
      RunExtends(fs, show);
      if prev.halted {
        AccessionsExplainedPrefix(init, fs, prev);
        assert Run(fs, show) == prev;
      } else {
        assert fs == init + [last];
        AccessionsExplainedStep(init, last, prev, show);
        assert Run(fs, show) == Step(prev, last, show);
      }
    }
  }

  /** The failure map holds exactly the processed identifiers that failed,
      each with the diagnostic of its last failure. */
  lemma {:induction false} FailuresLastWriteWins(fs: seq<Filed>, show: seq<string> -> string)
    ensures FailuresExplained(fs, Run(fs, show), show)
    decreases |fs|
  {
    if |fs| > 0 {
      var init, last := fs[..|fs| - 1], fs[|fs| - 1];
      var prev := Run(init, show);
      FailuresLastWriteWins(init, show);
      RunExtends(fs, show);
      if prev.halted {
        FailuresExplainedPrefix(init, fs, prev, show);
        assert Run(fs, show) == prev;
      } else {
        assert fs == init + [last];
        FailuresExplainedStep(init, last, prev, show);
        assert Run(fs, show) == Step(prev, last, show);
      }
    }
  }

  /** Every value of the accession map is an abstract line. */
  lemma {:induction false} AccessionsHoldAbstracts(fs: seq<Filed>, show: seq<string> -> string)
    requires forall i :: 0 <= i < |fs| && fs[i].outcome.Valid? ==>
      StartsWith(fs[i].outcome.record.abstractLine, AbstractMarker)
    ensures var r := Run(fs, show);
      forall key :: key in r.accessions ==> StartsWith(r.accessions[key], AbstractMarker)
    decreases |fs|
  {
    if |fs| > 0 {
      RunExtends(fs, show);
      AccessionsHoldAbstracts(fs[..|fs| - 1], show);
    }
  }

  /** Every key of the failure map is the identifier of some filed outcome. */
  lemma {:induction false} FailuresAreFiled(fs: seq<Filed>, show: seq<string> -> string)
    ensures forall id :: id in Run(fs, show).failed ==> exists i :: 0 <= i < |fs| && fs[i].id == id
    decreases |fs|
  {
    if |fs| > 0 {
      var init := fs[..|fs| - 1];
      RunExtends(fs, show);
      FailuresAreFiled(init, show);
      forall id | id in Run(fs, show).failed
        ensures exists i :: 0 <= i < |fs| && fs[i].id == id
      {
        if id != fs[|fs| - 1].id {
          var i :| 0 <= i < |init| && init[i].id == id;
          assert fs[i].id == id;
        }
      }
    }
  }

  /** Only identifiers that were submitted end up in the failure map. */
  lemma FailuresAreSubmitted(jobs: seq<Job>, show: seq<string> -> string)
    ensures forall id :: id in Run(Outcomes(jobs), show).failed ==>
      exists i :: 0 <= i < |jobs| && jobs[i].id == id
  {
    FailuresAreFiled(Outcomes(jobs), show);
  }

  /** After a whole run, every value of the accession map is an abstract line. */
  lemma ResolvedAbstracts(jobs: seq<Job>, show: seq<string> -> string)
    ensures var r := Run(Outcomes(jobs), show);
      forall key :: key in r.accessions ==> StartsWith(r.accessions[key], AbstractMarker)
  {
    ghost var fs := Outcomes(jobs);
    forall i | 0 <= i < |fs| && fs[i].outcome.Valid?
      ensures StartsWith(fs[i].outcome.record.abstractLine, AbstractMarker)
    {
      assert fs[i].outcome == OutcomeOf(jobs[i]);
    }
    AccessionsHoldAbstracts(fs, show);
  }

  /** One identifier's turn in the script's loop body: up to three fetch
      attempts (the inner `for`), then cleaning, validation and extraction. */
  method ResolveOne(job: Job) returns (outcome: Outcome)
    ensures outcome == OutcomeOf(job)
  {
    var lines: seq<string> := [];
    var fetched := false;
    var attempt := 0;
    while attempt < MaxAttempts
      invariant attempt <= MaxAttempts
      invariant forall a :: 0 <= a < attempt ==> AnswerAt(job.script, a).Raised?
    {
      match AnswerAt(job.script, attempt)
      case Answered(reply) =>
        lines := reply;
        fetched := true;
        break;
      case Raised(_) =>
        attempt := attempt + 1;
    }
    if !fetched {
      return Unfetched;
    }
    FetchedAt(job.script, attempt + 1, lines);
    outcome := ReplyOutcome(lines);
  }

  /** An unfetched identifier met while the run is going is the last one the
      run takes up. */
  lemma HaltsAt(fs: seq<Filed>, n: nat, show: seq<string> -> string)
    requires n < |fs| && fs[n].outcome.Unfetched?
    requires !Run(fs[..n], show).halted
    ensures Run(fs, show) == Step(Run(fs[..n], show), fs[n], show)
  {
    RunStep(fs, n, show);
    HaltedIsFinal(fs, n + 1, show);
  }

  /** What filing the next identifier does to the run, case by case. */
  lemma FileStep(fs: seq<Filed>, n: nat, accessions: map<string, string>, failed: map<string, string>,
                 show: seq<string> -> string)
    requires n < |fs|
    requires Run(fs[..n], show) == Resolution(accessions, failed, n, false)
    ensures fs[n].outcome.Unfetched? ==>
      Run(fs, show) == Resolution(accessions, failed[fs[n].id := FailedToFetch], n + 1, true)
    ensures fs[n].outcome.Invalid? ==>
      Run(fs[..n + 1], show) == Resolution(accessions, failed[fs[n].id := show(fs[n].outcome.cleaned)], n + 1, false)
    ensures fs[n].outcome.Valid? ==>
      var record := fs[n].outcome.record;
      Run(fs[..n + 1], show) == Resolution(accessions[record.accession := record.abstractLine], failed, n + 1, false)
  {
    if fs[n].outcome.Unfetched? {
      HaltsAt(fs, n, show);
    } else {
      RunStep(fs, n, show);
    }
  }

  /** The executable loop of the script over the identifiers; an identifier
      that cannot be fetched is filed and breaks out of the loop. It computes
      the reference run over the identifiers' outcomes. */
  method ConvertIdsToAccessions(jobs: seq<Job>, show: seq<string> -> string)
    returns (accessions: map<string, string>, failed: map<string, string>)
    ensures accessions == Run(Outcomes(jobs), show).accessions
    ensures failed == Run(Outcomes(jobs), show).failed
  {
    ghost var fs := Outcomes(jobs);
    accessions := map[];
    failed := map[];
    var n := 0;
    while n < |jobs|
      invariant n <= |jobs|
      invariant Run(fs[..n], show) == Resolution(accessions, failed, n, false)
    {
      var job := jobs[n];
      var outcome := ResolveOne(job);
      FileStep(fs, n, accessions, failed, show);
      match outcome {
        case Unfetched =>
          failed := failed[job.id := FailedToFetch];
          return;
        case Invalid(cleaned) =>
          failed := failed[job.id := show(cleaned)];
        case Valid(record) =>
          accessions := accessions[record.accession := record.abstractLine];
      }
      n := n + 1;
    }
    assert fs[..n] == fs;
  }

  /** A fetch that raises once and then answers is as good as one answered
      at once: the reply decides the outcome. */
  lemma OneRaiseIsHarmless(job: Job, lines: seq<string>)
    requires |job.script| >= 2 && job.script[0].Raised? && job.script[1] == Answered(lines)
    ensures OutcomeOf(job) == ReplyOutcome(lines)
  {
  }

  /** A fetch that raises once and then answers with a valid reply files an
      accession and no failure. */
  lemma SecondAttemptSucceeds(job: Job, lines: seq<string>, show: seq<string> -> string)
    requires |job.script| >= 2 && job.script[0].Raised? && job.script[1] == Answered(lines)
    requires CheckProperEntrezResponse(Clean(lines))
    ensures var record := ParseResponse(Clean(lines)).value;
      Run(Outcomes([job]), show) == Resolution(map[record.accession := record.abstractLine], map[], 1, false)
  {
  }
}
