/** One reconciliation pass of the grid plugin (`on_internet_available`):
    push the session data, read the inbox counters, then — when the
    capture directory holds more files than the ledger holds ids — report
    every new, non-excluded capture to the peer service and append its id
    to the ledger as soon as the service accepts it.

    The pass is a fold over the enumerated capture file names. The outside
    world (the peer service, the pcap content parser) is a `Service` value
    whose fields answer each call. */
module Grid {
  import opened Wrappers
  import opened Text
  import opened Ident
  import opened Exclusion
  import opened Inbox

  /** The plugin options the pass reads: `report` and `exclude`. */
  datatype Options = Options(report: bool, exclude: seq<string>)

  /** The answers of everything outside the plugin during one pass:
      whether `POST /data` succeeded, the messages of `GET /inbox` (`None`
      when the call or the message lookup raised), what the pcap content
      parser extracts from a capture file (`None` when it raised), and
      whether `POST /report/ap` for a capture file's network returned
      without raising: status 200 and a JSON body, with no transport
      exception. */
  datatype Service = Service(
    pushed: bool,
    inbox: Option<seq<Message>>,
    extract: string -> Option<Ap>,
    accept: (string, Ap) -> bool)

  /** One `POST /report/ap` made during the pass, and its outcome. */
  datatype Attempt = Attempt(netId: string, ap: Ap, accepted: bool)

  /** Why a capture file was passed over. */
  datatype Skip = AlreadyReported | ExcludedId | NoBssid | ExcludedAp

  /** What the loop body does with one capture file. */
  datatype Step = Skipped(why: Skip) | Tried(attempt: Attempt) | Raised(netId: string)

  /** How a pass ended: normally, at one of the two early returns, or with
      the exception of an id that does not unpack into two names. */
  datatype End = Completed | PushFailed | InboxFailed | UnpackFailed(netId: string)

  /** The state the capture loop threads through the files. */
  datatype Progress = Progress(reported: seq<string>, attempts: seq<Attempt>, end: End)

  /** Everything a pass leaves behind: the ledger, the reports it made, the
      inbox counters (`None` when they were not updated) and how it ended. */
  datatype Outcome = Outcome(
    reported: seq<string>,
    attempts: seq<Attempt>,
    counters: Option<Counters>,
    end: End)

  /** The checks a network passes before it is reported: neither its raw id,
      nor its name, nor its address is excluded, and it has an address. */
  predicate Disclosable(rules: seq<string>, id: string, ap: Ap) {
    && !IsExcluded(rules, id)
    && ap.bssid != ""
    && !IsExcluded(rules, ap.essid)
    && !IsExcluded(rules, ap.bssid)
  }

  /** A capture file whose network the pass would report if its id were
      not yet in the ledger. */
  predicate Eligible(opts: Options, svc: Service, name: string) {
    var parsed := ParsePcap(name, svc.extract(name));
    parsed.Success? && Disclosable(opts.exclude, NetId(name), parsed.value)
  }

  /** The attempt was made for capture file `name`: its id, the network
      parsed from the file, and the service's answer for it. */
  predicate FromFile(svc: Service, name: string, a: Attempt) {
    && a.netId == NetId(name)
    && ParsePcap(name, svc.extract(name)) == Success(a.ap)
    && a.accepted == svc.accept(name, a.ap)
  }

  /** The body of the capture loop for one file, against the ledger as it
      stands when the file is reached. */
  function Visit(opts: Options, svc: Service, name: string, reported: seq<string>): (s: Step)
    ensures NetId(name) in reported <==> s == Skipped(AlreadyReported)
    ensures s.Tried? ==>
              && s.attempt.netId !in reported
              && FromFile(svc, name, s.attempt)
              && Disclosable(opts.exclude, s.attempt.netId, s.attempt.ap)
    ensures s.Raised? ==>
              && s.netId == NetId(name) && s.netId !in reported
              && !IsExcluded(opts.exclude, s.netId)
              && Occurrences(s.netId, '_') >= 2
    ensures (NetId(name) !in reported && !IsExcluded(opts.exclude, NetId(name))
             && Occurrences(NetId(name), '_') >= 2) ==> s == Raised(NetId(name))
    ensures NetId(name) !in reported && Eligible(opts, svc, name) ==> s.Tried?
  {
    var id := NetId(name);
    if id in reported then Skipped(AlreadyReported)
    else if IsExcluded(opts.exclude, id) then Skipped(ExcludedId)
    else match ParsePcap(name, svc.extract(name))
      case Failure(_) => Raised(id)
      case Success(ap) =>
        if ap.bssid == "" then Skipped(NoBssid)
        else if IsExcluded(opts.exclude, ap.essid) || IsExcluded(opts.exclude, ap.bssid) then
          Skipped(ExcludedAp)
        else Tried(Attempt(id, ap, svc.accept(name, ap)))
  }

  /** The loop body with the pass's options and service fixed. */
  function VisitStep(opts: Options, svc: Service): (string, seq<string>) -> Step {
    (name, reported) => Visit(opts, svc, name, reported)
  }

  /** The capture loop from file `names[0]` on, with the ledger and the
      reports made so far; `step` is the loop body. An accepted report
      appends its id to the very list the membership test reads. */
  function Run(step: (string, seq<string>) -> Step, names: seq<string>,
               reported: seq<string>, attempts: seq<Attempt>): (p: Progress)
    ensures reported <= p.reported && attempts <= p.attempts
    ensures p.end.Completed? || p.end.UnpackFailed?
    decreases |names|
  {
    if |names| == 0 then Progress(reported, attempts, Completed)
    else match step(names[0], reported)
      case Skipped(_) => Run(step, names[1..], reported, attempts)
      case Raised(id) => Progress(reported, attempts, UnpackFailed(id))
      case Tried(a) =>
        var next := if a.accepted then reported + [a.netId] else reported;
        Run(step, names[1..], next, attempts + [a])
  }

  /** `on_internet_available`: push the session data, read the inbox, and
      run the capture loop when reporting is on and there are more capture
      files than ledger entries. */
  function Pass(opts: Options, svc: Service, names: seq<string>, prior: seq<string>): (o: Outcome)
    ensures prior <= o.reported
    ensures o.counters.Some? <==> svc.pushed && svc.inbox.Some?
  {
    if !svc.pushed then Outcome(prior, [], None, PushFailed)
    else match svc.inbox
      case None => Outcome(prior, [], None, InboxFailed)
      case Some(msgs) =>
        var counters := Tally(msgs);
        if |names| - |prior| > 0 && opts.report then
          var p := Run(VisitStep(opts, svc), names, prior, []);
          Outcome(p.reported, p.attempts, Some(counters), p.end)
        else Outcome(prior, [], Some(counters), Completed)
  }

  // ---------------------------------------------------------------------
  // The ledger

  /** The ids of the accepted reports, in the order they were made. */
  function AcceptedIds(attempts: seq<Attempt>): seq<string> {
    if |attempts| == 0 then []
    else (if attempts[0].accepted then [attempts[0].netId] else []) + AcceptedIds(attempts[1..])
  }

  /** Every id appended after `before` was absent from the ledger when it
      was appended. */
  ghost predicate FreshAppends(before: seq<string>, after: seq<string>) {
    before <= after && forall i :: |before| <= i < |after| ==> after[i] !in after[..i]
  }

  /** `xs` can be read off `ys` in order, skipping some elements. */
  ghost predicate Subseq<T>(xs: seq<T>, ys: seq<T>)
    decreases |ys|
  {
    |xs| == 0 || (|ys| > 0 && ((xs[0] == ys[0] && Subseq(xs[1..], ys[1..])) || Subseq(xs, ys[1..])))
  }

  /** The raw ids of the capture files, in enumeration order. */
  function NetIds(names: seq<string>): (ids: seq<string>)
    ensures |ids| == |names|
    ensures forall i :: 0 <= i < |names| ==> ids[i] == NetId(names[i])
  {
    seq(|names|, i requires 0 <= i < |names| => NetId(names[i]))
  }

  predicate Distinct(xs: seq<string>) {
    forall i, j :: 0 <= i < j < |xs| ==> xs[i] != xs[j]
  }

  /** A loop body that reports a file only under the file's own id, and
      only when that id is not yet in the ledger. */
  ghost predicate HonestStep(step: (string, seq<string>) -> Step) {
    forall name, reported :: step(name, reported).Tried? ==>
      step(name, reported).attempt.netId == NetId(name) && NetId(name) !in reported
  }

  /** The plugin's loop body is honest. */
  lemma VisitHonest(opts: Options, svc: Service)
    ensures HonestStep(VisitStep(opts, svc))
  {
  }

  lemma {:induction false} AcceptedIdsSnoc(xs: seq<Attempt>, a: Attempt)
    ensures AcceptedIds(xs + [a]) == AcceptedIds(xs) + (if a.accepted then [a.netId] else [])
  {
    if |xs| > 0 {
      assert (xs + [a])[1..] == xs[1..] + [a];
      AcceptedIdsSnoc(xs[1..], a);
    } else {
      assert xs + [a] == [a];
    }
  }

  /** What the capture loop appends to the ledger are the ids of the
      accepted reports, in the order they were made: if the ledger is
      `base` followed by the ids of the reports accepted so far, it still
      is when the loop ends. */
  lemma {:induction false} RunAppended(step: (string, seq<string>) -> Step, names: seq<string>,
                                       base: seq<string>, reported: seq<string>, attempts: seq<Attempt>)
    requires reported == base + AcceptedIds(attempts)
    ensures var p := Run(step, names, reported, attempts);
            p.reported == base + AcceptedIds(p.attempts)
    decreases |names|
  {
    if |names| > 0 {
      match step(names[0], reported)
      case Skipped(_) =>
        RunAppended(step, names[1..], base, reported, attempts);
      case Raised(_) =>
      case Tried(a) =>
        var next := if a.accepted then reported + [a.netId] else reported;
        AcceptedIdsSnoc(attempts, a);
        RunAppended(step, names[1..], base, next, attempts + [a]);
    }
  }

  /** With an honest loop body, each id the capture loop appends was absent
      from the ledger at the moment it was appended. */
  lemma {:induction false} RunFresh(step: (string, seq<string>) -> Step, names: seq<string>,
                                    reported: seq<string>, attempts: seq<Attempt>)
    requires HonestStep(step)
    ensures FreshAppends(reported, Run(step, names, reported, attempts).reported)
    decreases |names|
  {
    var p := Run(step, names, reported, attempts);
    if |names| > 0 {
      match step(names[0], reported)
      case Skipped(_) =>
        RunFresh(step, names[1..], reported, attempts);
      case Raised(_) =>
      case Tried(a) =>
        var next := if a.accepted then reported + [a.netId] else reported;
        RunFresh(step, names[1..], next, attempts + [a]);
        forall i | |reported| <= i < |p.reported|
          ensures p.reported[i] !in p.reported[..i]
        {
          if i < |next| {
            assert p.reported[i] == next[i] == a.netId;
            assert p.reported[..i] == reported;
          }
        }
    }
  }

  /** Every report the capture loop makes is what the loop body decided for
      some enumerated file against a ledger that extends the one the loop
      started from. */
  lemma {:induction false} RunAttempts(step: (string, seq<string>) -> Step, names: seq<string>,
                                       reported: seq<string>, attempts: seq<Attempt>)
    ensures var p := Run(step, names, reported, attempts);
            forall a :: a in p.attempts[|attempts|..] ==>
              exists name, ledger :: name in names && reported <= ledger && step(name, ledger) == Tried(a)
    decreases |names|
  {
    var p := Run(step, names, reported, attempts);
    if |names| == 0 {
      assert p.attempts[|attempts|..] == [];
    } else {
      match step(names[0], reported)
      case Skipped(_) =>
        RunAttempts(step, names[1..], reported, attempts);
        assert forall n :: n in names[1..] ==> n in names;
      case Raised(_) =>
        assert p.attempts[|attempts|..] == [];
      case Tried(a) =>
        var next := if a.accepted then reported + [a.netId] else reported;
        RunAttempts(step, names[1..], next, attempts + [a]);
        assert p.attempts[|attempts|..] == [a] + p.attempts[|attempts| + 1..];
        assert forall n :: n in names[1..] ==> n in names;
        assert names[0] in names;
    }
  }

  /** With an honest loop body, the ids the capture loop appends follow the
      enumeration order of their capture files. */
  lemma {:induction false} RunOrder(step: (string, seq<string>) -> Step, names: seq<string>,
                                    reported: seq<string>, attempts: seq<Attempt>)
    requires HonestStep(step)
    ensures var p := Run(step, names, reported, attempts);
            Subseq(p.reported[|reported|..], NetIds(names))
    decreases |names|
  {
    var p := Run(step, names, reported, attempts);
    if |names| == 0 {
      assert p.reported[|reported|..] == [];
    } else {
      var ids := NetIds(names);
      assert ids[1..] == NetIds(names[1..]);
      match step(names[0], reported)
      case Skipped(_) =>
        RunOrder(step, names[1..], reported, attempts);
      case Raised(_) =>
        assert p.reported[|reported|..] == [];
      case Tried(a) =>
        var next := if a.accepted then reported + [a.netId] else reported;
        RunOrder(step, names[1..], next, attempts + [a]);
        if a.accepted {
          var added := p.reported[|reported|..];
          assert added[0] == a.netId == ids[0];
          assert added[1..] == p.reported[|next|..];
        }
    }
  }

  /** A loop body's decision for one file has left its trace in the final
      state: nothing to do, or a report that is among the reports made and,
      when accepted, whose id is in the ledger. */
  ghost predicate Settled(s: Step, p: Progress) {
    || s.Skipped?
    || (s.Tried? && s.attempt in p.attempts && (s.attempt.accepted ==> s.attempt.netId in p.reported))
  }

  /** A capture loop that runs to its end has dealt with every file: one
      failed report does not stop the loop. */
  lemma {:induction false} RunSettles(step: (string, seq<string>) -> Step, names: seq<string>,
                                      reported: seq<string>, attempts: seq<Attempt>)
    ensures var p := Run(step, names, reported, attempts);
            p.end == Completed ==>
              forall name :: name in names ==>
                exists ledger :: reported <= ledger <= p.reported && Settled(step(name, ledger), p)
    decreases |names|
  {
    var p := Run(step, names, reported, attempts);
    if |names| > 0 {
      var head := step(names[0], reported);
      var next := if head.Tried? && head.attempt.accepted then reported + [head.attempt.netId] else reported;
      var more := if head.Tried? then attempts + [head.attempt] else attempts;
      if !head.Raised? {
        assert p == Run(step, names[1..], next, more);
        RunSettles(step, names[1..], next, more);
        if p.end == Completed {
          forall name | name in names
            ensures exists ledger :: reported <= ledger <= p.reported && Settled(step(name, ledger), p)
          {
            if name == names[0] {
              if head.Tried? {
                assert more[|attempts|] == head.attempt == p.attempts[|attempts|];
                if head.attempt.accepted {
                  assert next[|reported|] == head.attempt.netId == p.reported[|reported|];
                }
              }
              assert Settled(step(name, reported), p);
            } else {
              assert name in names[1..];
            }
          }
        }
      }
    }
  }

  /** A capture loop that stops early stops at a file whose loop body
      raised, against the ledger as it then stood. */
  lemma {:induction false} RunStops(step: (string, seq<string>) -> Step, names: seq<string>,
                                    reported: seq<string>, attempts: seq<Attempt>)
    ensures var p := Run(step, names, reported, attempts);
            p.end.UnpackFailed? ==>
              exists name :: name in names && step(name, p.reported) == Raised(p.end.netId)
    decreases |names|
  {
    var p := Run(step, names, reported, attempts);
    if |names| > 0 {
      match step(names[0], reported)
      case Skipped(_) =>
        RunStops(step, names[1..], reported, attempts);
        assert forall n :: n in names[1..] ==> n in names;
      case Raised(_) =>
        assert names[0] in names;
      case Tried(a) =>
        var next := if a.accepted then reported + [a.netId] else reported;
        RunStops(step, names[1..], next, attempts + [a]);
        assert forall n :: n in names[1..] ==> n in names;
    }
  }

  /** The ids of the reports made, in the order they were made. */
  function AttemptIds(attempts: seq<Attempt>): (ids: seq<string>)
    ensures |ids| == |attempts|
    ensures forall i :: 0 <= i < |attempts| ==> ids[i] == attempts[i].netId
  {
    seq(|attempts|, i requires 0 <= i < |attempts| => attempts[i].netId)
  }

  /** With an honest loop body, the capture loop reports each enumerated
      file at most once, in enumeration order: a refused report is not
      retried. */
  lemma {:induction false} RunAttemptOrder(step: (string, seq<string>) -> Step, names: seq<string>,
                                           reported: seq<string>, attempts: seq<Attempt>)
    requires HonestStep(step)
    ensures var p := Run(step, names, reported, attempts);
            Subseq(AttemptIds(p.attempts[|attempts|..]), NetIds(names))
    decreases |names|
  {
    var p := Run(step, names, reported, attempts);
    if |names| == 0 {
      assert AttemptIds(p.attempts[|attempts|..]) == [];
    } else {
      var ids := NetIds(names);
      assert ids[1..] == NetIds(names[1..]);
      match step(names[0], reported)
      case Skipped(_) =>
        RunAttemptOrder(step, names[1..], reported, attempts);
      case Raised(_) =>
        assert AttemptIds(p.attempts[|attempts|..]) == [];
      case Tried(a) =>
        var next := if a.accepted then reported + [a.netId] else reported;
        RunAttemptOrder(step, names[1..], next, attempts + [a]);
        var made := AttemptIds(p.attempts[|attempts|..]);
        assert p.attempts[|attempts|] == a;
        assert made[0] == a.netId == ids[0];
        assert made[1..] == AttemptIds(p.attempts[|attempts + [a]|..]);
    }
  }

  /** A capture loop that raises has first run, as a loop of its own, over
      the files before the raising one: the ledger and the reports it ends
      with are exactly those, and the files after it are not looked at. */
  lemma {:induction false} RunRaisesAfterPrefix(step: (string, seq<string>) -> Step, names: seq<string>,
                                                reported: seq<string>, attempts: seq<Attempt>)
    ensures var p := Run(step, names, reported, attempts);
            p.end.UnpackFailed? ==>
              exists j :: 0 <= j < |names|
                && Run(step, names[..j], reported, attempts) == Progress(p.reported, p.attempts, Completed)
                && step(names[j], p.reported) == Raised(p.end.netId)
    decreases |names|
  {
    var p := Run(step, names, reported, attempts);
    if |names| > 0 {
      var head := step(names[0], reported);
      if head.Raised? {
        assert names[..0] == [];
        assert Run(step, names[..0], reported, attempts) == Progress(p.reported, p.attempts, Completed);
      } else {
        var next := if head.Tried? && head.attempt.accepted then reported + [head.attempt.netId] else reported;
        var more := if head.Tried? then attempts + [head.attempt] else attempts;
        assert p == Run(step, names[1..], next, more);
        RunRaisesAfterPrefix(step, names[1..], next, more);
        if p.end.UnpackFailed? {
          var k :| 0 <= k < |names[1..]|
            && Run(step, names[1..][..k], next, more) == Progress(p.reported, p.attempts, Completed)
            && step(names[1..][k], p.reported) == Raised(p.end.netId);
          var before := names[..k + 1];
          assert before[0] == names[0] && before[1..] == names[1..][..k];
          assert Run(step, before, reported, attempts) == Run(step, names[1..][..k], next, more);
          assert names[k + 1] == names[1..][k];
        }
      }
    }
  }

  // ---------------------------------------------------------------------
  // Properties of one pass

  /** The gate of the capture loop: the session data was pushed, the inbox
      was read, reporting is on, and there are more capture files than
      ledger entries. */
  predicate GateOpen(opts: Options, svc: Service, names: seq<string>, prior: seq<string>) {
    svc.pushed && svc.inbox.Some? && opts.report && |names| > |prior|
  }

  lemma PassRuns(opts: Options, svc: Service, names: seq<string>, prior: seq<string>)
    ensures var o := Pass(opts, svc, names, prior);
            if GateOpen(opts, svc, names, prior) then
              var p := Run(VisitStep(opts, svc), names, prior, []);
              o.reported == p.reported && o.attempts == p.attempts && o.end == p.end
            else
              o.reported == prior && o.attempts == []
  {
  }

  /** The ledger only grows: the prior ledger is a prefix of the new one,
      the ids appended are those of the accepted reports in the order they
      were made, each was absent when appended (so none twice and none from
      the prior ledger), and they follow the enumeration order. */
  lemma PassLedger(opts: Options, svc: Service, names: seq<string>, prior: seq<string>)
    ensures var o := Pass(opts, svc, names, prior);
            && prior <= o.reported
            && o.reported == prior + AcceptedIds(o.attempts)
            && FreshAppends(prior, o.reported)
            && Subseq(o.reported[|prior|..], NetIds(names))
  {
    var o := Pass(opts, svc, names, prior);
    PassRuns(opts, svc, names, prior);
    if GateOpen(opts, svc, names, prior) {
      var step := VisitStep(opts, svc);
      VisitHonest(opts, svc);
      RunAppended(step, names, prior, prior, []);
      RunFresh(step, names, prior, []);
      RunOrder(step, names, prior, []);
    } else {
      assert o.reported[|prior|..] == [];
    }
  }

  /** A ledger without duplicates stays without duplicates. */
  lemma PassKeepsDistinct(opts: Options, svc: Service, names: seq<string>, prior: seq<string>)
    requires Distinct(prior)
    ensures Distinct(Pass(opts, svc, names, prior).reported)
  {
    var r := Pass(opts, svc, names, prior).reported;
    PassLedger(opts, svc, names, prior);
    forall i, j | 0 <= i < j < |r|
      ensures r[i] != r[j]
    {
      if j >= |prior| {
        assert r[i] in r[..j];
      } else {
        assert r[i] == prior[i] && r[j] == prior[j];
      }
    }
  }

  /** Every report a pass makes is for an enumerated capture file whose id
      is not in the prior ledger and whose network passed every exclusion
      check; the report carries the network parsed from that file. */
  lemma PassDisclosures(opts: Options, svc: Service, names: seq<string>, prior: seq<string>)
    ensures var o := Pass(opts, svc, names, prior);
            forall a :: a in o.attempts ==>
              && a.netId !in prior
              && Disclosable(opts.exclude, a.netId, a.ap)
              && exists name :: name in names && FromFile(svc, name, a)
  {
    var o := Pass(opts, svc, names, prior);
    PassRuns(opts, svc, names, prior);
    if GateOpen(opts, svc, names, prior) {
      var step := VisitStep(opts, svc);
      RunAttempts(step, names, prior, []);
      assert o.attempts[0..] == o.attempts;
      forall a | a in o.attempts
        ensures a.netId !in prior && Disclosable(opts.exclude, a.netId, a.ap)
        ensures exists name :: name in names && FromFile(svc, name, a)
      {
        var name, ledger :| name in names && prior <= ledger && step(name, ledger) == Tried(a);
        assert Visit(opts, svc, name, ledger) == Tried(a);
      }
    }
  }

  /** No report is made and the ledger is unchanged when the session data
      could not be pushed, the inbox could not be read, reporting is off,
      or there are no more capture files than ledger entries. */
  lemma PassQuiet(opts: Options, svc: Service, names: seq<string>, prior: seq<string>)
    requires !svc.pushed || svc.inbox.None? || !opts.report || |names| <= |prior|
    ensures Pass(opts, svc, names, prior).reported == prior
    ensures Pass(opts, svc, names, prior).attempts == []
  {
    PassRuns(opts, svc, names, prior);
  }

  /** The early returns, and the inbox counters: they are updated exactly
      when the session data was pushed and the inbox was read, and then
      count all messages and the messages without a `seen_at`. */
  lemma PassStatus(opts: Options, svc: Service, names: seq<string>, prior: seq<string>)
    ensures var o := Pass(opts, svc, names, prior);
            && (o.end == PushFailed <==> !svc.pushed)
            && (o.end == InboxFailed <==> svc.pushed && svc.inbox.None?)
            && (o.counters.Some? <==> svc.pushed && svc.inbox.Some?)
            && (o.counters.Some? ==>
                  && o.counters.value.total == |svc.inbox.value|
                  && o.counters.value.unread == multiset(svc.inbox.value)[Message(None)])
  {
    var o := Pass(opts, svc, names, prior);
    if svc.pushed && svc.inbox.Some? {
      UnreadIsMultiplicity(svc.inbox.value);
      if GateOpen(opts, svc, names, prior) {
        assert o.end == Run(VisitStep(opts, svc), names, prior, []).end;
      }
    }
  }

  /** When the capture loop runs to its end, every eligible capture file is
      either in the ledger or was reported and refused: a refused report
      does not stop the others, and it leaves its id out of the ledger for
      the next pass. */
  lemma PassComplete(opts: Options, svc: Service, names: seq<string>, prior: seq<string>)
    requires GateOpen(opts, svc, names, prior)
    ensures var o := Pass(opts, svc, names, prior);
            o.end == Completed ==>
              forall name :: name in names && Eligible(opts, svc, name) ==>
                || NetId(name) in o.reported
                || Attempt(NetId(name), ParsePcap(name, svc.extract(name)).value, false) in o.attempts
  {
    var o := Pass(opts, svc, names, prior);
    var step := VisitStep(opts, svc);
    var p := Run(step, names, prior, []);
    PassRuns(opts, svc, names, prior);
    RunSettles(step, names, prior, []);
    if o.end == Completed {
      forall name | name in names && Eligible(opts, svc, name)
        ensures || NetId(name) in o.reported
                || Attempt(NetId(name), ParsePcap(name, svc.extract(name)).value, false) in o.attempts
      {
        var ledger :| prior <= ledger <= p.reported && Settled(step(name, ledger), p);
        var s := Visit(opts, svc, name, ledger);
        assert step(name, ledger) == s;
        if NetId(name) in ledger {
          assert ledger <= o.reported;
        }
      }
    }
  }

  /** A pass that raises does so at a new, non-excluded capture file whose
      id holds two or more `_`; `PassRaisesAfterPrefix` states that the
      ledger entries appended before it are kept. */
  lemma PassRaises(opts: Options, svc: Service, names: seq<string>, prior: seq<string>)
    ensures var o := Pass(opts, svc, names, prior);
            o.end.UnpackFailed? ==>
              exists name :: name in names
                && NetId(name) == o.end.netId
                && NetId(name) !in o.reported
                && !IsExcluded(opts.exclude, NetId(name))
                && Occurrences(NetId(name), '_') >= 2
  {
    var o := Pass(opts, svc, names, prior);
    var step := VisitStep(opts, svc);
    PassRuns(opts, svc, names, prior);
    if o.end.UnpackFailed? {
      assert GateOpen(opts, svc, names, prior);
      var p := Run(step, names, prior, []);
      RunStops(step, names, prior, []);
      var name :| name in names && step(name, p.reported) == Raised(p.end.netId);
      assert Visit(opts, svc, name, p.reported) == Raised(p.end.netId);
    }
  }

  /** A pass over capture files that are all in the ledger reports nothing
      and leaves the ledger as it was. */
  lemma PassIdempotent(opts: Options, svc: Service, names: seq<string>, prior: seq<string>)
    requires forall name :: name in names ==> NetId(name) in prior
    ensures var o := Pass(opts, svc, names, prior);
            && o.reported == prior
            && o.attempts == []
            && (svc.pushed && svc.inbox.Some? ==> o.end == Completed)
  {
    PassRuns(opts, svc, names, prior);
    AllReportedRun(VisitStep(opts, svc), names, prior, []);
  }

  lemma {:induction false} AllReportedRun(step: (string, seq<string>) -> Step, names: seq<string>,
                                          reported: seq<string>, attempts: seq<Attempt>)
    requires forall name, ledger :: NetId(name) in ledger ==> step(name, ledger) == Skipped(AlreadyReported)
    requires forall name :: name in names ==> NetId(name) in reported
    ensures Run(step, names, reported, attempts) == Progress(reported, attempts, Completed)
    decreases |names|
  {
    if |names| > 0 {
      assert names[0] in names;
      assert forall n :: n in names[1..] ==> n in names;
      AllReportedRun(step, names[1..], reported, attempts);
    }
  }

  /** An id in the ledger after one pass is never reported by the next. */
  lemma NoResubmission(opts: Options, svc1: Service, svc2: Service,
                       names1: seq<string>, names2: seq<string>, prior: seq<string>)
    ensures var o1 := Pass(opts, svc1, names1, prior);
            var o2 := Pass(opts, svc2, names2, o1.reported);
            forall a :: a in o2.attempts ==> a.netId !in o1.reported && a.netId !in prior
  {
    var o1 := Pass(opts, svc1, names1, prior);
    PassLedger(opts, svc1, names1, prior);
    PassDisclosures(opts, svc2, names2, o1.reported);
  }

  /** When the first capture file is new, not excluded and its id holds two
      or more `_`, the pass ends at once: nothing is reported and the files
      after it are not looked at. */
  lemma RaisesOnAmbiguousId(opts: Options, svc: Service, names: seq<string>, prior: seq<string>)
    requires GateOpen(opts, svc, names, prior)
    requires NetId(names[0]) !in prior && !IsExcluded(opts.exclude, NetId(names[0]))
    requires Occurrences(NetId(names[0]), '_') >= 2
    ensures var o := Pass(opts, svc, names, prior);
            o.end == UnpackFailed(NetId(names[0])) && o.reported == prior && o.attempts == []
  {
    assert Visit(opts, svc, names[0], prior) == Raised(NetId(names[0]));
  }

  /** Every id the capture loop appends is the id of an enumerated file
      that parsed. */
  lemma {:induction false} AcceptedIdsFrom(attempts: seq<Attempt>, id: string)
    requires id in AcceptedIds(attempts)
    ensures exists a :: a in attempts && a.netId == id
  {
    if |attempts| > 0 {
      if id != attempts[0].netId || !attempts[0].accepted {
        AcceptedIdsFrom(attempts[1..], id);
        var a :| a in attempts[1..] && a.netId == id;
        assert a in attempts;
      } else {
        assert attempts[0] in attempts;
      }
    }
  }

  /** A pass that runs its capture loop to the end met no file that makes
      the loop raise: every enumerated id is in the new ledger, excluded, or
      holds fewer than two `_`. */
  lemma PassCompletedNoAmbiguous(opts: Options, svc: Service, names: seq<string>, prior: seq<string>)
    requires GateOpen(opts, svc, names, prior)
    ensures var o := Pass(opts, svc, names, prior);
            o.end == Completed ==>
              forall name :: name in names ==>
                || NetId(name) in o.reported
                || IsExcluded(opts.exclude, NetId(name))
                || Occurrences(NetId(name), '_') < 2
  {
    var o := Pass(opts, svc, names, prior);
    var step := VisitStep(opts, svc);
    var p := Run(step, names, prior, []);
    PassRuns(opts, svc, names, prior);
    RunSettles(step, names, prior, []);
    if o.end == Completed {
      forall name | name in names
        ensures || NetId(name) in o.reported
                || IsExcluded(opts.exclude, NetId(name))
                || Occurrences(NetId(name), '_') < 2
      {
        var ledger :| prior <= ledger <= p.reported && Settled(step(name, ledger), p);
        assert step(name, ledger) == Visit(opts, svc, name, ledger);
        if NetId(name) in ledger {
          assert ledger <= o.reported;
        }
      }
    }
  }

  /** A new, non-excluded capture file anywhere in the enumeration whose id
      holds two or more `_` makes the pass raise; what the pass did before
      the raise is kept, and nothing after it happens
      (`PassRaisesAfterPrefix`). */
  lemma AmbiguousIdAborts(opts: Options, svc: Service, names: seq<string>, prior: seq<string>, name: string)
    requires GateOpen(opts, svc, names, prior)
    requires name in names && NetId(name) !in prior && !IsExcluded(opts.exclude, NetId(name))
    requires Occurrences(NetId(name), '_') >= 2
    ensures Pass(opts, svc, names, prior).end.UnpackFailed?
  {
    var o := Pass(opts, svc, names, prior);
    PassRuns(opts, svc, names, prior);
    PassLedger(opts, svc, names, prior);
    PassDisclosures(opts, svc, names, prior);
    forall i | 0 <= i < |o.reported|
      ensures o.reported[i] != NetId(name)
    {
      if i >= |prior| {
        var id := AcceptedIds(o.attempts)[i - |prior|];
        assert o.reported[i] == id;
        AcceptedIdsFrom(o.attempts, id);
        var a :| a in o.attempts && a.netId == id;
        var other :| other in names && FromFile(svc, other, a);
        assert Occurrences(id, '_') < 2;
      }
    }
    PassCompletedNoAmbiguous(opts, svc, names, prior);
  }

  /** Each enumerated file is reported at most once per pass, in
      enumeration order: a refused report is not retried. */
  lemma PassAttemptOrder(opts: Options, svc: Service, names: seq<string>, prior: seq<string>)
    ensures Subseq(AttemptIds(Pass(opts, svc, names, prior).attempts), NetIds(names))
  {
    var o := Pass(opts, svc, names, prior);
    PassRuns(opts, svc, names, prior);
    if GateOpen(opts, svc, names, prior) {
      VisitHonest(opts, svc);
      RunAttemptOrder(VisitStep(opts, svc), names, prior, []);
      assert o.attempts[0..] == o.attempts;
    } else {
      assert AttemptIds(o.attempts) == [];
    }
  }

  /** A pass that raises keeps what it did before the raise: the files
      before the raising one form a completed loop whose ledger and reports
      are those of the pass, every eligible file among them is in the
      ledger or was refused, and no file after it is looked at. */
  lemma PassRaisesAfterPrefix(opts: Options, svc: Service, names: seq<string>, prior: seq<string>)
    ensures var o := Pass(opts, svc, names, prior);
            o.end.UnpackFailed? ==>
              exists j :: 0 <= j < |names|
                && Run(VisitStep(opts, svc), names[..j], prior, []) == Progress(o.reported, o.attempts, Completed)
                && Visit(opts, svc, names[j], o.reported) == Raised(o.end.netId)
                && forall name :: name in names[..j] && Eligible(opts, svc, name) ==>
                     || NetId(name) in o.reported
                     || Attempt(NetId(name), ParsePcap(name, svc.extract(name)).value, false) in o.attempts
  {
    var o := Pass(opts, svc, names, prior);
    var step := VisitStep(opts, svc);
    PassRuns(opts, svc, names, prior);
    if o.end.UnpackFailed? {
      assert GateOpen(opts, svc, names, prior);
      RunRaisesAfterPrefix(step, names, prior, []);
      var j :| 0 <= j < |names|
        && Run(step, names[..j], prior, []) == Progress(o.reported, o.attempts, Completed)
        && step(names[j], o.reported) == Raised(o.end.netId);
      var p := Run(step, names[..j], prior, []);
      RunSettles(step, names[..j], prior, []);
      forall name | name in names[..j] && Eligible(opts, svc, name)
        ensures || NetId(name) in o.reported
                || Attempt(NetId(name), ParsePcap(name, svc.extract(name)).value, false) in o.attempts
      {
        var ledger :| prior <= ledger <= p.reported && Settled(step(name, ledger), p);
        assert step(name, ledger) == Visit(opts, svc, name, ledger);
        if NetId(name) in ledger {
          assert ledger <= o.reported;
        }
      }
      assert Visit(opts, svc, names[j], o.reported) == Raised(o.end.netId);
    }
  }

  /** An accepted report before the raising file stays in the ledger: for
      files `[a, b]` where `a` is new, eligible and accepted and `b` is new,
      not excluded and ambiguous, the pass appends `a`'s id and then raises
      at `b`. */
  lemma RaiseKeepsEarlierReport(opts: Options, svc: Service, a: string, b: string, prior: seq<string>)
    requires svc.pushed && svc.inbox.Some? && opts.report && |prior| < 2
    requires NetId(a) !in prior && Eligible(opts, svc, a)
    requires svc.accept(a, ParsePcap(a, svc.extract(a)).value)
    requires NetId(b) !in prior + [NetId(a)] && !IsExcluded(opts.exclude, NetId(b))
    requires Occurrences(NetId(b), '_') >= 2
    ensures var o := Pass(opts, svc, [a, b], prior);
            o.reported == prior + [NetId(a)] && o.end == UnpackFailed(NetId(b))
  {
    var step := VisitStep(opts, svc);
    var ap := ParsePcap(a, svc.extract(a)).value;
    var ledger := prior + [NetId(a)];
    var tried := Attempt(NetId(a), ap, true);
    assert step(a, prior) == Tried(tried);
    assert [a, b][1..] == [b];
    assert step(b, ledger) == Raised(NetId(b));
    assert Run(step, [b], ledger, [tried]) == Progress(ledger, [tried], UnpackFailed(NetId(b)));
    assert Run(step, [a, b], prior, []) == Run(step, [b], ledger, [tried]);
    PassRuns(opts, svc, [a, b], prior);
  }

  /** With every step skipped against the ledger, the capture loop changes
      nothing. */
  lemma {:induction false} SkippedRun(step: (string, seq<string>) -> Step, names: seq<string>,
                                      reported: seq<string>, attempts: seq<Attempt>)
    requires forall name :: name in names ==> step(name, reported).Skipped?
    ensures Run(step, names, reported, attempts) == Progress(reported, attempts, Completed)
    decreases |names|
  {
    if |names| > 0 {
      assert names[0] in names;
      assert forall n :: n in names[1..] ==> n in names;
      SkippedRun(step, names[1..], reported, attempts);
    }
  }

  /** A second pass over the same capture files, with the same options and
      the same content parser, reports nothing and leaves the ledger as the
      first left it, when the first ran its capture loop to the end and
      every report it made was accepted. */
  lemma SecondPassQuiet(opts: Options, svc1: Service, svc2: Service, names: seq<string>, prior: seq<string>)
    requires forall name :: svc2.extract(name) == svc1.extract(name)
    requires GateOpen(opts, svc1, names, prior)
    requires Pass(opts, svc1, names, prior).end == Completed
    requires forall a :: a in Pass(opts, svc1, names, prior).attempts ==> a.accepted
    ensures var o1 := Pass(opts, svc1, names, prior);
            var o2 := Pass(opts, svc2, names, o1.reported);
            o2.attempts == [] && o2.reported == o1.reported
  {
    var o1 := Pass(opts, svc1, names, prior);
    var step1 := VisitStep(opts, svc1);
    var p1 := Run(step1, names, prior, []);
    PassRuns(opts, svc1, names, prior);
    PassRuns(opts, svc2, names, o1.reported);
    RunSettles(step1, names, prior, []);
    var step2 := VisitStep(opts, svc2);
    forall name | name in names
      ensures step2(name, o1.reported).Skipped?
    {
      var ledger :| prior <= ledger <= p1.reported && Settled(step1(name, ledger), p1);
      var s := Visit(opts, svc1, name, ledger);
      assert step1(name, ledger) == s;
      if s.Tried? {
        assert s.attempt.accepted;
        assert NetId(name) in o1.reported;
      } else if NetId(name) in ledger {
        assert ledger == o1.reported[..|ledger|];
        assert NetId(name) in o1.reported;
      }
      assert step2(name, o1.reported) == Visit(opts, svc2, name, o1.reported);
    }
    if GateOpen(opts, svc2, names, o1.reported) {
      SkippedRun(step2, names, o1.reported, []);
    }
  }

  // ---------------------------------------------------------------------
  // The count gate

  /** The gate compares counts, not ids: with no exclusion rules and the
      capture `aabbccddeeff.pcap` in place of a deleted one, the new capture
      is eligible but nothing is reported. */
  lemma StaleEntryExample()
    ensures var opts := Options(true, []);
            var svc := Service(true, Some([]), name => None, (name, ap) => true);
            && Eligible(opts, svc, "aabbccddeeff.pcap")
            && Pass(opts, svc, ["aabbccddeeff.pcap"], ["gone"]).attempts == []
  {
    var opts := Options(true, []);
    var svc := Service(true, Some([]), name => None, (name, ap) => true);
    ParseExampleUnnamed();
    assert "aa:bb:cc:dd:ee:ff" != "";
    assert Eligible(opts, svc, "aabbccddeeff.pcap");
  }

  lemma {:induction false} SetOfSeqSize(xs: seq<string>)
    ensures |set x | x in xs| <= |xs|
    ensures Distinct(xs) ==> |set x | x in xs| == |xs|
  {
    if |xs| > 0 {
      SetOfSeqSize(xs[1..]);
      var rest := set x | x in xs[1..];
      assert (set x | x in xs) == {xs[0]} + rest;
      if Distinct(xs) {
        assert xs[0] !in rest by {
          forall k | 0 <= k < |xs[1..]|
            ensures xs[1..][k] != xs[0]
          {
            assert xs[1..][k] == xs[k + 1];
          }
        }
        assert Distinct(xs[1..]) by {
          forall i, j | 0 <= i < j < |xs[1..]|
            ensures xs[1..][i] != xs[1..][j]
          {
            assert xs[1..][i] == xs[i + 1] && xs[1..][j] == xs[j + 1];
          }
        }
      }
    }
  }

  /** When every ledger entry is the id of a capture file still in place,
      without duplicates, a new capture file opens the gate. */
  lemma CurrentLedgerOpensGate(names: seq<string>, prior: seq<string>, name: string)
    requires Distinct(prior)
    requires forall x :: x in prior ==> x in NetIds(names)
    requires name in names && NetId(name) !in prior
    ensures |names| > |prior|
  {
    var ids := NetIds(names);
    var a := set x | x in prior;
    var b := set x | x in ids;
    SetOfSeqSize(prior);
    SetOfSeqSize(ids);
    var k :| 0 <= k < |names| && names[k] == name;
    assert NetId(name) in b - a by {
      assert ids[k] == NetId(name);
    }
    assert a <= b;
    assert b == a + (b - a);
    assert a * (b - a) == {};
  }

  /** With a current ledger, every eligible new capture file is dealt with
      by a pass that runs to its end: it is in the ledger afterwards, or its
      report was refused. */
  lemma CurrentLedgerReportsNewCaptures(opts: Options, svc: Service, names: seq<string>,
                                        prior: seq<string>, name: string)
    requires svc.pushed && svc.inbox.Some? && opts.report
    requires Distinct(prior)
    requires forall x :: x in prior ==> x in NetIds(names)
    requires name in names && NetId(name) !in prior && Eligible(opts, svc, name)
    ensures var o := Pass(opts, svc, names, prior);
            o.end == Completed ==>
              || NetId(name) in o.reported
              || Attempt(NetId(name), ParsePcap(name, svc.extract(name)).value, false) in o.attempts
  {
    CurrentLedgerOpensGate(names, prior, name);
    PassComplete(opts, svc, names, prior);
  }
}
