/**
 * `wait_for_postgres` of property.py: probe the database host until a probe
 * reports "accepting connections", giving up after `max_retries` failed
 * probes. The external probe is replaced by a sequence of its outcomes; the
 * pause between attempts and the log lines are not modelled.
 */
module Poller {
  import opened Wrappers

  /** What one run of the readiness probe can come to. */
  datatype Probe =
    | Raised               // non-zero exit status, raised as CalledProcessError
    | OkWithAcceptingText  // exit status 0, output contains "accepting connections"
    | OkWithoutText        // exit status 0, output lacks it

  /**
   * How a poll ends: the value returned, the final `retries` counter and the
   * number of probes run.
   */
  datatype PollOutcome = PollOutcome(connected: bool, retries: nat, attempts: nat)

  /** Adds `k` probes run before `o`. */
  function Shift(o: Option<PollOutcome>, k: nat): Option<PollOutcome> {
    match o
    case None => None
    case Some(p) => Some(p.(attempts := p.attempts + k))
  }

  /**
   * The loop of `wait_for_postgres` as a function: from counter `retries`,
   * with `probes` still to come. `None` when the outcomes run out before the
   * loop has decided.
   */
  function Poll(probes: seq<Probe>, retries: nat, maxRetries: int): Option<PollOutcome>
    decreases |probes|
  {
    if !(retries < maxRetries) then Some(PollOutcome(false, retries, 0))
    else if probes == [] then None
    else
      match probes[0]
      case OkWithAcceptingText => Some(PollOutcome(true, retries, 1))
      case Raised => Shift(Poll(probes[1..], retries + 1, maxRetries), 1)
      case OkWithoutText => Shift(Poll(probes[1..], retries, maxRetries), 1)
  }

  /** The number of probes in `s` that raised. */
  function CountRaised(s: seq<Probe>): nat {
    if s == [] then 0
    else (if s[0] == Raised then 1 else 0) + CountRaised(s[1..])
  }

  /**
   * `s` without the probes that exited normally without the expected text:
   * none of those is left, and every other probe keeps its number of
   * occurrences.
   */
  function Strip(s: seq<Probe>): (r: seq<Probe>)
    ensures forall j :: 0 <= j < |r| ==> r[j] != OkWithoutText
    ensures forall p :: p != OkWithoutText ==> multiset(r)[p] == multiset(s)[p]
    ensures |r| <= |s|
  {
    if s == [] then []
    else
      assert s == [s[0]] + s[1..];
      (if s[0] == OkWithoutText then [] else [s[0]]) + Strip(s[1..])
  }

  /**
   * What a decided poll promises: it stops at the first probe that reports
   * "accepting connections" and then returns true with fewer than
   * `maxRetries` failures; otherwise it returns false with the counter at
   * `maxRetries` (or untouched if it already was at least that), the last
   * probe run having raised. The counter only ever counts raised probes and
   * never passes `maxRetries`.
   */
  lemma {:induction false} PollFacts(probes: seq<Probe>, retries: nat, maxRetries: int)
    requires Poll(probes, retries, maxRetries).Some?
    ensures var o := Poll(probes, retries, maxRetries).value;
      && o.attempts <= |probes|
      && o.retries == retries + CountRaised(probes[..o.attempts])
      && (forall j :: 0 <= j < o.attempts - 1 ==> probes[j] != OkWithAcceptingText)
      && (o.connected <==> o.attempts > 0 && probes[o.attempts - 1] == OkWithAcceptingText)
      && (o.connected ==> o.retries < maxRetries)
      && (!o.connected ==> o.retries == if retries < maxRetries then maxRetries else retries)
      && (!o.connected && o.attempts > 0 ==> probes[o.attempts - 1] == Raised)
      && (retries >= maxRetries ==> o == PollOutcome(false, retries, 0))
    decreases |probes|
  {
    if retries < maxRetries && probes[0] != OkWithAcceptingText {
      var next := if probes[0] == Raised then retries + 1 else retries;
      PollFacts(probes[1..], next, maxRetries);
      var o' := Poll(probes[1..], next, maxRetries).value;
      assert probes[..o'.attempts + 1][1..] == probes[1..][..o'.attempts];
    } else if retries < maxRetries {
      assert probes[..1][1..] == [];
    }
  }

  /**
   * A probe that exits normally without the expected text is invisible to
   * the counter: dropping all of them changes neither whether the poll
   * decides nor what it returns nor the final counter.
   */
  lemma {:induction false} PollIgnoresNoText(probes: seq<Probe>, retries: nat, maxRetries: int)
    ensures Poll(probes, retries, maxRetries).Some? <==> Poll(Strip(probes), retries, maxRetries).Some?
    ensures Poll(probes, retries, maxRetries).Some? ==>
      && Poll(probes, retries, maxRetries).value.connected
        == Poll(Strip(probes), retries, maxRetries).value.connected
      && Poll(probes, retries, maxRetries).value.retries
        == Poll(Strip(probes), retries, maxRetries).value.retries
    decreases |probes|
  {
    if retries < maxRetries && probes != [] {
      var rest := probes[1..];
      match probes[0]
      case OkWithAcceptingText =>
        assert Strip(probes) == [OkWithAcceptingText] + Strip(rest);
      case Raised =>
        assert Strip(probes) == [Raised] + Strip(rest);
        assert Strip(probes)[1..] == Strip(rest);
        PollIgnoresNoText(rest, retries + 1, maxRetries);
      case OkWithoutText =>
        assert Strip(probes) == Strip(rest);
        PollIgnoresNoText(rest, retries, maxRetries);
    }
  }

  /**
   * When no probe lacks the text, as many outcomes as retries remain are
   * enough for the loop to decide.
   */
  lemma {:induction false} PollDecidesWithoutNoText(probes: seq<Probe>, retries: nat, maxRetries: int)
    requires forall j :: 0 <= j < |probes| ==> probes[j] != OkWithoutText
    requires maxRetries - retries <= |probes|
    ensures Poll(probes, retries, maxRetries).Some?
    decreases |probes|
  {
    if retries < maxRetries && probes[0] == Raised {
      PollDecidesWithoutNoText(probes[1..], retries + 1, maxRetries);
    }
  }

  /**
   * The loop terminates on any outcome sequence holding at least as many
   * probes that raise or succeed as retries remain, whatever number of
   * text-less probes come in between.
   */
  lemma PollDecides(probes: seq<Probe>, retries: nat, maxRetries: int)
    requires maxRetries - retries <= |Strip(probes)|
    ensures Poll(probes, retries, maxRetries).Some?
  {
    PollDecidesWithoutNoText(Strip(probes), retries, maxRetries);
    PollIgnoresNoText(probes, retries, maxRetries);
  }

  /**
   * `wait_for_postgres(host, max_retries)` run against the probe outcomes
   * `probes`, returning its result together with the final `retries`
   * counter and the number of probes run. The outcomes must suffice for
   * the loop to decide (see `PollDecides`).
   */
  method WaitForPostgres(probes: seq<Probe>, maxRetries: int)
    returns (connected: bool, retries: nat, attempts: nat)
    requires Poll(probes, 0, maxRetries).Some?
    ensures Poll(probes, 0, maxRetries) == Some(PollOutcome(connected, retries, attempts))
    ensures attempts <= |probes|
    ensures retries == CountRaised(probes[..attempts])
    ensures connected <==> attempts > 0 && probes[attempts - 1] == OkWithAcceptingText
    ensures forall j :: 0 <= j < attempts - 1 ==> probes[j] != OkWithAcceptingText
    ensures connected ==> retries < maxRetries
    ensures !connected ==> retries == if maxRetries > 0 then maxRetries else 0
    ensures maxRetries <= 0 ==> !connected && attempts == 0
  {
    retries := 0;
    attempts := 0;
    while retries < maxRetries
      invariant attempts <= |probes|
      invariant retries == CountRaised(probes[..attempts])
      invariant Poll(probes, 0, maxRetries) == Shift(Poll(probes[attempts..], retries, maxRetries), attempts)
      decreases |probes| - attempts
    {
      assert probes[attempts..] != [];
      var outcome := probes[attempts];
      assert probes[..attempts + 1] == probes[..attempts] + [outcome];
      CountRaisedAppend(probes[..attempts], outcome);
      assert probes[attempts..][1..] == probes[attempts + 1..];
      attempts := attempts + 1;
      match outcome
      case OkWithAcceptingText =>
        connected := true;
        PollFacts(probes, 0, maxRetries);
        return;
      case Raised =>
        retries := retries + 1;
      case OkWithoutText =>
    }
    connected := false;
    PollFacts(probes, 0, maxRetries);
  }

  /** Counting raised probes over a sequence extended by one outcome. */
  lemma {:induction false} CountRaisedAppend(s: seq<Probe>, p: Probe)
    ensures CountRaised(s + [p]) == CountRaised(s) + if p == Raised then 1 else 0
    decreases |s|
  {
    if s != [] {
      assert (s + [p])[1..] == s[1..] + [p];
      CountRaisedAppend(s[1..], p);
    }
  }

  /**
   * A database that never answers: with every probe raising, the poll runs
   * exactly the remaining number of probes and returns false with the
   * counter at `maxRetries`.
   */
  lemma {:induction false} UnreachableGivesUp(probes: seq<Probe>, retries: nat, maxRetries: nat)
    requires retries <= maxRetries
    requires |probes| == maxRetries - retries
    requires forall j :: 0 <= j < |probes| ==> probes[j] == Raised
    ensures Poll(probes, retries, maxRetries) == Some(PollOutcome(false, maxRetries, maxRetries - retries))
    decreases |probes|
  {
    if retries < maxRetries {
      UnreachableGivesUp(probes[1..], retries + 1, maxRetries);
    }
  }
}
