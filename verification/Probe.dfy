/** The concurrency probe of meow-io-benchmark.ts. */
module Probe {
  import opened Text

  /** What happens to a probe: an operation begins, or the end function of the `k`-th begin is called. */
  datatype Event = Begin | End(k: nat)

  /** `ended[k]` is the flag captured by the `k`-th end function. */
  datatype State = State(ended: seq<bool>, active: int, maxConcurrency: int)

  const FRESH := State([], 0, 0)

  function Max(a: int, b: int): int {
    if a > b then a else b
  }

  predicate Possible(s: State, e: Event) {
    e.End? ==> e.k < |s.ended|
  }

  function Apply(s: State, e: Event): State
    requires Possible(s, e)
  {
    match e
    case Begin => State(s.ended + [false], s.active + 1, Max(s.maxConcurrency, s.active + 1))
    case End(k) => if s.ended[k] then s else s.(ended := s.ended[k := true], active := Max(0, s.active - 1))
  }

  /** An end function exists only once its begin has happened. */
  predicate Legal(events: seq<Event>)
    decreases |events|, 0
  {
    events == [] ||
    (Legal(events[..|events| - 1]) && Possible(After(events[..|events| - 1]), events[|events| - 1]))
  }

  function After(events: seq<Event>): State
    requires Legal(events)
    decreases |events|, 1
  {
    if events == [] then FRESH else Apply(After(events[..|events| - 1]), events[|events| - 1])
  }

  /** The operations that have begun and not ended. */
  function Unfinished(ended: seq<bool>): nat {
    if ended == [] then 0 else Unfinished(ended[..|ended| - 1]) + if ended[|ended| - 1] then 0 else 1
  }

  lemma {:induction false} UnfinishedUpdate(ended: seq<bool>, k: nat)
    requires k < |ended| && !ended[k]
    ensures Unfinished(ended) >= 1 && Unfinished(ended[k := true]) == Unfinished(ended) - 1
  {
    var n := |ended| - 1;
    var ended' := ended[k := true];
    if k == n {
      assert ended'[..n] == ended[..n];
    } else {
      assert ended'[..n] == ended[..n][k := true];
      UnfinishedUpdate(ended[..n], k);
    }
  }

  /** `active` is the number of unfinished operations after every history, repeated ends included. */
  lemma {:induction false} ActiveIsUnfinished(events: seq<Event>)
    requires Legal(events)
    ensures After(events).active == Unfinished(After(events).ended)
  {
    if events != [] {
      var front, e := events[..|events| - 1], events[|events| - 1];
      ActiveIsUnfinished(front);
      var s := After(front);
      match e
      case Begin => assert (s.ended + [false])[..|s.ended|] == s.ended;
      case End(k) =>
        if !s.ended[k] {
          UnfinishedUpdate(s.ended, k);
        }
    }
  }

  /** The clamp at zero never changes anything: an end that counts finds at least one active operation. */
  lemma ClampNeverActs(events: seq<Event>, k: nat)
    requires Legal(events) && k < |After(events).ended| && !After(events).ended[k]
    ensures After(events).active >= 1
    ensures Apply(After(events), End(k)).active == After(events).active - 1
  {
    ActiveIsUnfinished(events);
    UnfinishedUpdate(After(events).ended, k);
  }

  /** A second end of the same operation, as after `close` and then `error`, changes nothing. */
  lemma EndTwiceIsOnce(s: State, k: nat)
    requires k < |s.ended|
    ensures Apply(Apply(s, End(k)), End(k)) == Apply(s, End(k))
  {
  }

  /** `maxConcurrency` is reached at some moment of the history and exceeded at none. */
  lemma {:induction false} MaxIsPeak(events: seq<Event>)
    requires Legal(events)
    ensures forall n :: 0 <= n <= |events| ==>
            Legal(events[..n]) && After(events[..n]).active <= After(events).maxConcurrency
    ensures exists n ::
            0 <= n <= |events| && Legal(events[..n]) && After(events[..n]).active == After(events).maxConcurrency
  {
    hide Apply;
    if events == [] {
      assert events[..0] == [];
      assert After(events[..0]).active == 0;
    } else {
      var front, e := events[..|events| - 1], events[|events| - 1];
      MaxIsPeak(front);
      var s, s' := After(front), After(events);
      assert front[..|front|] == front;
      assert s.active <= s.maxConcurrency;
      ActiveIsUnfinished(front);
      PeakStep(s, e);
      forall n | 0 <= n <= |events|
        ensures Legal(events[..n]) && After(events[..n]).active <= s'.maxConcurrency
      {
        if n == |events| {
          assert events[..n] == events;
        } else {
          assert front[..n] == events[..n];
        }
      }
      if s'.maxConcurrency == s.maxConcurrency {
        var n :| 0 <= n <= |front| && Legal(front[..n]) && After(front[..n]).active == s.maxConcurrency;
        assert front[..n] == events[..n];
      } else {
        assert events[..|events|] == events;
      }
    }
  }

  lemma PeakStep(s: State, e: Event)
    requires Possible(s, e)
    ensures var s' := Apply(s, e);
            && s'.maxConcurrency >= s.maxConcurrency
            && (s'.maxConcurrency != s.maxConcurrency ==> s'.active == s'.maxConcurrency)
            && (s.active >= 0 && s.active <= s.maxConcurrency ==> s'.active <= s'.maxConcurrency)
  {
  }

  // ---------------------------------------------------------------- the program

  /** One end function: the flag it captured. */
  class EndToken {
    var ended: bool

    constructor ()
      ensures !ended
    {
      ended := false;
    }
  }

  class Probe {
    var active: int
    var maxConcurrency: int
    /** When the first operation began. */
    var backendStartedAt: Option<real>
    ghost var tokens: seq<EndToken>

    constructor ()
      ensures Valid() && View() == FRESH && backendStartedAt == None
    {
      active, maxConcurrency, backendStartedAt, tokens := 0, 0, None, [];
    }

    ghost predicate Valid()
      reads this
    {
      forall i, j :: 0 <= i < j < |tokens| ==> tokens[i] != tokens[j]
    }

    ghost function View(): State
      reads this, tokens
    {
      State(seq(|tokens|, i requires 0 <= i < |tokens| reads this, tokens => tokens[i].ended), active, maxConcurrency)
    }

    method Begin(now: real) returns (end: EndToken)
      requires Valid()
      modifies this
      ensures Valid() && fresh(end) && tokens == old(tokens) + [end]
      ensures View() == Apply(old(View()), Event.Begin)
      ensures backendStartedAt == if old(backendStartedAt).Some? then old(backendStartedAt) else Some(now)
    {
      if backendStartedAt.None? {
        backendStartedAt := Some(now);
      }
      active := active + 1;
      maxConcurrency := Max(maxConcurrency, active);
      end := new EndToken();
      tokens := tokens + [end];
    }

    method End(end: EndToken, ghost k: nat)
      requires Valid() && k < |tokens| && tokens[k] == end
      modifies this`active, end
      ensures Valid() && tokens == old(tokens)
      ensures View() == Apply(old(View()), Event.End(k))
    {
      if end.ended {
        return;
      }
      end.ended := true;
      active := Max(0, active - 1);
    }

    /** `child.once("close", end); child.once("error", end)` when both events come. */
    method EndOnCloseAndError(end: EndToken, ghost k: nat)
      requires Valid() && k < |tokens| && tokens[k] == end
      modifies this`active, end
      ensures Valid() && tokens == old(tokens)
      ensures View() == Apply(old(View()), Event.End(k))
    {
      ghost var s := View();
      End(end, k);
      End(end, k);
      EndTwiceIsOnce(s, k);
    }
  }
}
