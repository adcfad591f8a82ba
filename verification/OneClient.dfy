/** With a single client nothing overlaps, and verdicts can be told from the map. */
module OneClient {
  import opened KvTypes
  import opened KvStore
  import opened HistorySpec
  import opened FuzzMachine
  import opened FuzzInvariant
  import opened FuzzSafety
  import opened Acceptance

  /** The map after the first `n` calls of the log, from an empty one. */
  function StoreAt(log: seq<Record>, n: nat): Store
    requires n <= |log|
  {
    if n == 0 then map[] else After(StoreAt(log, n - 1), log[n - 1].call)
  }

  /** Record `j` is the last of the first `n` that updates `k`; -1 if none does. */
  ghost predicate IsLast(log: seq<Record>, n: nat, k: string, j: int)
    requires n <= |log|
  {
    && -1 <= j < n
    && (j >= 0 ==> IsUpdate(log[j], 0, k))
    && forall i :: j < i < n ==> !IsUpdate(log[i], 0, k)
  }

  lemma {:induction false} LastUpdateHolds(log: seq<Record>, n: nat, k: string) returns (j: int)
    requires n <= |log| && forall i :: 0 <= i < |log| ==> log[i].client == 0
    ensures IsLast(log, n, k, j)
    ensures ValueAt(StoreAt(log, n), k) == if j >= 0 then SpanOf(log[j]).value else None
  {
    if n == 0 {
      j := -1;
    } else {
      j := LastUpdateHolds(log, n - 1, k);
      if IsUpdate(log[n - 1], 0, k) {
        j := n - 1;
      }
    }
  }

  ghost predicate Alone(cfg: Config, log: seq<Record>) {
    |cfg.keys| == 1 && LogOk(cfg, log)
  }

  /** An observation of `k` fits what the map held, or what the call itself wrote. */
  predicate Fits(store: Store, call: KvCall, k: string, want: Want) {
    || Matches(want, ValueAt(store, k))
    || match UpdateInfo(call)
       case None => false
       case Some(u) => u.key == k && Matches(want, u.value)
  }

  lemma {:induction false} HeldSupports(cfg: Config, log: seq<Record>, i: nat, k: string, j: int, want: Want)
    requires Alone(cfg, log) && i < |log| && IsLast(log, i, k, j)
    requires Matches(want, if j >= 0 then SpanOf(log[j]).value else None)
    ensures LogAccepts(cfg, log, k, log[i].tsCall, log[i].tsResp, want)
  {
    hide CanGenerate, IsUpdate, SpanOf;
    assert forall n :: i < n < |log| ==> log[i].tsResp < log[n].tsResp;
    if j >= 0 {
      assert log[j].client == 0 == log[i].client;
      assert Supports(log, j, k, log[i].tsCall, log[i].tsResp, want);
    } else {
      assert Untouched(log, 0, k, log[i].tsCall);
    }
  }

  lemma {:induction false} OwnSupports(cfg: Config, log: seq<Record>, i: nat, k: string, want: Want)
    requires Alone(cfg, log) && i < |log| && IsUpdate(log[i], 0, k) && Matches(want, SpanOf(log[i]).value)
    ensures LogAccepts(cfg, log, k, log[i].tsCall, log[i].tsResp, want)
  {
    hide CanGenerate, SpanOf;
    assert forall n :: i < n < |log| ==> log[i].tsResp < log[n].tsResp;
    assert Supports(log, i, k, log[i].tsCall, log[i].tsResp, want);
  }

  lemma {:induction false} SupportsHeld(cfg: Config, log: seq<Record>, i: nat, k: string, j: int, want: Want)
    requires Alone(cfg, log) && i < |log| && IsLast(log, i, k, j)
    requires LogAccepts(cfg, log, k, log[i].tsCall, log[i].tsResp, want)
    ensures || Matches(want, if j >= 0 then SpanOf(log[j]).value else None)
            || (IsUpdate(log[i], 0, k) && Matches(want, SpanOf(log[i]).value))
  {
    hide CanGenerate;
    assert forall n :: 0 <= n < |log| ==> log[n].client == 0;
    assert j >= 0 ==> log[j].tsResp < log[i].tsCall;
    if n :| 0 <= n < |log| && log[n].client < |cfg.keys| && Supports(log, n, k, log[i].tsCall, log[i].tsResp, want) {
      assert n <= i;
      assert n <= j || n == i;
    }
  }

  /** For one client, the log supports an observation exactly if it fits. */
  lemma {:induction false} FitsExact(cfg: Config, log: seq<Record>, i: nat, k: string, want: Want)
    requires Alone(cfg, log) && i < |log|
    ensures LogAccepts(cfg, log, k, log[i].tsCall, log[i].tsResp, want) <==> Fits(StoreAt(log, i), log[i].call, k, want)
  {
    hide LogAccepts, Matches, ValueAt, After, CanGenerate;
    var j := LastUpdateHolds(log, i, k);
    if Matches(want, ValueAt(StoreAt(log, i), k)) {
      HeldSupports(cfg, log, i, k, j, want);
    } else if Fits(StoreAt(log, i), log[i].call, k, want) {
      OwnSupports(cfg, log, i, k, want);
    }
    if LogAccepts(cfg, log, k, log[i].tsCall, log[i].tsResp, want) {
      SupportsHeld(cfg, log, i, k, j, want);
    }
  }

  /** An answer that fits the map before the call, key by key. */
  ghost predicate AnswerFits(pool: set<string>, store: Store, call: KvCall, resp: KvResp) {
    match resp
    case PutResp(k, f) => k in pool && Fits(store, call, k, Presence(f))
    case SwapResp(k, v) => k in pool && Fits(store, call, k, Exactly(v))
    case GetResp(k, v) => k in pool && Fits(store, call, k, Exactly(v))
    case ScanResp(lo, hi, es) =>
      EntriesOk(lo, hi, es) && forall k :: k in pool && InRange(lo, k, hi) ==> Fits(store, call, k, Exactly(Lookup(es, k)))
    case DeleteResp(k, f) => k in pool && Fits(store, call, k, Presence(f))
    case StopResp => false
  }

  lemma {:induction false} AcceptedFits(cfg: Config, log: seq<Record>, i: nat)
    requires Alone(cfg, log) && i < |log|
    ensures Accepted(cfg, log, EntryOf(log[i])) <==> AnswerFits(Pool(cfg.keys), StoreAt(log, i), log[i].call, log[i].resp)
  {
    hide LogAccepts, EntriesOk, Lookup, LogOk, StoreAt, Fits, InRange;
    forall k, want
      ensures LogAccepts(cfg, log, k, log[i].tsCall, log[i].tsResp, want) <==> Fits(StoreAt(log, i), log[i].call, k, want)
    {
      FitsExact(cfg, log, i, k, want);
    }
  }

  /** In a run of one client with arbitrary answers, a checked answer is accepted if and
      only if it tells what the earlier calls left in the map, or for the key of an
      update what that update wrote. */
  lemma {:induction false} VerdictsExact(cfg: Config, evs: seq<Event>, i: nat)
    requires ValidConfig(cfg) && |cfg.keys| == 1 && Legal(cfg, evs) && i < |Run(cfg, evs).verdicts|
    ensures var s := Run(cfg, evs);
      && i < |s.log|
      && (s.verdicts[i] <==> AnswerFits(Pool(cfg.keys), StoreAt(s.log, i), s.log[i].call, s.log[i].resp))
  {
    hide Run, Legal, FlightsOk, CountsOk, SpansOk, QueueOk, CheckedOk, PendingOk, MaxtrOk, Offline, LogOk, AnswerFits, Accepted;
    RunInv(cfg, evs);
    var s := Run(cfg, evs);
    ExactAcceptance(cfg, s.log, EntryOf(s.log[i]));
    AcceptedFits(cfg, s.log, i);
  }
}
