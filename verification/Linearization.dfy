/** A run whose answers can be linearized over an initially empty map is never faulted. */
module Linearization {
  import opened KvTypes
  import opened KvStore
  import opened HistorySpec
  import opened HistoryChecker
  import opened FuzzMachine
  import opened FuzzInvariant
  import opened FuzzSafety
  import opened Acceptance

  /** An operation of the run: an answered one, or the one a client has in flight. */
  datatype Item = Done(i: nat) | Flying(c: nat)

  predicate IsItem(s: Loop, x: Item) {
    match x
    case Done(i) => i < |s.log|
    case Flying(c) => c < |s.inFlight| && c < |s.memo| && s.inFlight[c].Some?
  }

  function CallOf(s: Loop, x: Item): KvCall
    requires IsItem(s, x)
  {
    match x
    case Done(i) => s.log[i].call
    case Flying(c) => s.inFlight[c].value
  }

  function CallTime(s: Loop, x: Item): nat
    requires IsItem(s, x)
  {
    match x
    case Done(i) => s.log[i].tsCall
    case Flying(c) => s.memo[c].ts
  }

  ghost predicate Items(s: Loop, lin: seq<Item>) {
    forall p :: 0 <= p < |lin| ==> IsItem(s, lin[p])
  }

  /** The map just before position `p`. */
  ghost function StoreBefore(s: Loop, lin: seq<Item>, p: nat): Store
    requires Items(s, lin) && p <= |lin|
  {
    if p == 0 then map[] else After(StoreBefore(s, lin, p - 1), CallOf(s, lin[p - 1]))
  }

  /** `lin` orders all answered operations and any of those in flight, respects real
      time, and every answer is the map's answer at that point. */
  ghost predicate IsLinearization(s: Loop, lin: seq<Item>) {
    && Items(s, lin)
    && (forall p, q :: 0 <= p < q < |lin| ==> lin[p] != lin[q])
    && (forall i :: 0 <= i < |s.log| ==> Done(i) in lin)
    && (forall p, q :: 0 <= p < q < |lin| && lin[q].Done? ==> !(s.log[lin[q].i].tsResp < CallTime(s, lin[p])))
    && (forall p :: 0 <= p < |lin| && lin[p].Done? ==>
          Answers(StoreBefore(s, lin, p), Inclusive, s.log[lin[p].i].call, s.log[lin[p].i].resp))
  }

  predicate Writes(s: Loop, x: Item, k: string)
    requires IsItem(s, x)
  {
    UpdateInfo(CallOf(s, x)).Some? && UpdateInfo(CallOf(s, x)).value.key == k
  }

  /** The last position before `p` that writes `k`, or -1. */
  ghost function LastWrite(s: Loop, lin: seq<Item>, p: nat, k: string): (q: int)
    requires Items(s, lin) && p <= |lin|
    ensures -1 <= q < p
    ensures q >= 0 ==> Writes(s, lin[q], k)
    ensures forall j :: q < j < p ==> !Writes(s, lin[j], k)
  {
    if p == 0 then -1 else if Writes(s, lin[p - 1], k) then p - 1 else LastWrite(s, lin, p - 1, k)
  }

  ghost function Written(s: Loop, lin: seq<Item>, q: int): Option<string>
    requires Items(s, lin) && q < |lin| && (q >= 0 ==> UpdateInfo(CallOf(s, lin[q])).Some?)
  {
    if q < 0 then None else UpdateInfo(CallOf(s, lin[q])).value.value
  }

  /** The map holds what the last write left. */
  lemma {:induction false} StoreHoldsLastWrite(s: Loop, lin: seq<Item>, p: nat, k: string)
    requires Items(s, lin) && p <= |lin|
    ensures ValueAt(StoreBefore(s, lin, p), k) == Written(s, lin, LastWrite(s, lin, p, k))
  {
    if p > 0 {
      StoreHoldsLastWrite(s, lin, p - 1, k);
    }
  }

  /** What the map held when an already checked operation took effect is supported by
      the log. */
  lemma {:induction false} HeldIsSupported(cfg: Config, s: Loop, lin: seq<Item>, p: nat, k: string, want: Want)
    requires Inv(cfg, s) && IsLinearization(s, lin)
    requires p < |lin| && lin[p].Done? && lin[p].i < |s.verdicts|
    requires Matches(want, ValueAt(StoreBefore(s, lin, p), k))
    ensures var e := s.log[lin[p].i]; LogAccepts(cfg, s.log, k, e.tsCall, e.tsResp, want)
  {
    var e := s.log[lin[p].i];
    var q := LastWrite(s, lin, p, k);
    StoreHoldsLastWrite(s, lin, p, k);
    if q < 0 {
      NoEarlierWrite(cfg, s, lin, p, k, 0, -1);
      assert Untouched(s.log, 0, k, e.tsCall);
    } else {
      WriteWasAnswered(cfg, s, lin, p, q);
      var j := lin[q].i;
      NoEarlierWrite(cfg, s, lin, p, k, s.log[j].client, q);
      assert Supports(s.log, j, k, e.tsCall, e.tsResp, want);
    }
  }

  /** An operation placed before a checked one was called before it ended, and is answered. */
  lemma {:induction false} WriteWasAnswered(cfg: Config, s: Loop, lin: seq<Item>, p: nat, q: nat)
    requires Inv(cfg, s) && IsLinearization(s, lin)
    requires q < p < |lin| && lin[p].Done? && lin[p].i < |s.verdicts|
    ensures lin[q].Done? && s.log[lin[q].i].tsCall < s.log[lin[p].i].tsResp
  {
    var e := s.log[lin[p].i];
    if lin[q].Flying? {
      var c := lin[q].c;
      assert FlightOk(cfg, c, s.memo[c], s.inFlight[c].value, s.log, s.timestamp);
      LastUpdateBound(s.log, c, s.memo[c].ts);
    }
  }

  /** A same-client write of `k` after position `q` that ended before the operation at `p`
      began would lie between the two. */
  lemma {:induction false} NoEarlierWrite(cfg: Config, s: Loop, lin: seq<Item>, p: nat, k: string, c: nat, q: int)
    requires LogOk(cfg, s.log) && IsLinearization(s, lin)
    requires p < |lin| && lin[p].Done? && q == LastWrite(s, lin, p, k)
    requires q >= 0 ==> lin[q].Done? && s.log[lin[q].i].client == c
    ensures forall j :: (if q >= 0 then lin[q].i + 1 else 0) <= j < |s.log| && IsUpdate(s.log[j], c, k) ==>
      s.log[lin[p].i].tsCall <= s.log[j].tsResp
  {
    hide Answers, StoreBefore, CanGenerate, LastWrite;
    var first := if q >= 0 then lin[q].i + 1 else 0;
    forall j | first <= j < |s.log| && IsUpdate(s.log[j], c, k)
      ensures s.log[lin[p].i].tsCall <= s.log[j].tsResp
    {
      assert Done(j) in lin;
      var m :| 0 <= m < |lin| && lin[m] == Done(j);
      assert Writes(s, lin[m], k);
    }
  }

  /** Entries listing a range exactly are in range, duplicate-free, and look up the map. */
  lemma {:induction false} ScanLooksUp(store: Store, lo: string, hi: string, entries: seq<(string, string)>)
    requires IsScan(store, Inclusive, lo, hi, entries)
    ensures EntriesOk(lo, hi, entries)
    ensures forall k :: InRange(lo, k, hi) ==> Lookup(entries, k) == ValueAt(store, k)
  {
    forall i, j | 0 <= i < j < |entries|
      ensures entries[i].0 != entries[j].0
    {
      LessIrreflexive(entries[i].0);
    }
    forall k | InRange(lo, k, hi)
      ensures Lookup(entries, k) == ValueAt(store, k)
    {
      if HasKey(entries, k) {
        var i :| 0 <= i < |entries| && entries[i].0 == k;
        LookupUnique(entries, i);
      } else {
        LookupAbsent(entries, k);
      }
    }
  }

  lemma {:induction false} LookupAbsent(entries: seq<(string, string)>, k: string)
    requires !HasKey(entries, k)
    ensures Lookup(entries, k) == None
  {
    if entries != [] {
      LookupAbsent(entries[..|entries| - 1], k);
    }
  }

  /** A checked answer with a place in a linearization is accepted. */
  lemma {:induction false} PlacedIsAccepted(cfg: Config, s: Loop, lin: seq<Item>, p: nat)
    requires Inv(cfg, s) && IsLinearization(s, lin)
    requires p < |lin| && lin[p].Done? && lin[p].i < |s.verdicts|
    ensures Accepted(cfg, s.log, EntryOf(s.log[lin[p].i]))
  {
    var e, store := s.log[lin[p].i], StoreBefore(s, lin, p);
    assert Answers(store, Inclusive, e.call, e.resp);
    assert CanGenerate(cfg.keys[e.client], e.call);
    hide Inv, IsLinearization, LogAccepts, StoreBefore, EntriesOk, Lookup, Less, IsScan;
    match e.resp
    case PutResp(k, f) => HeldIsSupported(cfg, s, lin, p, k, Presence(f));
    case SwapResp(k, v) => HeldIsSupported(cfg, s, lin, p, k, Exactly(v));
    case GetResp(k, v) => HeldIsSupported(cfg, s, lin, p, k, Exactly(v));
    case DeleteResp(k, f) => HeldIsSupported(cfg, s, lin, p, k, Presence(f));
    case ScanResp(lo, hi, es) =>
      ScanLooksUp(store, lo, hi, es);
      forall k | k in Pool(cfg.keys) && InRange(lo, k, hi)
        ensures LogAccepts(cfg, s.log, k, e.tsCall, e.tsResp, Exactly(Lookup(es, k)))
      {
        HeldIsSupported(cfg, s, lin, p, k, Exactly(Lookup(es, k)));
      }
    case StopResp =>
  }

  /** No false alarm: if the answers of a run have a linearization over an initially
      empty map with inclusive scans, every verdict was positive and no violation is
      ever reported, whichever operations the run issued. */
  lemma {:induction false} NoFalseAlarm(cfg: Config, evs: seq<Event>, lin: seq<Item>)
    requires ValidConfig(cfg) && Legal(cfg, evs) && IsLinearization(Run(cfg, evs), lin)
    ensures var s := Run(cfg, evs);
      (forall i :: 0 <= i < |s.verdicts| ==> s.verdicts[i]) && s.status != Violated && s.status != BadKey
  {
    hide Run, Legal;
    var s := Run(cfg, evs);
    RunInv(cfg, evs);
    forall i | 0 <= i < |s.verdicts|
      ensures s.verdicts[i]
    {
      assert Done(i) in lin;
      var p :| 0 <= p < |lin| && lin[p] == Done(i);
      PlacedIsAccepted(cfg, s, lin, p);
      ExactAcceptance(cfg, s.log, EntryOf(s.log[i]));
    }
  }
}
