/** Verdicts spelled out call by call and value by value. */
module AnswerValues {
  import opened KvTypes
  import opened KvStore
  import opened HistorySpec
  import opened HistoryChecker
  import opened FuzzMachine
  import opened FuzzInvariant
  import opened FuzzSafety
  import opened Acceptance
  import opened Linearization
  import opened OneClient

  // ---------- the complete history ----------

  ghost predicate SpanFrom(r: Record, k: string, c: nat, span: UpdateSpan) {
    r.client == c && Leaves(r.call, k, span.value) && span.tsCall == r.tsCall && span.tsResp == r.tsResp
  }

  /** A client's history of a key holds the dummy erasure and one span for each put, swap
      and delete of that key, with its times and the value it left, and nothing else. */
  lemma {:induction false} SpansExact(log: seq<Record>, k: string, c: nat, span: UpdateSpan)
    ensures span in FullSpans(log, k, c) <==>
      span == UpdateSpan(0, 0, None) || exists i :: 0 <= i < |log| && SpanFrom(log[i], k, c, span)
  {
    if log != [] {
      var n := |log| - 1;
      var prefix, last := log[..n], log[n];
      SpansExact(prefix, k, c, span);
      LeavesExact(last.call, k, span.value);
      assert SpanFrom(last, k, c, span) <==> IsUpdate(last, c, k) && span == SpanOf(last);
      if i :| 0 <= i < |prefix| && SpanFrom(prefix[i], k, c, span) {
        assert SpanFrom(log[i], k, c, span);
      }
      if i :| 0 <= i < |log| && SpanFrom(log[i], k, c, span) {
        assert i < n ==> SpanFrom(prefix[i], k, c, span);
      }
    }
  }

  // ---------- any number of clients ----------

  /** Record `j` left `value` at `k` and may be what an operation `[tsCall, tsResp]` saw:
      it was called before the operation ended, and its client ended no later put, swap
      or delete of `k` before the operation began. */
  ghost predicate SeenFrom(log: seq<Record>, j: nat, k: string, value: Option<string>, tsCall: nat, tsResp: nat)
    requires j < |log|
  {
    && Leaves(log[j].call, k, value) && log[j].tsCall < tsResp
    && forall n :: j < n < |log| && log[n].client == log[j].client && Touches(log[n].call, k) ==> tsCall <= log[n].tsResp
  }

  ghost predicate NeverTouched(log: seq<Record>, c: nat, k: string, tsCall: nat) {
    forall n :: 0 <= n < |log| && log[n].client == c && Touches(log[n].call, k) ==> tsCall <= log[n].tsResp
  }

  /** Some update left `value`, or it is absence and some client had not touched `k`. */
  ghost predicate MaySee(cfg: Config, log: seq<Record>, k: string, value: Option<string>, tsCall: nat, tsResp: nat) {
    || (exists j :: 0 <= j < |log| && SeenFrom(log, j, k, value, tsCall, tsResp))
    || (value == None && exists c :: 0 <= c < |cfg.keys| && NeverTouched(log, c, k, tsCall))
  }

  lemma {:induction false} SupportSpelled(log: seq<Record>, j: nat, k: string, value: Option<string>, tsCall: nat, tsResp: nat,
      want: Want)
    requires j < |log| && UpdateInfo(log[j].call) == Some(Update(k, value))
    ensures SeenFrom(log, j, k, value, tsCall, tsResp) && Matches(want, value) <==> Supports(log, j, k, tsCall, tsResp, want)
  {
    LeavesExact(log[j].call, k, value);
    forall n | 0 <= n < |log|
      ensures IsUpdate(log[n], log[j].client, k) <==> log[n].client == log[j].client && Touches(log[n].call, k)
    {
      LeavesExact(log[n].call, k, value);
    }
  }

  lemma {:induction false} UntouchedSpelled(log: seq<Record>, c: nat, k: string, tsCall: nat)
    ensures NeverTouched(log, c, k, tsCall) <==> Untouched(log, c, k, tsCall)
  {
    forall n | 0 <= n < |log|
      ensures IsUpdate(log[n], c, k) <==> log[n].client == c && Touches(log[n].call, k)
    {
      LeavesExact(log[n].call, k, None);
    }
  }

  /** The log supports an observation exactly if some value that fits it may be seen. */
  lemma {:induction false} SupportExact(cfg: Config, log: seq<Record>, k: string, tsCall: nat, tsResp: nat, want: Want)
    requires LogOk(cfg, log) && 0 < tsResp
    ensures LogAccepts(cfg, log, k, tsCall, tsResp, want) <==>
      exists value :: Matches(want, value) && MaySee(cfg, log, k, value, tsCall, tsResp)
  {
    hide Supports, Untouched, SeenFrom, NeverTouched, Matches;
    if j :| 0 <= j < |log| && log[j].client < |cfg.keys| && Supports(log, j, k, tsCall, tsResp, want) {
      var value := SupportedValue(log, j, k, tsCall, tsResp, want);
      SupportSpelled(log, j, k, value, tsCall, tsResp, want);
      assert MaySee(cfg, log, k, value, tsCall, tsResp);
    }
    if c :| 0 <= c < |cfg.keys| && Untouched(log, c, k, tsCall) && Matches(want, None) {
      UntouchedSpelled(log, c, k, tsCall);
      assert MaySee(cfg, log, k, None, tsCall, tsResp);
    }
    if value :| Matches(want, value) && MaySee(cfg, log, k, value, tsCall, tsResp) {
      if j :| 0 <= j < |log| && SeenFrom(log, j, k, value, tsCall, tsResp) {
        SeenLeaves(log, j, k, value, tsCall, tsResp);
        SupportSpelled(log, j, k, value, tsCall, tsResp, want);
      } else {
        var c :| 0 <= c < |cfg.keys| && NeverTouched(log, c, k, tsCall);
        UntouchedSpelled(log, c, k, tsCall);
      }
    }
  }

  lemma {:induction false} SeenLeaves(log: seq<Record>, j: nat, k: string, value: Option<string>, tsCall: nat, tsResp: nat)
    requires j < |log| && SeenFrom(log, j, k, value, tsCall, tsResp)
    ensures UpdateInfo(log[j].call) == Some(Update(k, value))
  {
    LeavesExact(log[j].call, k, value);
  }

  lemma {:induction false} SupportedValue(log: seq<Record>, j: nat, k: string, tsCall: nat, tsResp: nat, want: Want)
    returns (value: Option<string>)
    requires j < |log| && Supports(log, j, k, tsCall, tsResp, want)
    ensures Matches(want, value) && UpdateInfo(log[j].call) == Some(Update(k, value))
  {
    value := UpdateInfo(log[j].call).value.value;
  }

  /** The map holds, at each key, what the last call that touched it left. */
  lemma {:induction false} StoreExact(log: seq<Record>, n: nat, k: string, value: Option<string>)
    requires n <= |log|
    ensures ValueAt(StoreAt(log, n), k) == value <==>
      || (exists j :: 0 <= j < n && Leaves(log[j].call, k, value) && forall i :: j < i < n ==> !Touches(log[i].call, k))
      || (value == None && forall i :: 0 <= i < n ==> !Touches(log[i].call, k))
  {
    if n > 0 {
      StoreExact(log, n - 1, k, value);
      LeavesExact(log[n - 1].call, k, value);
      if Touches(log[n - 1].call, k) {
        assert ValueAt(StoreAt(log, n), k) == UpdateInfo(log[n - 1].call).value.value;
      } else {
        assert ValueAt(StoreAt(log, n), k) == ValueAt(StoreAt(log, n - 1), k);
      }
    }
  }

  // ---------- scan listings ----------

  /** In range, no key twice. */
  ghost predicate InBounds(lo: string, hi: string, es: seq<(string, string)>) {
    && (forall i :: 0 <= i < |es| ==> !Less(es[i].0, lo) && !Less(hi, es[i].0))
    && (forall i, j :: 0 <= i < j < |es| ==> es[i].0 != es[j].0)
  }

  /** What a listing says about `k`. */
  ghost predicate Says(es: seq<(string, string)>, k: string, value: Option<string>) {
    match value
    case Some(v) => (k, v) in es
    case None => forall i :: 0 <= i < |es| ==> es[i].0 != k
  }

  lemma {:induction false} SaysExact(es: seq<(string, string)>, k: string, value: Option<string>)
    requires forall i, j :: 0 <= i < j < |es| ==> es[i].0 != es[j].0
    ensures Says(es, k, value) <==> value == Lookup(es, k)
  {
    if HasKey(es, k) {
      var i :| 0 <= i < |es| && es[i].0 == k;
      LookupUnique(es, i);
      assert es[i] == (k, es[i].1) && es[i] in es;
    } else {
      LookupAbsent(es, k);
    }
  }

  // ---------- verdicts ----------

  /** What an answer claims, in terms of the values `may` lets it see. */
  ghost predicate Claims(pool: set<string>, may: (string, Option<string>) -> bool, resp: KvResp) {
    match resp
    case PutResp(k, f) => k in pool && exists value :: may(k, value) && f == value.Some?
    case SwapResp(k, v) => k in pool && may(k, v)
    case GetResp(k, v) => k in pool && may(k, v)
    case ScanResp(lo, hi, es) =>
      && InBounds(lo, hi, es)
      && forall k, value :: k in pool && !Less(k, lo) && !Less(hi, k) && Says(es, k, value) ==> may(k, value)
    case DeleteResp(k, f) => k in pool && exists value :: may(k, value) && f == value.Some?
    case StopResp => false
  }

  lemma {:induction false} AcceptedClaims(cfg: Config, log: seq<Record>, e: QueuedSpan, may: (string, Option<string>) -> bool)
    requires forall k, want :: LogAccepts(cfg, log, k, e.tsCall, e.tsResp, want) <==>
      exists value :: Matches(want, value) && may(k, value)
    ensures Accepted(cfg, log, e) <==> Claims(Pool(cfg.keys), may, e.resp)
  {
    hide LogAccepts, Lookup, Less, Says;
    forall k, f
      ensures LogAccepts(cfg, log, k, e.tsCall, e.tsResp, Presence(f)) <==>
        exists value :: may(k, value) && f == value.Some?
    {
    }
    forall k, v
      ensures LogAccepts(cfg, log, k, e.tsCall, e.tsResp, Exactly(v)) <==> may(k, v)
    {
    }
    if e.resp.ScanResp? && InBounds(e.resp.keyStart, e.resp.keyEnd, e.resp.entries) {
      var es := e.resp.entries;
      forall k, value
        ensures Says(es, k, value) <==> value == Lookup(es, k)
      {
        SaysExact(es, k, value);
      }
    }
  }

  /** With any number of clients, a checked answer is accepted if and only if every value
      it claims may have been seen. */
  lemma {:induction false} VerdictsClaim(cfg: Config, evs: seq<Event>, i: nat)
    requires ValidConfig(cfg) && Legal(cfg, evs) && i < |Run(cfg, evs).verdicts|
    ensures var s := Run(cfg, evs);
      && i < |s.log|
      && var r := s.log[i];
      s.verdicts[i] <==>
        Claims(Pool(cfg.keys), (k, value) => MaySee(cfg, s.log, k, value, r.tsCall, r.tsResp), r.resp)
  {
    hide Run, Legal, FlightsOk, CountsOk, SpansOk, QueueOk, CheckedOk, PendingOk, MaxtrOk, Offline, Claims, Accepted,
         LogAccepts, MaySee, CanGenerate;
    RunInv(cfg, evs);
    var s := Run(cfg, evs);
    var r := s.log[i];
    ExactAcceptance(cfg, s.log, EntryOf(r));
    forall k, want
      ensures LogAccepts(cfg, s.log, k, r.tsCall, r.tsResp, want) <==>
        exists value :: Matches(want, value) && MaySee(cfg, s.log, k, value, r.tsCall, r.tsResp)
    {
      SupportExact(cfg, s.log, k, r.tsCall, r.tsResp, want);
    }
    AcceptedClaims(cfg, s.log, EntryOf(r), (k, value) => MaySee(cfg, s.log, k, value, r.tsCall, r.tsResp));
  }

  /** The answer tells of `v` at `k`. */
  ghost predicate Tells(resp: KvResp, k: string, v: string) {
    || resp == GetResp(k, Some(v)) || resp == SwapResp(k, Some(v))
    || (resp.ScanResp? && (k, v) in resp.entries)
  }

  /** A value that no put or swap of that key in the log wrote is never accepted. */
  lemma {:induction false} InventedValueRejected(cfg: Config, evs: seq<Event>, i: nat, k: string, v: string)
    requires ValidConfig(cfg) && Legal(cfg, evs) && i < |Run(cfg, evs).verdicts| && i < |Run(cfg, evs).log|
    requires k in Pool(cfg.keys) && Tells(Run(cfg, evs).log[i].resp, k, v)
    requires forall j :: 0 <= j < |Run(cfg, evs).log| ==>
      Run(cfg, evs).log[j].call != Put(k, v) && Run(cfg, evs).log[j].call != Swap(k, v)
    ensures !Run(cfg, evs).verdicts[i]
  {
    hide Run, Legal, Less;
    var s := Run(cfg, evs);
    var r := s.log[i];
    VerdictsClaim(cfg, evs, i);
    assert !MaySee(cfg, s.log, k, Some(v), r.tsCall, r.tsResp);
    if r.resp.ScanResp? {
      assert Says(r.resp.entries, k, Some(v));
      var n :| 0 <= n < |r.resp.entries| && r.resp.entries[n] == (k, v);
    }
  }

  // ---------- one client ----------

  /** What the map holds, or for the key of an update what that update leaves. */
  ghost function LoneMay(store: Store, call: KvCall): (string, Option<string>) -> bool {
    (k, value) => value == ValueAt(store, k) || Leaves(call, k, value)
  }

  /** With one client, a checked answer is accepted if and only if every value it claims
      is what the earlier calls left, or for the key of an update what that left. */
  lemma {:induction false} LoneVerdictsClaim(cfg: Config, evs: seq<Event>, i: nat)
    requires ValidConfig(cfg) && |cfg.keys| == 1 && Legal(cfg, evs) && i < |Run(cfg, evs).verdicts|
    ensures var s := Run(cfg, evs);
      && i < |s.log|
      && (s.verdicts[i] <==> Claims(Pool(cfg.keys), LoneMay(StoreAt(s.log, i), s.log[i].call), s.log[i].resp))
  {
    hide Run, Legal, FlightsOk, CountsOk, SpansOk, QueueOk, CheckedOk, PendingOk, MaxtrOk, Offline, Claims, Accepted,
         LogAccepts, CanGenerate, StoreAt, ValueAt;
    RunInv(cfg, evs);
    var s := Run(cfg, evs);
    var r, store := s.log[i], StoreAt(s.log, i);
    ExactAcceptance(cfg, s.log, EntryOf(r));
    forall k, want
      ensures LogAccepts(cfg, s.log, k, r.tsCall, r.tsResp, want) <==>
        exists value :: Matches(want, value) && (value == ValueAt(store, k) || Leaves(r.call, k, value))
    {
      FitsExact(cfg, s.log, i, k, want);
      FitsSpelled(store, r.call, k, want);
    }
    AcceptedClaims(cfg, s.log, EntryOf(r), LoneMay(store, r.call));
  }

  lemma {:induction false} FitsSpelled(store: Store, call: KvCall, k: string, want: Want)
    ensures Fits(store, call, k, want) <==>
      exists value :: Matches(want, value) && (value == ValueAt(store, k) || Leaves(call, k, value))
  {
    if Fits(store, call, k, want) && !Matches(want, ValueAt(store, k)) {
      assert Leaves(call, k, UpdateInfo(call).value.value);
    }
    if value :| Matches(want, value) && (value == ValueAt(store, k) || Leaves(call, k, value)) {
      LeavesExact(call, k, value);
    }
  }

  /** The listing tells, of every pool key in range, just what the map holds. */
  ghost predicate ListsStore(pool: set<string>, store: Store, lo: string, hi: string, es: seq<(string, string)>) {
    && InBounds(lo, hi, es)
    && forall k :: k in pool && !Less(k, lo) && !Less(hi, k) ==>
         (k in store ==> (k, store[k]) in es) && (k !in store ==> forall i :: 0 <= i < |es| ==> es[i].0 != k)
  }

  /** The verdicts for one client, kind by kind: a get is right if it tells what the map
      holds; a put may say "found" or tell the truth, a delete "not found" or the truth, a
      swap the new value or the truth; a scan must list exactly what the map holds. */
  lemma {:induction false} LoneVerdicts(cfg: Config, evs: seq<Event>, i: nat)
    requires ValidConfig(cfg) && |cfg.keys| == 1 && Legal(cfg, evs)
    requires i < |Run(cfg, evs).verdicts| && i < |Run(cfg, evs).log|
    ensures var s := Run(cfg, evs); var call, resp, ok := s.log[i].call, s.log[i].resp, s.verdicts[i];
      var pool, store := Pool(cfg.keys), StoreAt(s.log, i);
      && (call.Get? && resp.GetResp? ==>
            (ok <==> resp.key in pool && match resp.value
                                         case Some(v) => resp.key in store && store[resp.key] == v
                                         case None => resp.key !in store))
      && (call.Put? && resp.PutResp? && resp.key == call.key ==>
            (ok <==> call.key in pool && (resp.found || call.key !in store)))
      && (call.Swap? && resp.SwapResp? && resp.key == call.key ==>
            (ok <==> call.key in pool && match resp.oldValue
                                         case Some(v) => v == call.value || (call.key in store && store[call.key] == v)
                                         case None => call.key !in store))
      && (call.Delete? && resp.DeleteResp? && resp.key == call.key ==>
            (ok <==> call.key in pool && (!resp.found || call.key in store)))
      && (call.Scan? && resp.ScanResp? ==> (ok <==> ListsStore(pool, store, resp.keyStart, resp.keyEnd, resp.entries)))
  {
    hide Run, Legal, StoreAt, Less;
    var s := Run(cfg, evs);
    var call, resp, store := s.log[i].call, s.log[i].resp, StoreAt(s.log, i);
    LoneVerdictsClaim(cfg, evs, i);
    var may := LoneMay(store, call);
    if call.Scan? && resp.ScanResp? {
      ScanClaims(Pool(cfg.keys), store, call, resp);
    } else if call.Put? && resp.PutResp? && resp.key == call.key {
      assert may(call.key, Some(call.value)) && may(call.key, ValueAt(store, call.key));
    } else if call.Delete? && resp.DeleteResp? && resp.key == call.key {
      assert may(call.key, None) && may(call.key, ValueAt(store, call.key));
    }
  }

  lemma {:induction false} ScanClaims(pool: set<string>, store: Store, call: KvCall, resp: KvResp)
    requires call.Scan? && resp.ScanResp?
    ensures Claims(pool, LoneMay(store, call), resp) <==>
      ListsStore(pool, store, resp.keyStart, resp.keyEnd, resp.entries)
  {
    hide Less;
    var es := resp.entries;
    var may := LoneMay(store, call);
    assert forall k, value :: may(k, value) <==> value == ValueAt(store, k);
    if Claims(pool, may, resp) {
      forall k | k in pool && !Less(k, resp.keyStart) && !Less(resp.keyEnd, k)
        ensures Says(es, k, ValueAt(store, k))
      {
        SaysExact(es, k, Lookup(es, k));
        assert may(k, Lookup(es, k));
      }
    }
    if ListsStore(pool, store, resp.keyStart, resp.keyEnd, es) {
      forall k, value | k in pool && !Less(k, resp.keyStart) && !Less(resp.keyEnd, k) && Says(es, k, value)
        ensures may(k, value)
      {
        assert Says(es, k, ValueAt(store, k));
        SaysExact(es, k, value);
        SaysExact(es, k, ValueAt(store, k));
      }
    }
  }
}
