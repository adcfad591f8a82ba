/** Exactly which answers the checker accepts, in terms of the complete log. */
module Acceptance {
  import opened KvTypes
  import opened HistorySpec
  import opened FuzzMachine
  import opened FuzzInvariant

  /** Record `j` could be the update of `k` that an operation `[tsCall, tsResp]` observed:
      it was called before the operation ended, and its client acknowledged no later
      update of `k` before the operation began. */
  ghost predicate Supports(log: seq<Record>, j: nat, k: string, tsCall: nat, tsResp: nat, want: Want)
    requires j < |log|
  {
    && IsUpdate(log[j], log[j].client, k)
    && log[j].tsCall < tsResp
    && Matches(want, SpanOf(log[j]).value)
    && forall j' :: j < j' < |log| && IsUpdate(log[j'], log[j].client, k) ==> tsCall <= log[j'].tsResp
  }

  /** Client `c` acknowledged no update of `k` before the operation began. */
  ghost predicate Untouched(log: seq<Record>, c: nat, k: string, tsCall: nat) {
    forall j :: 0 <= j < |log| && IsUpdate(log[j], c, k) ==> tsCall <= log[j].tsResp
  }

  /** Some update, or the initial absence of the key, supports the observation. */
  ghost predicate LogAccepts(cfg: Config, log: seq<Record>, k: string, tsCall: nat, tsResp: nat, want: Want) {
    || (exists j :: 0 <= j < |log| && log[j].client < |cfg.keys| && Supports(log, j, k, tsCall, tsResp, want))
    || (Matches(want, None) && 0 < tsResp && exists c :: 0 <= c < |cfg.keys| && Untouched(log, c, k, tsCall))
  }

  ghost predicate ByClient(log: seq<Record>, c: nat, k: string, tsCall: nat, tsResp: nat, want: Want) {
    || (exists j :: 0 <= j < |log| && log[j].client == c && Supports(log, j, k, tsCall, tsResp, want))
    || (Matches(want, None) && 0 < tsResp && Untouched(log, c, k, tsCall))
  }

  lemma {:induction false} AcceptsAppend(full: seq<UpdateSpan>, span: UpdateSpan, tsCall: nat, tsResp: nat, want: Want)
    ensures ClientAccepts(full + [span], tsCall, tsResp, want) <==>
      || (span.tsCall < tsResp && Matches(want, span.value))
      || (tsCall <= span.tsResp && ClientAccepts(full, tsCall, tsResp, want))
  {
    var more := full + [span];
    if span.tsCall < tsResp && Matches(want, span.value) {
      assert Witness(more, |full|, tsCall, tsResp, want);
    }
    if tsCall <= span.tsResp && ClientAccepts(full, tsCall, tsResp, want) {
      var i :| 0 <= i < |full| && Witness(full, i, tsCall, tsResp, want);
      assert Witness(more, i, tsCall, tsResp, want);
    }
    if ClientAccepts(more, tsCall, tsResp, want) {
      var i :| 0 <= i < |more| && Witness(more, i, tsCall, tsResp, want);
      if i < |full| {
        assert more[|full|] == span && more[i] == full[i];
        assert forall j :: i < j < |full| ==> full[j] == more[j];
        assert Witness(full, i, tsCall, tsResp, want);
      }
    }
  }

  lemma {:induction false} ByClientAppend(log: seq<Record>, r: Record, c: nat, k: string, tsCall: nat, tsResp: nat,
      want: Want)
    ensures ByClient(log + [r], c, k, tsCall, tsResp, want) <==>
      if IsUpdate(r, c, k) then
        || (r.tsCall < tsResp && Matches(want, SpanOf(r).value))
        || (tsCall <= r.tsResp && ByClient(log, c, k, tsCall, tsResp, want))
      else ByClient(log, c, k, tsCall, tsResp, want)
  {
    var more := log + [r];
    assert more[|log|] == r && forall j :: 0 <= j < |log| ==> more[j] == log[j];
    forall j | 0 <= j < |log| && log[j].client == c
      ensures Supports(more, j, k, tsCall, tsResp, want) <==>
              Supports(log, j, k, tsCall, tsResp, want) && (IsUpdate(r, c, k) ==> tsCall <= r.tsResp)
    {
    }
    assert r.client == c ==>
      (Supports(more, |log|, k, tsCall, tsResp, want) <==>
       IsUpdate(r, c, k) && r.tsCall < tsResp && Matches(want, SpanOf(r).value));
    assert Untouched(more, c, k, tsCall) <==> Untouched(log, c, k, tsCall) && (IsUpdate(r, c, k) ==> tsCall <= r.tsResp);
    if ByClient(log, c, k, tsCall, tsResp, want) && (IsUpdate(r, c, k) ==> tsCall <= r.tsResp) {
      if j :| 0 <= j < |log| && log[j].client == c && Supports(log, j, k, tsCall, tsResp, want) {
        assert Supports(more, j, k, tsCall, tsResp, want);
      }
    }
  }

  /** One client's complete history decides exactly as its log records do. */
  lemma {:induction false} ClientExact(log: seq<Record>, c: nat, k: string, tsCall: nat, tsResp: nat, want: Want)
    ensures ClientAccepts(FullSpans(log, k, c), tsCall, tsResp, want) <==> ByClient(log, c, k, tsCall, tsResp, want)
  {
    if log == [] {
      assert Witness([DUMMY], 0, tsCall, tsResp, want) <==> Matches(want, None) && 0 < tsResp;
    } else {
      var prefix, last := log[..|log| - 1], log[|log| - 1];
      assert log == prefix + [last];
      ClientExact(prefix, c, k, tsCall, tsResp, want);
      ByClientAppend(prefix, last, c, k, tsCall, tsResp, want);
      if IsUpdate(last, c, k) {
        AcceptsAppend(FullSpans(prefix, k, c), SpanOf(last), tsCall, tsResp, want);
      } else {
        assert FullSpans(log, k, c) == FullSpans(prefix, k, c);
      }
    }
  }

  lemma {:induction false} KeyExact(cfg: Config, log: seq<Record>, k: string, tsCall: nat, tsResp: nat, want: Want)
    ensures KeyAccepts(FullKey(cfg, log, k), tsCall, tsResp, want) <==> LogAccepts(cfg, log, k, tsCall, tsResp, want)
  {
    hide FullSpans, ClientAccepts, Supports, Untouched;
    forall c | 0 <= c < |cfg.keys|
      ensures ClientAccepts(FullKey(cfg, log, k)[c], tsCall, tsResp, want) <==> ByClient(log, c, k, tsCall, tsResp, want)
    {
      ClientExact(log, c, k, tsCall, tsResp, want);
    }
    if KeyAccepts(FullKey(cfg, log, k), tsCall, tsResp, want) {
      var c :| 0 <= c < |cfg.keys| && ClientAccepts(FullKey(cfg, log, k)[c], tsCall, tsResp, want);
      assert ByClient(log, c, k, tsCall, tsResp, want);
    }
    if j :| 0 <= j < |log| && log[j].client < |cfg.keys| && Supports(log, j, k, tsCall, tsResp, want) {
      assert ByClient(log, log[j].client, k, tsCall, tsResp, want);
    }
    if Matches(want, None) && 0 < tsResp {
      if c :| 0 <= c < |cfg.keys| && Untouched(log, c, k, tsCall) {
        assert ByClient(log, c, k, tsCall, tsResp, want);
      }
    }
  }

  /** Acceptance of an answer by the log alone. */
  ghost predicate Accepted(cfg: Config, log: seq<Record>, e: QueuedSpan) {
    match e.resp
    case PutResp(k, f) => k in Pool(cfg.keys) && LogAccepts(cfg, log, k, e.tsCall, e.tsResp, Presence(f))
    case SwapResp(k, v) => k in Pool(cfg.keys) && LogAccepts(cfg, log, k, e.tsCall, e.tsResp, Exactly(v))
    case GetResp(k, v) => k in Pool(cfg.keys) && LogAccepts(cfg, log, k, e.tsCall, e.tsResp, Exactly(v))
    case ScanResp(lo, hi, es) =>
      && EntriesOk(lo, hi, es)
      && forall k :: k in Pool(cfg.keys) && InRange(lo, k, hi) ==>
           LogAccepts(cfg, log, k, e.tsCall, e.tsResp, Exactly(Lookup(es, k)))
    case DeleteResp(k, f) => k in Pool(cfg.keys) && LogAccepts(cfg, log, k, e.tsCall, e.tsResp, Presence(f))
    case StopResp => false
  }

  /** The offline check accepts an answer if and only if the log supports it. */
  lemma {:induction false} ExactAcceptance(cfg: Config, log: seq<Record>, e: QueuedSpan)
    ensures Offline(cfg, log, e) <==> Accepted(cfg, log, e)
  {
    hide LogAccepts, KeyAccepts, FullKey;
    forall k, want | k in Pool(cfg.keys)
      ensures KeyAccepts(FullMap(cfg, log)[k], e.tsCall, e.tsResp, want) <==>
              LogAccepts(cfg, log, k, e.tsCall, e.tsResp, want)
    {
      KeyExact(cfg, log, k, e.tsCall, e.tsResp, want);
    }
    if e.resp.ScanResp? {
      assert forall k :: k in Pool(cfg.keys) ==>
        (ScanKeyAccepts(FullMap(cfg, log), k, e.tsCall, e.tsResp, e.resp.entries) <==>
         LogAccepts(cfg, log, k, e.tsCall, e.tsResp, Exactly(Lookup(e.resp.entries, k))));
    }
  }

  /** An update's own record supports the presence it wrote. */
  lemma {:induction false} OwnWriteSupports(cfg: Config, log: seq<Record>, j: nat)
    requires LogOk(cfg, log) && j < |log| && UpdateInfo(log[j].call).Some?
    ensures var u := UpdateInfo(log[j].call).value;
      LogAccepts(cfg, log, u.key, log[j].tsCall, log[j].tsResp, Presence(u.value.Some?))
  {
    assert Supports(log, j, UpdateInfo(log[j].call).value.key, log[j].tsCall, log[j].tsResp,
                    Presence(UpdateInfo(log[j].call).value.value.Some?));
  }
}
