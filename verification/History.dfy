/** The streaming consistency checker: trimmed per-key, per-client update histories
    and a queue of responses that cannot be decided yet. */
module HistoryChecker {
  import opened KvTypes
  import opened HistorySpec

  /** The report of an update: nothing wrong, or the response whose check failed. */
  function Report(queue: seq<QueuedSpan>, verdicts: seq<bool>): Option<Option<KvResp>>
    requires |verdicts| <= |queue|
  {
    if verdicts != [] && !verdicts[|verdicts| - 1] then Some(Some(queue[|verdicts| - 1].resp)) else None
  }

  lemma {:induction false} DrainShape(queue: seq<QueuedSpan>, spans: map<string, seq<seq<UpdateSpan>>>, minComing: nat)
    ensures var (rest, verdicts) := Drain(queue, spans, minComing);
      && |verdicts| + |rest| == |queue|
      && rest == queue[|verdicts|..]
      && (forall i :: 0 <= i < |verdicts| ==> queue[i].tsResp < minComing)
      && (forall i :: 0 <= i < |verdicts| ==> verdicts[i] == CallAccepts(spans, queue[i]))
      && (forall i :: 0 <= i < |verdicts| - 1 ==> verdicts[i])
      && ((verdicts == [] || verdicts[|verdicts| - 1]) ==> rest == [] || minComing <= rest[0].tsResp)
  {
    if queue == [] || minComing <= queue[0].tsResp {
    } else if CallAccepts(spans, queue[0]) {
      DrainShape(queue[1..], spans, minComing);
    }
  }

  /** A pass that accepted `n` responses and then stopped, on a bad one or not. */
  lemma {:induction false} DrainStops(queue: seq<QueuedSpan>, spans: map<string, seq<seq<UpdateSpan>>>,
      minComing: nat, n: nat, bad: bool)
    requires n <= |queue|
    requires forall i :: 0 <= i < n ==> queue[i].tsResp < minComing && CallAccepts(spans, queue[i])
    requires bad ==> n < |queue| && queue[n].tsResp < minComing && !CallAccepts(spans, queue[n])
    requires !bad ==> n == |queue| || minComing <= queue[n].tsResp
    ensures var (rest, verdicts) := Drain(queue, spans, minComing);
      && |verdicts| == (if bad then n + 1 else n)
      && rest == queue[|verdicts|..]
      && Report(queue, verdicts) == if bad then Some(Some(queue[n].resp)) else None
  {
    DrainShape(queue, spans, minComing);
  }

  /** Newest-first search of each client's history, giving up on a client at the first
      span that ended before the operation began. */
  method CheckKey(ks: seq<seq<UpdateSpan>>, tsCall: nat, tsResp: nat, want: Want) returns (ok: bool)
    ensures ok == KeyAccepts(ks, tsCall, tsResp, want)
  {
    for c := 0 to |ks|
      invariant forall d :: 0 <= d < c ==> !ClientAccepts(ks[d], tsCall, tsResp, want)
    {
      var cs := ks[c];
      var i := |cs|;
      while i > 0
        invariant 0 <= i <= |cs|
        invariant forall j :: i <= j < |cs| ==> !Witness(cs, j, tsCall, tsResp, want)
        invariant forall j :: i <= j < |cs| ==> tsCall <= cs[j].tsResp
      {
        i := i - 1;
        if cs[i].tsCall < tsResp && Matches(want, cs[i].value) {
          assert Witness(cs, i, tsCall, tsResp, want);
          return true;
        }
        if cs[i].tsResp < tsCall {
          break;
        }
      }
      assert forall j :: 0 <= j < i ==> !Witness(cs, j, tsCall, tsResp, want);
    }
    return false;
  }

  lemma {:induction false} LookupUnique(entries: seq<(string, string)>, i: nat)
    requires i < |entries|
    requires forall i, j :: 0 <= i < j < |entries| ==> entries[i].0 != entries[j].0
    ensures Lookup(entries, entries[i].0) == Some(entries[i].1)
  {
    if i < |entries| - 1 {
      LookupUnique(entries[..|entries| - 1], i);
    }
  }

  lemma {:induction false} ScanKeyIs(spans: map<string, seq<seq<UpdateSpan>>>, k: string, tsCall: nat, tsResp: nat,
                                     entries: seq<(string, string)>)
    requires k in spans
    ensures ScanKeyAccepts(spans, k, tsCall, tsResp, entries) == KeyAccepts(spans[k], tsCall, tsResp, Exactly(Lookup(entries, k)))
  {
  }

  /** The entries as a dictionary, unless one is out of range or repeats a key. */
  method CollectEntries(lo: string, hi: string, entries: seq<(string, string)>) returns (ok: bool, found: map<string,
      string>)
    ensures ok == EntriesOk(lo, hi, entries)
    ensures ok ==> forall k :: Lookup(entries, k) == if k in found then Some(found[k]) else None
  {
    found := map[];
    for i := 0 to |entries|
      invariant EntriesOk(lo, hi, entries[..i])
      invariant forall k :: k in found <==> exists j :: 0 <= j < i && entries[j].0 == k
      invariant forall k :: Lookup(entries[..i], k) == if k in found then Some(found[k]) else None
    {
      var (k, v) := entries[i];
      if Less(k, lo) || Less(hi, k) {
        return false, found;
      }
      if k in found {
        return false, found;
      }
      assert entries[..i + 1][..i] == entries[..i];
      found := found[k := v];
    }
    assert entries[..|entries|] == entries;
    return true, found;
  }

  /** Entries are first collected in a dictionary, rejecting strays and duplicates;
      then every pool key in the range is searched, in an arbitrary order. */
  method CheckScan(spans: map<string, seq<seq<UpdateSpan>>>, tsCall: nat, tsResp: nat,
                   lo: string, hi: string, entries: seq<(string, string)>) returns (ok: bool)
    ensures ok == ScanAccepts(spans, tsCall, tsResp, lo, hi, entries)
  {
    hide ScanKeyAccepts;
    var distinct, found := CollectEntries(lo, hi, entries);
    if !distinct {
      return false;
    }
    var todo := spans.Keys;
    while todo != {}
      invariant todo <= spans.Keys
      invariant forall k :: k in spans && k !in todo && InRange(lo, k, hi) ==> ScanKeyAccepts(spans, k, tsCall, tsResp, entries)
    {
      var k :| k in todo;
      todo := todo - {k};
      if !Less(k, lo) && !Less(hi, k) {
        var ok := CheckKey(spans[k], tsCall, tsResp, Exactly(if k in found then Some(found[k]) else None));
        ScanKeyIs(spans, k, tsCall, tsResp, entries);
        if !ok {
          return false;
        }
      }
    }
    return true;
  }

  method CheckCall(spans: map<string, seq<seq<UpdateSpan>>>, e: QueuedSpan) returns (ok: bool)
    ensures ok == CallAccepts(spans, e)
  {
    match e.resp
    case PutResp(k, f) =>
      if k in spans { ok := CheckKey(spans[k], e.tsCall, e.tsResp, Presence(f)); } else { ok := false; }
    case SwapResp(k, v) =>
      if k in spans { ok := CheckKey(spans[k], e.tsCall, e.tsResp, Exactly(v)); } else { ok := false; }
    case GetResp(k, v) =>
      if k in spans { ok := CheckKey(spans[k], e.tsCall, e.tsResp, Exactly(v)); } else { ok := false; }
    case ScanResp(lo, hi, es) =>
      ok := CheckScan(spans, e.tsCall, e.tsResp, lo, hi, es);
    case DeleteResp(k, f) =>
      if k in spans { ok := CheckKey(spans[k], e.tsCall, e.tsResp, Presence(f)); } else { ok := false; }
    case StopResp =>
      ok := false;
  }

  /** Reverse search for the newest span that ended before both bounds, then pop the
      front while older spans remain. */
  method Trim(cs: seq<UpdateSpan>, minComing: nat, minQueued: nat) returns (kept: seq<UpdateSpan>)
    ensures kept == TrimClient(cs, minComing, minQueued)
  {
    var keepTs := 0;
    var i := |cs|;
    assert cs[..|cs|] == cs;
    while i > 0
      invariant 0 <= i <= |cs|
      invariant keepTs == 0
      invariant KeepTs(cs, minComing, minQueued) == KeepTs(cs[..i], minComing, minQueued)
    {
      i := i - 1;
      assert cs[..i + 1][..i] == cs[..i];
      if cs[i].tsResp < minComing && cs[i].tsResp < minQueued {
        keepTs := cs[i].tsCall;
        break;
      }
    }
    assert keepTs == KeepTs(cs, minComing, minQueued);
    kept := cs;
    while |kept| > 1 && kept[0].tsResp < keepTs
      invariant DropBefore(cs, keepTs) == DropBefore(kept, keepTs)
      decreases |kept|
    {
      kept := kept[1..];
    }
  }

  method TrimAll(pushed: seq<seq<UpdateSpan>>, minComing: nat, minQueued: nat) returns (ks: seq<seq<UpdateSpan>>)
    ensures ks == TrimKey(pushed, minComing, minQueued)
  {
    ks := pushed;
    for c := 0 to |ks|
      invariant |ks| == |pushed|
      invariant forall d :: 0 <= d < c ==> ks[d] == TrimClient(pushed[d], minComing, minQueued)
      invariant forall d :: c <= d < |ks| ==> ks[d] == pushed[d]
    {
      var kept := Trim(ks[c], minComing, minQueued);
      ks := ks[c := kept];
    }
  }

  method LeastCall(queue: seq<QueuedSpan>) returns (m: nat)
    ensures m == MinQueued(queue)
  {
    m := U64_MAX;
    for i := 0 to |queue|
      invariant m == MinQueued(queue[..i])
    {
      assert queue[..i + 1][..i] == queue[..i];
      if i == 0 || queue[i].tsCall < m {
        m := queue[i].tsCall;
      }
    }
    assert queue[..|queue|] == queue;
  }

  class History {
    var queue: seq<QueuedSpan>
    var spans: map<string, seq<seq<UpdateSpan>>>
    var maxtr: seq<nat>

    ghost function State(): HistoryState
      reads this
    {
      HistoryState(queue, spans, maxtr)
    }

    ghost predicate Valid()
      reads this
    {
      Shaped(State())
    }

    constructor (numClis: nat, keys: seq<seq<string>>)
      ensures Valid()
      ensures queue == [] && maxtr == seq(numClis, _ => 0)
      ensures spans.Keys == Pool(keys)
      ensures forall k :: k in spans ==> spans[k] == InitialSpans(numClis)
    {
      queue := [];
      maxtr := seq(numClis, _ => 0);
      var m: map<string, seq<seq<UpdateSpan>>> := map[];
      for c := 0 to |keys|
        invariant m.Keys == Pool(keys[..c])
        invariant forall k :: k in m ==> m[k] == InitialSpans(numClis)
      {
        for j := 0 to |keys[c]|
          invariant m.Keys == Pool(keys[..c]) + set k | k in keys[c][..j]
          invariant forall k :: k in m ==> m[k] == InitialSpans(numClis)
        {
          if keys[c][j] !in m {
            m := m[keys[c][j] := InitialSpans(numClis)];
          }
        }
        assert keys[..c + 1][..c] == keys[..c] && keys[c][..|keys[c]|] == keys[c];
      }
      assert keys[..|keys|] == keys;
      spans := m;
    }

    method AddToQueue(tsCall: nat, tsResp: nat, resp: KvResp)
      requires Valid()
      requires tsCall < tsResp
      requires queue == [] || queue[|queue| - 1].tsResp < tsResp
      modifies this`queue
      ensures Valid() && State() == Enqueue(old(State()), tsCall, tsResp, resp)
    {
      queue := queue + [QueuedSpan(tsCall, tsResp, resp)];
    }

    method QueueLen() returns (n: nat)
      ensures n == |queue|
    {
      n := |queue|;
    }

    /** Pop and check every response that ended before `minComing`, up to the first bad one. */
    method PopDecidable(minComing: nat) returns (r: Option<Option<KvResp>>)
      modifies this`queue
      ensures var (rest, verdicts) := Drain(old(queue), spans, minComing);
        && queue == rest
        && |verdicts| <= |old(queue)|
        && r == Report(old(queue), verdicts)
    {
      ghost var q0, n := queue, 0;
      while queue != [] && queue[0].tsResp < minComing
        invariant n <= |q0| && queue == q0[n..]
        invariant forall i :: 0 <= i < n ==> q0[i].tsResp < minComing && CallAccepts(spans, q0[i])
        decreases |queue|
      {
        var entry := queue[0];
        queue := queue[1..];
        var ok := CheckCall(spans, entry);
        if !ok {
          DrainStops(q0, spans, minComing, n, true);
          return Some(Some(entry.resp));
        }
        n := n + 1;
      }
      DrainStops(q0, spans, minComing, n, false);
      r := None;
    }

    /** Push the span, trim the key's histories, then pop and check what became decidable. */
    method ApplyUpdate(cidx: nat, tsCall: nat, tsResp: nat, key: string, value: Option<string>)
      returns (r: Option<Option<KvResp>>)
      requires Valid()
      requires cidx < |maxtr|
      requires key in spans && spans[key][cidx] != [] ==> spans[key][cidx][|spans[key][cidx]| - 1].tsResp < tsCall
      modifies this
      ensures Valid()
      ensures key !in old(spans) ==> r == Some(None) && State() == old(State())
      ensures key in old(spans) ==>
        var (after, verdicts) := Acknowledge(old(State()), cidx, tsCall, tsResp, key, value);
        && State() == after
        && |verdicts| <= |old(queue)|
        && r == Report(old(queue), verdicts)
    {
      if key !in spans {
        return Some(None);
      }
      var ks := spans[key];
      ks := ks[cidx := ks[cidx] + [UpdateSpan(tsCall, tsResp, value)]];
      maxtr := maxtr[cidx := tsResp];
      var minComing := MinOf(maxtr);
      var minQueued := LeastCall(queue);

      ks := TrimAll(ks, minComing, minQueued);
      spans := spans[key := ks];
      r := PopDecidable(minComing);
    }
  }
}
