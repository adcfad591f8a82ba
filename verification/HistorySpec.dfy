/** What one call into the consistency checker computes, as functions on values. */
module HistorySpec {
  import opened KvTypes

  const U64_MAX: nat := 0xFFFF_FFFF_FFFF_FFFF

  /** An acknowledged update of one key by one client. */
  datatype UpdateSpan = UpdateSpan(tsCall: nat, tsResp: nat, value: Option<string>)

  /** A response waiting to be checked. */
  datatype QueuedSpan = QueuedSpan(tsCall: nat, tsResp: nat, resp: KvResp)

  datatype HistoryState = HistoryState(
    queue: seq<QueuedSpan>,
    spans: map<string, seq<seq<UpdateSpan>>>,
    maxtr: seq<nat>)

  /** The dummy erasure that opens every client history. */
  const DUMMY := UpdateSpan(0, 0, None)

  // ---------- which answers a set of histories supports ----------

  /** What a response claims about the value it observed. */
  datatype Want = Presence(found: bool) | Exactly(value: Option<string>)

  predicate Matches(want: Want, value: Option<string>) {
    match want
    case Presence(f) => value.Some? == f
    case Exactly(v) => value == v
  }

  /** Span `i` could be what an operation `[tsCall, tsResp]` observed: it began before
      the operation ended, and no later span of that client ended before it began. */
  predicate Witness(cs: seq<UpdateSpan>, i: nat, tsCall: nat, tsResp: nat, want: Want)
    requires i < |cs|
  {
    && cs[i].tsCall < tsResp
    && Matches(want, cs[i].value)
    && forall j :: i < j < |cs| ==> tsCall <= cs[j].tsResp
  }

  ghost predicate ClientAccepts(cs: seq<UpdateSpan>, tsCall: nat, tsResp: nat, want: Want) {
    exists i :: 0 <= i < |cs| && Witness(cs, i, tsCall, tsResp, want)
  }

  ghost predicate KeyAccepts(ks: seq<seq<UpdateSpan>>, tsCall: nat, tsResp: nat, want: Want) {
    exists c :: 0 <= c < |ks| && ClientAccepts(ks[c], tsCall, tsResp, want)
  }

  function Lookup(entries: seq<(string, string)>, k: string): Option<string> {
    if entries == [] then None
    else if entries[|entries| - 1].0 == k then Some(entries[|entries| - 1].1)
    else Lookup(entries[..|entries| - 1], k)
  }

  /** Entries lie in the inclusive range and name no key twice. */
  predicate EntriesOk(lo: string, hi: string, entries: seq<(string, string)>) {
    && (forall i :: 0 <= i < |entries| ==> InRange(lo, entries[i].0, hi))
    && (forall i, j :: 0 <= i < j < |entries| ==> entries[i].0 != entries[j].0)
  }

  ghost predicate ScanKeyAccepts(spans: map<string, seq<seq<UpdateSpan>>>, k: string, tsCall: nat, tsResp: nat,
                                 entries: seq<(string, string)>)
    requires k in spans
  {
    KeyAccepts(spans[k], tsCall, tsResp, Exactly(Lookup(entries, k)))
  }

  ghost predicate ScanAccepts(spans: map<string, seq<seq<UpdateSpan>>>, tsCall: nat, tsResp: nat,
                              lo: string, hi: string, entries: seq<(string, string)>) {
    && EntriesOk(lo, hi, entries)
    && forall k :: k in spans && InRange(lo, k, hi) ==> ScanKeyAccepts(spans, k, tsCall, tsResp, entries)
  }

  ghost predicate CallAccepts(spans: map<string, seq<seq<UpdateSpan>>>, e: QueuedSpan) {
    match e.resp
    case PutResp(k, f) => k in spans && KeyAccepts(spans[k], e.tsCall, e.tsResp, Presence(f))
    case SwapResp(k, v) => k in spans && KeyAccepts(spans[k], e.tsCall, e.tsResp, Exactly(v))
    case GetResp(k, v) => k in spans && KeyAccepts(spans[k], e.tsCall, e.tsResp, Exactly(v))
    case ScanResp(lo, hi, es) => ScanAccepts(spans, e.tsCall, e.tsResp, lo, hi, es)
    case DeleteResp(k, f) => k in spans && KeyAccepts(spans[k], e.tsCall, e.tsResp, Presence(f))
    case StopResp => false
  }

  // ---------- trimming and draining ----------

  function MinOf(s: seq<nat>): (m: nat)
    requires |s| > 0
    ensures m in s
    ensures forall i :: 0 <= i < |s| ==> m <= s[i]
  {
    if |s| == 1 then s[0]
    else
      var m := MinOf(s[..|s| - 1]);
      if s[|s| - 1] < m then s[|s| - 1] else m
  }

  /** Least call time in the queue; the largest `u64` when the queue is empty. */
  function MinQueued(queue: seq<QueuedSpan>): (m: nat)
    ensures forall i :: 0 <= i < |queue| ==> m <= queue[i].tsCall
    ensures queue != [] ==> exists i :: 0 <= i < |queue| && m == queue[i].tsCall
  {
    if queue == [] then U64_MAX
    else if |queue| == 1 then queue[0].tsCall
    else
      var m := MinQueued(queue[..|queue| - 1]);
      if queue[|queue| - 1].tsCall < m then queue[|queue| - 1].tsCall else m
  }

  /** Call time of the newest span that ended before both bounds, or 0. */
  function KeepTs(cs: seq<UpdateSpan>, minComing: nat, minQueued: nat): nat {
    if cs == [] then 0
    else
      var last := cs[|cs| - 1];
      if last.tsResp < minComing && last.tsResp < minQueued then last.tsCall
      else KeepTs(cs[..|cs| - 1], minComing, minQueued)
  }

  function DropBefore(cs: seq<UpdateSpan>, keepTs: nat): seq<UpdateSpan> {
    if |cs| > 1 && cs[0].tsResp < keepTs then DropBefore(cs[1..], keepTs) else cs
  }

  function TrimClient(cs: seq<UpdateSpan>, minComing: nat, minQueued: nat): seq<UpdateSpan> {
    DropBefore(cs, KeepTs(cs, minComing, minQueued))
  }

  function TrimKey(ks: seq<seq<UpdateSpan>>, minComing: nat, minQueued: nat): seq<seq<UpdateSpan>> {
    seq(|ks|, c requires 0 <= c < |ks| => TrimClient(ks[c], minComing, minQueued))
  }

  /** Pop and check decidable responses, stopping at the first rejected one.
      Returns the remaining queue and the verdicts handed out, oldest first. */
  ghost function Drain(queue: seq<QueuedSpan>, spans: map<string, seq<seq<UpdateSpan>>>, minComing: nat)
    : (r: (seq<QueuedSpan>, seq<bool>))
  {
    if queue == [] || minComing <= queue[0].tsResp then (queue, [])
    else if !CallAccepts(spans, queue[0]) then (queue[1..], [false])
    else
      var (rest, verdicts) := Drain(queue[1..], spans, minComing);
      (rest, [true] + verdicts)
  }

  /** All keys handed to the clients. */
  function Pool(keys: seq<seq<string>>): (pool: set<string>)
    ensures forall k :: k in pool <==> exists c :: 0 <= c < |keys| && k in keys[c]
  {
    if keys == [] then {}
    else
      var last := keys[|keys| - 1];
      Pool(keys[..|keys| - 1]) + set k | k in last
  }

  function InitialSpans(numClis: nat): seq<seq<UpdateSpan>> {
    seq(numClis, _ => [DUMMY])
  }

  function Enqueue(h: HistoryState, tsCall: nat, tsResp: nat, resp: KvResp): HistoryState {
    h.(queue := h.queue + [QueuedSpan(tsCall, tsResp, resp)])
  }

  /** Every key has one deque per client. */
  ghost predicate Shaped(h: HistoryState) {
    forall k :: k in h.spans ==> |h.spans[k]| == |h.maxtr|
  }

  /** The state and the verdicts produced by acknowledging one update. */
  ghost function Acknowledge(h: HistoryState, cidx: nat, tsCall: nat, tsResp: nat, key: string, value: Option<string>)
    : (r: (HistoryState, seq<bool>))
    requires Shaped(h) && cidx < |h.maxtr| && key in h.spans
    ensures Shaped(r.0) && |r.0.maxtr| == |h.maxtr| && r.0.spans.Keys == h.spans.Keys
  {
    var pushed := h.spans[key][cidx := h.spans[key][cidx] + [UpdateSpan(tsCall, tsResp, value)]];
    var maxtr := h.maxtr[cidx := tsResp];
    var minComing := MinOf(maxtr);
    var spans := h.spans[key := TrimKey(pushed, minComing, MinQueued(h.queue))];
    var (rest, verdicts) := Drain(h.queue, spans, minComing);
    (HistoryState(rest, spans, maxtr), verdicts)
  }
}
