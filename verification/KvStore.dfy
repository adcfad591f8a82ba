/** The sequential key-value map that calls and answers are about. */
module KvStore {
  import opened KvTypes

  type Store = map<string, string>

  function ValueAt(store: Store, k: string): Option<string> {
    if k in store then Some(store[k]) else None
  }

  function Write(store: Store, u: Update): Store {
    match u.value
    case None => store - {u.key}
    case Some(v) => store[u.key := v]
  }

  /** The map after a call. */
  function After(store: Store, call: KvCall): Store {
    match UpdateInfo(call)
    case None => store
    case Some(u) => Write(store, u)
  }

  /** How a scan treats its upper key. */
  datatype Upper = Inclusive | Exclusive

  predicate InScan(upper: Upper, lo: string, k: string, hi: string) {
    !Less(k, lo) && if upper == Inclusive then !Less(hi, k) else Less(k, hi)
  }

  ghost predicate HasKey(entries: seq<(string, string)>, k: string) {
    exists i :: 0 <= i < |entries| && entries[i].0 == k
  }

  /** `entries` lists exactly the stored pairs in the range, in key order. */
  ghost predicate IsScan(store: Store, upper: Upper, lo: string, hi: string, entries: seq<(string, string)>) {
    && (forall i, j :: 0 <= i < j < |entries| ==> Less(entries[i].0, entries[j].0))
    && (forall i :: 0 <= i < |entries| ==>
          InScan(upper, lo, entries[i].0, hi) && ValueAt(store, entries[i].0) == Some(entries[i].1))
    && (forall k :: k in store && InScan(upper, lo, k, hi) ==> HasKey(entries, k))
  }

  /** `resp` is what the map answers to `call`. */
  ghost predicate Answers(store: Store, upper: Upper, call: KvCall, resp: KvResp) {
    match call
    case Put(k, _) => resp == PutResp(k, k in store)
    case Swap(k, _) => resp == SwapResp(k, ValueAt(store, k))
    case Get(k) => resp == GetResp(k, ValueAt(store, k))
    case Scan(lo, hi) => resp.ScanResp? && resp.keyStart == lo && resp.keyEnd == hi && IsScan(store, upper, lo, hi, resp.entries)
    case Delete(k) => resp == DeleteResp(k, k in store)
    case Stop => resp == StopResp
  }
}
