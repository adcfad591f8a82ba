/** Calls, responses and key order of the key-value workload interface. */
module KvTypes {

  datatype Option<+T> = None | Some(value: T)

  /** One operation issued by a client. */
  datatype KvCall =
    | Put(key: string, value: string)
    | Swap(key: string, value: string)
    | Get(key: string)
    | Scan(keyStart: string, keyEnd: string)
    | Delete(key: string)
    | Stop

  /** One answer received from a client. */
  datatype KvResp =
    | PutResp(key: string, found: bool)
    | SwapResp(key: string, oldValue: Option<string>)
    | GetResp(key: string, value: Option<string>)
    | ScanResp(keyStart: string, keyEnd: string, entries: seq<(string, string)>)
    | DeleteResp(key: string, found: bool)
    | StopResp

  /** The write made by a call: `value == None` erases the key. */
  datatype Update = Update(key: string, value: Option<string>)

  function UpdateInfo(call: KvCall): Option<Update> {
    match call
    case Put(k, v) => Some(Update(k, Some(v)))
    case Swap(k, v) => Some(Update(k, Some(v)))
    case Delete(k) => Some(Update(k, None))
    case _ => None
  }

  /** The call leaves `value` at `k`; `None` stands for absence. */
  predicate Leaves(call: KvCall, k: string, value: Option<string>) {
    match value
    case Some(v) => call == Put(k, v) || call == Swap(k, v)
    case None => call == Delete(k)
  }

  predicate Touches(call: KvCall, k: string) {
    (call.Put? || call.Swap? || call.Delete?) && call.key == k
  }

  lemma {:induction false} LeavesExact(call: KvCall, k: string, value: Option<string>)
    ensures Leaves(call, k, value) <==> UpdateInfo(call) == Some(Update(k, value))
    ensures Touches(call, k) <==> UpdateInfo(call).Some? && UpdateInfo(call).value.key == k
  {
  }

  /** Strict lexicographic order on strings, as used for all key comparisons. */
  predicate Less(a: string, b: string) {
    b != [] && (a == [] || a[0] < b[0] || (a[0] == b[0] && Less(a[1..], b[1..])))
  }

  /** `lo <= k <= hi`, both ends included. */
  predicate InRange(lo: string, k: string, hi: string) {
    !Less(k, lo) && !Less(hi, k)
  }

  /** `a` and `b` agree up to `n`, where `a` ends or has the smaller character. */
  predicate FirstDifference(a: string, b: string, n: nat) {
    n <= |a| && n < |b| && a[..n] == b[..n] && (n == |a| || a[n] < b[n])
  }

  /** The order is the one by the first difference. */
  lemma {:induction false} LessExact(a: string, b: string)
    ensures Less(a, b) <==> exists n: nat :: FirstDifference(a, b, n)
  {
    if b != [] {
      if a == [] || a[0] < b[0] {
        assert FirstDifference(a, b, 0);
      } else if a[0] == b[0] {
        LessExact(a[1..], b[1..]);
        if n: nat :| FirstDifference(a[1..], b[1..], n) {
          assert a[..n + 1] == [a[0]] + a[1..][..n] && b[..n + 1] == [b[0]] + b[1..][..n];
          assert FirstDifference(a, b, n + 1);
        }
      }
    }
    if n: nat :| FirstDifference(a, b, n) {
      if n > 0 {
        assert a[0] == a[..n][0] && b[0] == b[..n][0];
        assert a[1..][..n - 1] == a[..n][1..] && b[1..][..n - 1] == b[..n][1..];
        assert FirstDifference(a[1..], b[1..], n - 1);
      }
    }
  }

  lemma {:induction false} LessIrreflexive(a: string)
    ensures !Less(a, a)
  {
    if a != [] {
      LessIrreflexive(a[1..]);
    }
  }

  lemma {:induction false} LessTotal(a: string, b: string)
    ensures Less(a, b) || a == b || Less(b, a)
  {
    if a != [] && b != [] && a[0] == b[0] {
      LessTotal(a[1..], b[1..]);
      assert a == [a[0]] + a[1..] && b == [b[0]] + b[1..];
    }
  }

  lemma {:induction false} LessTransitive(a: string, b: string, c: string)
    requires Less(a, b) && Less(b, c)
    ensures Less(a, c)
  {
    if a != [] && a[0] == b[0] && b[0] == c[0] {
      LessTransitive(a[1..], b[1..], c[1..]);
    }
  }

  lemma {:induction false} LessAsymmetric(a: string, b: string)
    requires Less(a, b)
    ensures !Less(b, a)
  {
    if Less(b, a) {
      LessTransitive(a, b, a);
      LessIrreflexive(a);
    }
  }
}
