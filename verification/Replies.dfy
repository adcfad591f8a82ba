/** What the reference client answers, told from its answers alone. */
module Replies {
  import opened KvTypes
  import opened KvStore
  import opened Text
  import opened Wire
  import opened WireTheorems
  import opened RefClient

  lemma {:induction false} TwoCalls(store: Store, a: KvCall, b: KvCall)
    ensures Direct(store, [a]) == [Respond(store, a)]
    ensures Direct(store, [a, b]) == [Respond(store, a), Respond(After(store, a), b)]
  {
    hide Respond, After;
    assert [a, b][1..] == [b] && [b][1..] == [] && [a][1..] == [];
    assert Direct(After(store, a), [b]) == [Respond(After(store, a), b)] + [];
    assert Direct(store, [a, b]) == [Respond(store, a)] + Direct(After(store, a), [b]);
  }

  /** A get right after a put or swap answers the new value, and after a delete nothing;
      no other call changes what a get answers. */
  lemma {:induction false} WriteThenRead(store: Store, call: KvCall, k: string, v: string)
    ensures |Direct(store, [call, Get(k)])| == 2 && |Direct(store, [Get(k)])| == 1
    ensures call == Put(k, v) || call == Swap(k, v) ==> Direct(store, [call, Get(k)])[1] == GetResp(k, Some(v))
    ensures call == Delete(k) ==> Direct(store, [call, Get(k)])[1] == GetResp(k, None)
    ensures !Touches(call, k) ==> Direct(store, [call, Get(k)])[1] == Direct(store, [Get(k)])[0]
  {
    TwoCalls(store, call, Get(k));
    TwoCalls(store, Get(k), Stop);
  }

  /** Puts, swaps and deletes answer according to what a get would have answered. */
  lemma {:induction false} RepliesAgree(store: Store, k: string, v: string)
    ensures |Direct(store, [Put(k, v)])| == |Direct(store, [Swap(k, v)])| == |Direct(store, [Delete(k)])| == 1
    ensures |Direct(store, [Get(k)])| == 1 && Direct(store, [Get(k)])[0].GetResp?
    ensures var held := Direct(store, [Get(k)])[0].value;
      && Direct(store, [Put(k, v)])[0] == PutResp(k, held.Some?)
      && Direct(store, [Swap(k, v)])[0] == SwapResp(k, held)
      && Direct(store, [Delete(k)])[0] == DeleteResp(k, held.Some?)
  {
    TwoCalls(store, Get(k), Stop);
    TwoCalls(store, Put(k, v), Stop);
    TwoCalls(store, Swap(k, v), Stop);
    TwoCalls(store, Delete(k), Stop);
  }

  /** A scan lists, in order, exactly the pairs from `lo` up to but not including `hi`
      that gets would answer. */
  lemma {:induction false} ScanReply(store: Store, lo: string, hi: string, k: string, v: string)
    ensures |Direct(store, [Scan(lo, hi)])| == 1 && Direct(store, [Scan(lo, hi)])[0].ScanResp?
    ensures var es := Direct(store, [Scan(lo, hi)])[0].entries;
      && (forall i, j :: 0 <= i < j < |es| ==> Less(es[i].0, es[j].0))
      && ((k, v) in es <==> (Less(lo, k) || lo == k) && Less(k, hi) && Direct(store, [Get(k)]) == [GetResp(k, Some(v))])
  {
    TwoCalls(store, Get(k), Stop);
    TwoCalls(store, Scan(lo, hi), Stop);
    var es := ScanOf(store, lo, hi);
    ScanMember(store, Exclusive, lo, hi, es, (k, v));
    LessTotal(lo, k);
    LessIrreflexive(k);
    if Less(lo, k) {
      LessAsymmetric(lo, k);
    }
  }

  // ---------- whole sequences of calls ----------

  ghost function StoreAfter(store: Store, calls: seq<KvCall>): Store
    decreases calls
  {
    if calls == [] then store else StoreAfter(After(store, calls[0]), calls[1..])
  }

  lemma {:induction false} DirectLast(store: Store, calls: seq<KvCall>, last: KvCall)
    ensures Direct(store, calls + [last]) == Direct(store, calls) + [Respond(StoreAfter(store, calls), last)]
    decreases calls
  {
    hide Respond, After;
    if calls == [] {
      TwoCalls(store, last, last);
      assert calls + [last] == [last];
    } else {
      assert (calls + [last])[1..] == calls[1..] + [last];
      DirectLast(After(store, calls[0]), calls[1..], last);
    }
  }

  /** `value` was left at `k` by the last of `calls` that touched it, or `initial` if none did. */
  ghost predicate LastLeft(calls: seq<KvCall>, k: string, initial: Option<string>, value: Option<string>) {
    || (exists j :: 0 <= j < |calls| && Leaves(calls[j], k, value) && forall i :: j < i < |calls| ==> !Touches(calls[i], k))
    || (value == initial && forall i :: 0 <= i < |calls| ==> !Touches(calls[i], k))
  }

  lemma {:induction false} StoreLastLeft(store: Store, calls: seq<KvCall>, k: string)
    ensures LastLeft(calls, k, ValueAt(store, k), ValueAt(StoreAfter(store, calls), k))
    decreases calls
  {
    if calls != [] {
      var call, rest := calls[0], calls[1..];
      var value := ValueAt(StoreAfter(store, calls), k);
      StoreLastLeft(After(store, call), rest, k);
      assert forall i :: 0 < i < |calls| ==> calls[i] == rest[i - 1];
      if j :| 0 <= j < |rest| && Leaves(rest[j], k, value) && forall i :: j < i < |rest| ==> !Touches(rest[i], k) {
        assert Leaves(calls[j + 1], k, value);
      } else if Touches(call, k) {
        LeavesExact(call, k, UpdateInfo(call).value.value);
        assert Leaves(calls[0], k, value);
      }
    }
  }

  /** Only one value can be the last left. */
  lemma {:induction false} LastLeftUnique(calls: seq<KvCall>, k: string, initial: Option<string>, a: Option<string>,
      b: Option<string>)
    requires LastLeft(calls, k, initial, a) && LastLeft(calls, k, initial, b)
    ensures a == b
  {
    if j :| 0 <= j < |calls| && Leaves(calls[j], k, a) && forall i :: j < i < |calls| ==> !Touches(calls[i], k) {
      assert Touches(calls[j], k);
      var n :| 0 <= n < |calls| && Leaves(calls[n], k, b) && forall i :: n < i < |calls| ==> !Touches(calls[i], k);
      assert Touches(calls[n], k);
      assert n == j;
    } else {
      assert forall i :: 0 <= i < |calls| ==> !Touches(calls[i], k);
      assert forall i :: 0 <= i < |calls| ==> !Leaves(calls[i], k, b);
    }
  }

  /** After any calls on an empty map, a get answers the value left by the last put, swap
      or delete of its key. */
  lemma {:induction false} GetExact(calls: seq<KvCall>, k: string, value: Option<string>)
    ensures var answers := Direct(map[], calls + [Get(k)]);
      |answers| == |calls| + 1 && (answers[|calls|] == GetResp(k, value) <==> LastLeft(calls, k, None, value))
  {
    hide LastLeft;
    DirectLast(map[], calls, Get(k));
    DirectLength(map[], calls);
    StoreLastLeft(map[], calls, k);
    var held := ValueAt(StoreAfter(map[], calls), k);
    assert ValueAt(map[], k) == None;
    if LastLeft(calls, k, None, value) {
      LastLeftUnique(calls, k, None, held, value);
    }
  }

  // ---------- panics ----------

  /** A scan whose upper bound comes first makes the client panic; any other is answered. */
  lemma {:induction false} BackwardScanPanics(store: Store, lo: string, hi: string, rest: string)
    requires Token(lo) && Token(hi)
    ensures Serve(store, CallLine(Scan(lo, hi)) + rest).0 == "" <==> Less(hi, lo)
    ensures Less(hi, lo) ==> Serve(store, CallLine(Scan(lo, hi)) + rest).1 == Panics
  {
    hide NextLine, ParseCall, Trim, After, Respond, CallLine, Token, Print, Less, Serve;
    var input := CallLine(Scan(lo, hi)) + rest;
    assert "" + input == input;
    CallRoundTrip(Scan(lo, hi), "", rest);
    ServeUnfolds(store, input, "");
    if !Less(hi, lo) {
      ServeOne(store, Scan(lo, hi), rest);
      PrintsSomething(Respond(store, Scan(lo, hi)));
    }
  }

  lemma {:induction false} PrintsSomething(r: KvResp)
    ensures Print(r) != ""
  {
    assert RespLines(r) != [] && RespLines(r)[0] != "";
  }
}
