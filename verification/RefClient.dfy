/** The reference client: a sorted map served over the text interface. */
module RefClient {
  import opened KvTypes
  import opened KvStore
  import opened Text
  import opened Wire
  import opened WireTheorems
  import opened ResponseReader

  // ---------- scans of a sorted map ----------

  lemma {:induction false} LeastKey(keys: set<string>) returns (k: string)
    requires keys != {}
    ensures k in keys && forall j :: j in keys ==> !Less(j, k)
    decreases |keys|
  {
    k :| k in keys;
    LessIrreflexive(k);
    if keys - {k} != {} {
      var m := LeastKey(keys - {k});
      LessTotal(m, k);
      if Less(m, k) {
        forall j | j in keys
          ensures !Less(j, m)
        {
          if j == k {
            LessAsymmetric(m, k);
          } else {
            assert j in keys - {k};
          }
        }
        k := m;
      } else {
        forall j | j in keys
          ensures !Less(j, k)
        {
          if j != k {
            assert j in keys - {k};
            NotBelow(j, m, k);
          }
        }
      }
    }
  }

  lemma {:induction false} NotBelow(j: string, m: string, k: string)
    requires !Less(j, m) && !Less(m, k)
    ensures !Less(j, k)
  {
    if Less(j, k) {
      LessTotal(j, m);
      LessTotal(m, k);
      if Less(m, j) {
        LessTransitive(m, j, k);
      }
    }
  }

  ghost predicate SortedByKey(es: seq<(string, string)>) {
    forall i, j :: 0 <= i < j < |es| ==> Less(es[i].0, es[j].0)
  }

  lemma {:induction false} HeadIn(a: seq<(string, string)>)
    requires a != []
    ensures a[0] in a
  {
  }

  /** A sorted listing is determined by what it lists. */
  lemma {:induction false} SortedUnique(a: seq<(string, string)>, b: seq<(string, string)>)
    requires SortedByKey(a) && SortedByKey(b) && forall e :: e in a <==> e in b
    ensures a == b
  {
    if a == [] {
      if b != [] {
        HeadIn(b);
        assert false;
      }
    } else {
      assert a[0] in b;
      var j :| 0 <= j < |b| && b[j] == a[0];
      assert b[0] in a;
      var i :| 0 <= i < |a| && a[i] == b[0];
      LessIrreflexive(a[0].0);
      if i > 0 {
        LessAsymmetric(a[0].0, a[i].0);
      }
      forall e
        ensures e in a[1..] <==> e in b[1..]
      {
        TailMember(a, e);
        TailMember(b, e);
      }
      SortedUnique(a[1..], b[1..]);
      assert a == [a[0]] + a[1..] && b == [b[0]] + b[1..];
    }
  }

  lemma {:induction false} TailMember(a: seq<(string, string)>, e: (string, string))
    requires SortedByKey(a) && a != []
    ensures e in a[1..] <==> e in a && e != a[0]
  {
    LessIrreflexive(a[0].0);
    if e in a && e != a[0] {
      var i :| 0 <= i < |a| && a[i] == e;
      assert a[1..][i - 1] == e;
    }
    if e in a[1..] {
      var i :| 0 <= i < |a[1..]| && a[1..][i] == e;
      assert a[i + 1] == e;
    }
  }

  /** There is exactly one answer to a scan. */
  lemma {:induction false} ScanUnique(store: Store, upper: Upper, lo: string, hi: string,
                                      a: seq<(string, string)>, b: seq<(string, string)>)
    requires IsScan(store, upper, lo, hi, a) && IsScan(store, upper, lo, hi, b)
    ensures a == b
  {
    forall e
      ensures e in a <==> e in b
    {
      ScanMember(store, upper, lo, hi, a, e);
      ScanMember(store, upper, lo, hi, b, e);
    }
    SortedUnique(a, b);
  }

  lemma {:induction false} ScanMember(store: Store, upper: Upper, lo: string, hi: string, a: seq<(string, string)>,
      e: (string, string))
    requires IsScan(store, upper, lo, hi, a)
    ensures e in a <==> InScan(upper, lo, e.0, hi) && ValueAt(store, e.0) == Some(e.1)
  {
    if InScan(upper, lo, e.0, hi) && ValueAt(store, e.0) == Some(e.1) {
      assert HasKey(a, e.0);
      var i :| 0 <= i < |a| && a[i].0 == e.0;
      assert a[i] == e;
    }
  }

  /** `es` lists, in order, the keys of `all` that are no longer to do. */
  ghost predicate ListedBelow(store: Store, all: set<string>, todo: set<string>, es: seq<(string, string)>) {
    && todo <= all <= store.Keys
    && (forall i, j :: 0 <= i < j < |es| ==> Less(es[i].0, es[j].0))
    && (forall i :: 0 <= i < |es| ==> es[i].0 in all && ValueAt(store, es[i].0) == Some(es[i].1))
    && (forall k :: k in all && k !in todo ==> HasKey(es, k))
    && (forall i, k :: 0 <= i < |es| && k in todo ==> Less(es[i].0, k))
  }

  lemma {:induction false} ListNext(store: Store, all: set<string>, todo: set<string>, es: seq<(string, string)>,
      k: string)
    requires ListedBelow(store, all, todo, es) && k in todo && forall j :: j in todo ==> !Less(j, k)
    ensures ListedBelow(store, all, todo - {k}, es + [(k, store[k])])
  {
    var more := es + [(k, store[k])];
    forall j | j in todo - {k}
      ensures Less(k, j)
    {
      LessTotal(k, j);
    }
    forall j | j in all && j !in todo - {k}
      ensures HasKey(more, j)
    {
      if j == k {
        assert more[|es|].0 == j;
      } else {
        assert HasKey(es, j);
        var i :| 0 <= i < |es| && es[i].0 == j;
        assert more[i].0 == j;
      }
    }
  }

  function RangeKeys(store: Store, lo: string, hi: string): set<string> {
    set k | k in store && InScan(Exclusive, lo, k, hi)
  }

  /** Walk the keys of the range in order. */
  method Range(store: Store, lo: string, hi: string) returns (entries: seq<(string, string)>)
    ensures IsScan(store, Exclusive, lo, hi, entries)
  {
    var all := RangeKeys(store, lo, hi);
    var todo := all;
    entries := [];
    while todo != {}
      invariant ListedBelow(store, all, todo, entries)
      decreases |todo|
    {
      ghost var least := LeastKey(todo);
      var k :| k in todo && forall j :: j in todo ==> !Less(j, k);
      ListNext(store, all, todo, entries, k);
      entries := entries + [(k, store[k])];
      todo := todo - {k};
    }
  }

  lemma {:induction false} ListAll(store: Store, all: set<string>, todo: set<string>, es: seq<(string, string)>)
    returns (r: seq<(string, string)>)
    requires ListedBelow(store, all, todo, es)
    ensures ListedBelow(store, all, {}, r)
    decreases |todo|
  {
    if todo == {} {
      r := es;
    } else {
      var k := LeastKey(todo);
      ListNext(store, all, todo, es, k);
      r := ListAll(store, all, todo - {k}, es + [(k, store[k])]);
    }
  }

  lemma {:induction false} ScanExists(store: Store, lo: string, hi: string)
    ensures exists es :: IsScan(store, Exclusive, lo, hi, es)
  {
    var all := RangeKeys(store, lo, hi);
    var es := ListAll(store, all, all, []);
    assert IsScan(store, Exclusive, lo, hi, es);
  }

  ghost function ScanOf(store: Store, lo: string, hi: string): (es: seq<(string, string)>)
    ensures IsScan(store, Exclusive, lo, hi, es)
  {
    ScanExists(store, lo, hi);
    var es :| IsScan(store, Exclusive, lo, hi, es);
    es
  }

  // ---------- handling calls ----------

  /** Scanning backwards makes the map panic; everything else is answered. */
  predicate Handled(call: KvCall) {
    call.Scan? ==> !Less(call.keyEnd, call.keyStart)
  }

  ghost function Respond(store: Store, call: KvCall): (resp: KvResp)
    ensures Answers(store, Exclusive, call, resp)
  {
    match call
    case Put(k, _) => PutResp(k, k in store)
    case Swap(k, _) => SwapResp(k, ValueAt(store, k))
    case Get(k) => GetResp(k, ValueAt(store, k))
    case Scan(lo, hi) => ScanResp(lo, hi, ScanOf(store, lo, hi))
    case Delete(k) => DeleteResp(k, k in store)
    case Stop => StopResp
  }

  class Client {
    var state: Store

    constructor ()
      ensures state == map[]
    {
      state := map[];
    }

    method HandleKvCall(call: KvCall) returns (resp: KvResp)
      requires Handled(call)
      modifies this
      ensures state == After(old(state), call)
      ensures resp == Respond(old(state), call) && (resp == StopResp <==> call == Stop)
    {
      match call
      case Put(k, v) =>
        var found := k in state;
        state := state[k := v];
        resp := PutResp(k, found);
      case Swap(k, v) =>
        var oldValue := if k in state then Some(state[k]) else None;
        state := state[k := v];
        resp := SwapResp(k, oldValue);
      case Get(k) =>
        resp := GetResp(k, if k in state then Some(state[k]) else None);
      case Scan(lo, hi) =>
        var entries := Range(state, lo, hi);
        ScanUnique(state, Exclusive, lo, hi, entries, ScanOf(state, lo, hi));
        resp := ScanResp(lo, hi, entries);
      case Delete(k) =>
        var found := k in state;
        state := state - {k};
        resp := DeleteResp(k, found);
      case Stop =>
        resp := StopResp;
    }
  }

  // ---------- the main loop ----------

  /** How the client's loop ends; `Blocks` stands for reading on at the end of the input. */
  datatype End = Stopped | Failed | Panics | Blocks

  /** Everything the client prints for an input, and how it ends. */
  ghost function Serve(store: Store, input: string): (string, End)
    decreases |input|
  {
    match NextLine([], input)
    case AtEnd => ("", Blocks)
    case Found(buffer, rest) =>
      match ParseCall(Trim(buffer))
      case Malformed => ("", Failed)
      case Call(call) =>
        if !Handled(call) then ("", Panics)
        else if call == Stop then (Print(StopResp), Stopped)
        else
          var (more, end) := Serve(After(store, call), rest);
          (Print(Respond(store, call)) + more, end)
  }

  /** Printing a response, entry by entry for a scan. */
  method WriteResponse(resp: KvResp, stdout: string) returns (out: string)
    ensures out == stdout + Print(resp)
  {
    if resp.ScanResp? {
      var es := resp.entries;
      out := stdout + Line(["SCAN", resp.keyStart, resp.keyEnd, "BEGIN"]);
      for i := 0 to |es|
        invariant out + Concat(EntryLines(es[i..]) + [Line(CLOSING)]) == stdout + Print(resp)
      {
        var lines := EntryLines(es[i..]) + [Line(CLOSING)];
        assert es[i..][1..] == es[i + 1..];
        assert lines[1..] == EntryLines(es[i + 1..]) + [Line(CLOSING)] && lines[0] == EntryLine(es[i]);
        out := out + ("  " + Line([es[i].0, es[i].1]));
      }
      assert es[|es|..] == [] && [Line(CLOSING)][1..] == [];
      assert Concat([Line(CLOSING)]) == Line(CLOSING) + [];
      out := out + Line(CLOSING);
    } else {
      assert |RespLines(resp)| == 1 && RespLines(resp)[1..] == [];
      assert Concat(RespLines(resp)[1..]) == [];
      assert Print(resp) == RespLines(resp)[0] + [];
      out := stdout + RespLines(resp)[0];
    }
  }

  /** One iteration of the loop, with what was printed before. */
  lemma {:induction false} ServeUnfolds(store: Store, input: string, output: string)
    ensures var whole := (output + Serve(store, input).0, Serve(store, input).1);
      match NextLine([], input)
      case AtEnd => whole == (output, Blocks)
      case Found(buffer, rest) =>
        match ParseCall(Trim(buffer))
        case Malformed => whole == (output, Failed)
        case Call(call) =>
          if !Handled(call) then whole == (output, Panics)
          else if call == Stop then whole == (output + Print(Respond(store, call)), Stopped)
          else whole == (output + Print(Respond(store, call)) + Serve(After(store, call), rest).0, Serve(After(store, call), rest).1)
  {
    hide NextLine, ParseCall, Trim, Print, After;
    assert output + "" == output;
    match NextLine([], input)
    case AtEnd =>
    case Found(buffer, rest) =>
      match ParseCall(Trim(buffer))
      case Malformed =>
      case Call(call) =>
        var more := Serve(After(store, call), rest).0;
        assert output + (Print(Respond(store, call)) + more) == output + Print(Respond(store, call)) + more;
  }

  method RunClient(input: string) returns (output: string, end: End)
    ensures (output, end) == Serve(map[], input)
  {
    hide NextLine, ParseCall, Trim, Print, After, Respond, Serve;
    var client := new Client();
    var stdin := new Reader(input);
    output := "";
    while true
      invariant Serve(map[], input).0 == output + Serve(client.state, stdin.input).0
      invariant Serve(map[], input).1 == Serve(client.state, stdin.input).1
      decreases |stdin.input|
    {
      ServeUnfolds(client.state, stdin.input, output);
      var line := stdin.ReadNextLine();
      if line == None {
        return output, Blocks;
      }
      var parsed := ParseCall(Trim(line.value));
      if parsed == Malformed {
        return output, Failed;
      }
      if !Handled(parsed.call) {
        return output, Panics;
      }
      var resp := client.HandleKvCall(parsed.call);
      output := WriteResponse(resp, output);
      if resp == StopResp {
        return output, Stopped;
      }
    }
  }

  // ---------- the pipe between runner and client ----------

  /** Words only, values that are not `null` and do not form a closing line, scan bounds
      in order. */
  predicate SafeCall(call: KvCall) {
    && WordedCall(call) && Handled(call)
    && (call.Put? || call.Swap? ==> SafeEntry((call.key, call.value)) && call.value != "null")
  }

  ghost predicate SafeStore(store: Store) {
    forall k :: k in store ==> SafeEntry((k, store[k])) && store[k] != "null"
  }

  /** The store stays safe, so every answer can be printed and read back. */
  lemma {:induction false} SafeStep(store: Store, call: KvCall)
    requires SafeStore(store) && SafeCall(call)
    ensures SafeStore(After(store, call)) && SafeResp(Respond(store, call))
  {
    hide Token, Less;
    if call.Scan? {
      var es := ScanOf(store, call.keyStart, call.keyEnd);
      forall i | 0 <= i < |es|
        ensures SafeEntry(es[i])
      {
        assert ValueAt(store, es[i].0) == Some(es[i].1);
        assert es[i] == (es[i].0, es[i].1);
      }
    }
  }

  /** The answers of applying the calls one after the other, without any text. */
  ghost function Direct(store: Store, calls: seq<KvCall>): seq<KvResp>
    decreases calls
  {
    if calls == [] then [] else [Respond(store, calls[0])] + Direct(After(store, calls[0]), calls[1..])
  }

  function WriteAll(calls: seq<KvCall>): string {
    if calls == [] then [] else CallLine(calls[0]) + WriteAll(calls[1..])
  }

  ghost predicate SafeCalls(calls: seq<KvCall>) {
    forall i :: 0 <= i < |calls| ==> SafeCall(calls[i]) && calls[i] != Stop
  }

  lemma {:induction false} ServeOne(store: Store, call: KvCall, rest: string)
    requires SafeCall(call)
    ensures Serve(store, CallLine(call) + rest) ==
      if call == Stop then (Print(StopResp), Stopped)
      else (Print(Respond(store, call)) + Serve(After(store, call), rest).0, Serve(After(store, call), rest).1)
  {
    hide NextLine, ParseCall, Trim, Print, After, Respond, CallLine, Token;
    CallRoundTrip(call, "", rest);
    assert "" + (CallLine(call) + rest) == CallLine(call) + rest;
  }

  /** The client prints exactly the direct answers, and they are all safe. */
  lemma {:induction false} ServeAll(store: Store, calls: seq<KvCall>, rest: string)
    requires SafeStore(store) && SafeCalls(calls)
    ensures Serve(store, WriteAll(calls) + (CallLine(Stop) + rest)) == (PrintAll(Direct(store, calls) + [StopResp]), Stopped)
    ensures forall i :: 0 <= i < |Direct(store, calls)| ==> SafeResp(Direct(store, calls)[i])
    decreases calls
  {
    hide Serve, Print, After, Respond, SafeCall, SafeStore, SafeResp, CallLine;
    var tail := CallLine(Stop) + rest;
    if calls == [] {
      StopIsSafe();
      ServeOne(store, Stop, rest);
      assert WriteAll(calls) + tail == CallLine(Stop) + rest;
      assert Direct(store, calls) + [StopResp] == [StopResp];
      PrintOne(StopResp);
    } else {
      var call, store' := calls[0], After(store, calls[0]);
      SafeStep(store, call);
      ServeAll(store', calls[1..], rest);
      var rs', rs := Direct(store', calls[1..]), Direct(store, calls);
      assert rs == [Respond(store, call)] + rs';
      assert WriteAll(calls) + tail == CallLine(call) + (WriteAll(calls[1..]) + tail);
      ServeOne(store, call, WriteAll(calls[1..]) + tail);
      assert rs + [StopResp] == [Respond(store, call)] + (rs' + [StopResp]);
      PrintMore(Respond(store, call), rs' + [StopResp]);
    }
  }

  lemma {:induction false} PrintOne(r: KvResp)
    ensures PrintAll([r]) == Print(r)
  {
    PrintMore(r, []);
    assert [r] + [] == [r] && Print(r) + [] == Print(r);
  }

  lemma {:induction false} PrintMore(r: KvResp, rs: seq<KvResp>)
    ensures PrintAll([r] + rs) == Print(r) + PrintAll(rs)
  {
    assert ([r] + rs)[1..] == rs;
  }

  lemma {:induction false} StopIsSafe()
    ensures SafeCall(Stop)
  {
  }

  /** The text interface is transparent: for any safe calls followed by a stop, what the
      runner decodes from the client's output is what applying the calls directly to an
      empty map answers, and nothing is left over. */
  lemma {:induction false} TransparentPipe(calls: seq<KvCall>)
    requires SafeCalls(calls)
    ensures var (output, end) := Serve(map[], WriteAll(calls) + CallLine(Stop));
      && end == Stopped
      && DecodeAll(output, |calls| + 1) == Got(Direct(map[], calls) + [StopResp], "")
  {
    hide Serve, SafeCall, SafeResp, DecodeAll, CallLine;
    assert CallLine(Stop) + "" == CallLine(Stop);
    ServeAll(map[], calls, "");
    var rs := Direct(map[], calls) + [StopResp];
    DirectLength(map[], calls);
    assert SafeResp(StopResp) by { StopRespIsSafe(); }
    PrintedRoundTrip(rs, "");
    assert PrintAll(rs) + "" == PrintAll(rs);
  }

  lemma {:induction false} StopRespIsSafe()
    ensures SafeResp(StopResp)
  {
  }

  lemma {:induction false} DirectLength(store: Store, calls: seq<KvCall>)
    ensures |Direct(store, calls)| == |calls|
    decreases calls
  {
    if calls != [] {
      DirectLength(After(store, calls[0]), calls[1..]);
    }
  }
}
