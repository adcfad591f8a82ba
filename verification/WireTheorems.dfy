/** Exactly which responses survive printing and reading, and streams of them. */
module WireTheorems {
  import opened KvTypes
  import opened Text
  import opened Wire

  // ---------- plain printing is padding with nothing ----------

  function NoPads(n: nat): seq<string> {
    seq(n, _ => "")
  }

  lemma {:induction false} PlainIsPadded(lines: seq<string>)
    ensures Concat(lines) == Padded(lines, NoPads(|lines|)) && Pads(NoPads(|lines|), |lines|)
  {
    if lines != [] {
      PlainIsPadded(lines[1..]);
      assert NoPads(|lines|)[1..] == NoPads(|lines[1..]|);
      assert "" + (lines[0] + Concat(lines[1..])) == lines[0] + Concat(lines[1..]);
    }
  }

  // ---------- only safe responses survive ----------

  predicate WordedEntries(es: seq<(string, string)>) {
    forall i :: 0 <= i < |es| ==> Token(es[i].0) && Token(es[i].1)
  }

  /** Whatever is read consists of words. */
  predicate Worded(r: KvResp) {
    match r
    case PutResp(k, _) => Token(k)
    case SwapResp(k, v) => Token(k) && SafeValue(v)
    case GetResp(k, v) => Token(k) && SafeValue(v)
    case ScanResp(lo, hi, es) => Token(lo) && Token(hi) && WordedEntries(es)
    case DeleteResp(k, _) => Token(k)
    case StopResp => true
  }

  lemma {:induction false} EntriesAreWords(done: seq<(string, string)>, s: string)
    requires WordedEntries(done)
    ensures ReadEntries(done, s).Got? ==> WordedEntries(ReadEntries(done, s).value)
    decreases |s|
  {
    hide Token, Trim, Segs;
    match NextLine([], s)
    case AtEnd =>
    case Found(buffer, rest) =>
      var segs := Segs(buffer);
      if Trim(buffer) != "SCAN END" && |segs| >= 2 {
        var more := done + [(segs[0], segs[1])];
        assert Token(segs[0]) && Token(segs[1]);
        assert WordedEntries(more);
        EntriesAreWords(more, rest);
      }
  }

  lemma {:induction false} DecodedIsWorded(s: string)
    ensures Decode(s).Got? ==> Worded(Decode(s).value)
  {
    hide Token, Trim, Segs, NextLine, ReadEntries;
    var n := NextLine([], s);
    if n.Found? {
      assert WordedEntries([]);
      EntriesAreWords([], n.rest);
      hide WordedEntries;
      var segs := Segs(n.buffer);
      assert forall i :: 0 <= i < |segs| ==> Token(segs[i]);
    }
  }

  /** Reading stops early at an entry that looks like the closing line. */
  lemma {:induction false} EarlyClosing(done: seq<(string, string)>, es: seq<(string, string)>, k: nat, rest: string)
    requires k < |es| && WordedEntries(es) && !SafeEntry(es[k])
    ensures var r := ReadEntries(done, Concat(EntryLines(es) + [Line(CLOSING)]) + rest);
      r.Got? && |r.value| < |done| + |es|
    decreases |es|
  {
    hide ReadEntries, Token, SafeEntry;
    var lines := EntryLines(es) + [Line(CLOSING)];
    var tail := Concat(EntryLines(es[1..]) + [Line(CLOSING)]);
    assert lines[1..] == EntryLines(es[1..]) + [Line(CLOSING)] && lines[0] == EntryLine(es[0]);
    assert Concat(lines) + rest == "" + (EntryLine(es[0]) + (tail + rest));
    ReadOneEntry(done, "", es[0], tail + rest);
    if SafeEntry(es[0]) {
      EarlyClosing(done + [es[0]], es[1..], k - 1, rest);
    }
  }

  /** A response can be read back from its own printed form exactly if its keys and values
      are words, no present value is the word `null`, and no scan entry is `SCAN END`. */
  lemma {:induction false} RoundTripExact(r: KvResp, rest: string)
    ensures Decode(Print(r) + rest) == Got(r, rest) <==> SafeResp(r)
  {
    PlainIsPadded(RespLines(r));
    if SafeResp(r) {
      RoundTrip(r, NoPads(|RespLines(r)|), rest);
    } else if Decode(Print(r) + rest) == Got(r, rest) {
      DecodedIsWorded(Print(r) + rest);
      UnsafeScan(r, rest);
    }
  }

  lemma {:induction false} UnsafeScan(r: KvResp, rest: string)
    requires Worded(r) && !SafeResp(r)
    ensures Decode(Print(r) + rest) != Got(r, rest)
  {
    hide Token, Segs, NextLine, ReadEntries;
    var k :| 0 <= k < |r.entries| && !SafeEntry(r.entries[k]);
    var bare := ScanResp(r.keyStart, r.keyEnd, []);
    var lines := EntryLines(r.entries) + [Line(CLOSING)];
    HeadIsTokens(bare);
    var s := Print(r) + rest;
    assert RespLines(r)[1..] == lines && RespLines(r)[0] == Line(HeadToks(bare));
    assert s == "" + (Line(HeadToks(bare)) + (Concat(lines) + rest));
    DecodeLine("", HeadToks(bare), Concat(lines) + rest);
    DecodeHead(bare, s);
    EarlyClosing([], r.entries, k, rest);
  }

  // ---------- streams ----------

  ghost predicate StreamPads(rs: seq<KvResp>, pads: seq<seq<string>>) {
    |rs| == |pads| && forall i :: 0 <= i < |rs| ==> Pads(pads[i], |RespLines(rs[i])|)
  }

  /** Several responses, one after the other, with blank lines anywhere. */
  ghost function Stream(rs: seq<KvResp>, pads: seq<seq<string>>): string
    requires StreamPads(rs, pads)
  {
    if rs == [] then [] else Padded(RespLines(rs[0]), pads[0]) + Stream(rs[1..], pads[1..])
  }

  /** Read `n` responses. */
  function DecodeAll(s: string, n: nat): Read<seq<KvResp>>
    decreases n
  {
    if n == 0 then Got([], s)
    else match Decode(s)
      case Got(r, rest) =>
        (match DecodeAll(rest, n - 1)
         case Got(more, rest') => Got([r] + more, rest')
         case InvalidLine(l) => InvalidLine(l)
         case InvalidField(f) => InvalidField(f)
         case Hangs => Hangs)
      case InvalidLine(l) => InvalidLine(l)
      case InvalidField(f) => InvalidField(f)
      case Hangs => Hangs
  }

  /** Reading a stream of safe responses gives back exactly those responses, whatever
      blank lines lie between and inside them, and leaves what follows untouched. */
  lemma {:induction false} StreamRoundTrip(rs: seq<KvResp>, pads: seq<seq<string>>, rest: string)
    requires StreamPads(rs, pads) && forall i :: 0 <= i < |rs| ==> SafeResp(rs[i])
    ensures DecodeAll(Stream(rs, pads) + rest, |rs|) == Got(rs, rest)
  {
    hide Decode, RespLines, SafeResp;
    if rs == [] {
      assert Stream(rs, pads) + rest == rest;
    } else {
      var head, tail := Padded(RespLines(rs[0]), pads[0]), Stream(rs[1..], pads[1..]);
      assert Stream(rs, pads) + rest == head + (tail + rest);
      RoundTrip(rs[0], pads[0], tail + rest);
      StreamRoundTrip(rs[1..], pads[1..], rest);
      assert [rs[0]] + rs[1..] == rs;
    }
  }

  /** Printing without padding. */
  function PrintAll(rs: seq<KvResp>): string {
    if rs == [] then [] else Print(rs[0]) + PrintAll(rs[1..])
  }

  lemma {:induction false} PrintedRoundTrip(rs: seq<KvResp>, rest: string)
    requires forall i :: 0 <= i < |rs| ==> SafeResp(rs[i])
    ensures DecodeAll(PrintAll(rs) + rest, |rs|) == Got(rs, rest)
  {
    hide Decode, RespLines, SafeResp;
    if rs == [] {
      assert PrintAll(rs) + rest == rest;
    } else {
      var tail := PrintAll(rs[1..]);
      assert PrintAll(rs) + rest == Print(rs[0]) + (tail + rest);
      RoundTripExact(rs[0], tail + rest);
      PrintedRoundTrip(rs[1..], rest);
      assert [rs[0]] + rs[1..] == rs;
    }
  }

  // ---------- calls ----------

  datatype Parsed = Call(call: KvCall) | Malformed

  /** The client's reading of one trimmed input line. */
  function ParseCall(line: string): Parsed {
    var segs := Segs(line);
    if segs == [] then Malformed
    else if segs[0] == "PUT" then if |segs| < 3 then Malformed else Call(Put(segs[1], segs[2]))
    else if segs[0] == "SWAP" then if |segs| < 3 then Malformed else Call(Swap(segs[1], segs[2]))
    else if segs[0] == "GET" then if |segs| < 2 then Malformed else Call(Get(segs[1]))
    else if segs[0] == "SCAN" then if |segs| < 3 then Malformed else Call(Scan(segs[1], segs[2]))
    else if segs[0] == "DELETE" then if |segs| < 2 then Malformed else Call(Delete(segs[1]))
    else if segs[0] == "STOP" then Call(Stop)
    else Malformed
  }

  predicate WordedCall(call: KvCall) {
    match call
    case Put(k, v) => Token(k) && Token(v)
    case Swap(k, v) => Token(k) && Token(v)
    case Get(k) => Token(k)
    case Scan(lo, hi) => Token(lo) && Token(hi)
    case Delete(k) => Token(k)
    case Stop => true
  }

  function CallToks(call: KvCall): seq<string> {
    match call
    case Put(k, v) => ["PUT", k, v]
    case Swap(k, v) => ["SWAP", k, v]
    case Get(k) => ["GET", k]
    case Scan(lo, hi) => ["SCAN", lo, hi]
    case Delete(k) => ["DELETE", k]
    case Stop => ["STOP"]
  }

  /** Parsing depends on the words only. */
  lemma {:induction false} ParseWords(call: KvCall, line: string)
    requires Segs(line) == CallToks(call)
    ensures ParseCall(line) == Call(call)
  {
    hide Segs, Token;
    match call
    case Put(k, v) => assert CallToks(call)[1] == k && CallToks(call)[2] == v;
    case Swap(k, v) => assert CallToks(call)[1] == k && CallToks(call)[2] == v;
    case Get(k) => assert CallToks(call)[1] == k;
    case Scan(lo, hi) => assert CallToks(call)[1] == lo && CallToks(call)[2] == hi;
    case Delete(k) => assert CallToks(call)[1] == k;
    case Stop =>
  }

  /** A call whose keys and values are words is read back as written. */
  lemma {:induction false} CallRoundTrip(call: KvCall, pad: string, rest: string)
    requires WordedCall(call) && IsPad(pad)
    ensures var n := NextLine([], pad + (CallLine(call) + rest));
      n.Found? && n.rest == rest && ParseCall(Trim(n.buffer)) == Call(call)
  {
    assert Token("PUT") && Token("SWAP") && Token("GET") && Token("SCAN") && Token("DELETE") && Token("STOP");
    assert Tokens(CallToks(call));
    assert CallLine(call) == Line(CallToks(call));
    hide Token, Segs, NextLine, Trim, IsPad;
    DecodeLine(pad, CallToks(call), rest);
    var buffer := NextLine([], pad + (CallLine(call) + rest)).buffer;
    SegsTrim(buffer);
    ParseWords(call, Trim(buffer));
  }

  /** A line is parsed as a call exactly if it begins with the words of that call. */
  lemma {:induction false} ParseExact(line: string, call: KvCall)
    ensures ParseCall(line) == Call(call) <==> CallToks(call) <= Segs(line)
  {
    hide Segs;
    var segs, toks := Segs(line), CallToks(call);
    if toks <= segs {
      assert forall i :: 0 <= i < |toks| ==> toks[i] == segs[i];
      assert toks[0] == segs[0];
      assert "PUT" != "SWAP" && "GET" != "SCAN";
    }
    if ParseCall(line) == Call(call) {
      assert toks == segs[..|toks|];
    }
  }
}
