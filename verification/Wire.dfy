/** The text form of calls and responses, and reading it back. */
module Wire {
  import opened KvTypes
  import opened Text

  // ---------- writing ----------

  function CallLine(call: KvCall): string {
    match call
    case Put(k, v) => Line(["PUT", k, v])
    case Swap(k, v) => Line(["SWAP", k, v])
    case Get(k) => Line(["GET", k])
    case Scan(lo, hi) => Line(["SCAN", lo, hi])
    case Delete(k) => Line(["DELETE", k])
    case Stop => Line(["STOP"])
  }

  function FoundWord(found: bool): string {
    if found then "found" else "not_found"
  }

  function ValueWord(v: Option<string>): string {
    match v
    case None => "null"
    case Some(x) => x
  }

  function EntryLine(e: (string, string)): string {
    "  " + Line([e.0, e.1])
  }

  function EntryLines(entries: seq<(string, string)>): seq<string> {
    if entries == [] then [] else [EntryLine(entries[0])] + EntryLines(entries[1..])
  }

  /** The lines a response is printed as. */
  function RespLines(r: KvResp): seq<string> {
    match r
    case PutResp(k, f) => [Line(["PUT", k, FoundWord(f)])]
    case SwapResp(k, v) => [Line(["SWAP", k, ValueWord(v)])]
    case GetResp(k, v) => [Line(["GET", k, ValueWord(v)])]
    case ScanResp(lo, hi, es) => [Line(["SCAN", lo, hi, "BEGIN"])] + (EntryLines(es) + [Line(["SCAN", "END"])])
    case DeleteResp(k, f) => [Line(["DELETE", k, FoundWord(f)])]
    case StopResp => [Line(["STOP"])]
  }

  function Concat(lines: seq<string>): string {
    if lines == [] then [] else lines[0] + Concat(lines[1..])
  }

  function Print(r: KvResp): string {
    Concat(RespLines(r))
  }

  // ---------- reading ----------

  datatype Next = Found(buffer: string, rest: string) | AtEnd

  /** Read lines into the buffer until it is not blank. At the end of the input this goes
      on forever, which is what `AtEnd` stands for. */
  function NextLine(buffer: string, s: string): (r: Next)
    ensures r.Found? ==> |r.rest| < |s|
    decreases |s|
  {
    if s == [] then AtEnd
    else
      var n := LineLen(s);
      if Blank(buffer + s[..n]) then NextLine(buffer + s[..n], s[n..])
      else Found(buffer + s[..n], s[n..])
  }

  datatype Read<T> = Got(value: T, rest: string) | InvalidLine(line: string) | InvalidField(field: string) | Hangs

  function ParseFound(word: string): Option<bool> {
    if word == "found" then Some(true) else if word == "not_found" then Some(false) else None
  }

  function ParseValue(word: string): Option<string> {
    if word == "null" then None else Some(word)
  }

  /** Entries up to the closing line. */
  function ReadEntries(entries: seq<(string, string)>, s: string): Read<seq<(string, string)>>
    decreases |s|
  {
    match NextLine([], s)
    case AtEnd => Hangs
    case Found(buffer, rest) =>
      if Trim(buffer) == "SCAN END" then Got(entries, rest)
      else
        var segs := Segs(buffer);
        if |segs| < 2 then InvalidLine(buffer) else ReadEntries(entries + [(segs[0], segs[1])], rest)
  }

  function ReadScan(lo: string, hi: string, s: string): Read<KvResp> {
    match ReadEntries([], s)
    case Got(entries, rest) => Got(ScanResp(lo, hi, entries), rest)
    case InvalidLine(l) => InvalidLine(l)
    case InvalidField(f) => InvalidField(f)
    case Hangs => Hangs
  }

  function ReadFlag(segs: seq<string>, buffer: string, rest: string, put: bool): Read<KvResp> {
    if |segs| < 3 then InvalidLine(buffer)
    else match ParseFound(segs[2])
      case None => InvalidField(segs[2])
      case Some(f) => Got(if put then PutResp(segs[1], f) else DeleteResp(segs[1], f), rest)
  }

  /** One response from the start of `s`. */
  function Decode(s: string): Read<KvResp> {
    match NextLine([], s)
    case AtEnd => Hangs
    case Found(buffer, rest) =>
      var segs := Segs(buffer);
      if segs == [] then InvalidLine(buffer)
      else if segs[0] == "PUT" then ReadFlag(segs, buffer, rest, true)
      else if segs[0] == "SWAP" then
        if |segs| < 3 then InvalidLine(buffer) else Got(SwapResp(segs[1], ParseValue(segs[2])), rest)
      else if segs[0] == "GET" then
        if |segs| < 3 then InvalidLine(buffer) else Got(GetResp(segs[1], ParseValue(segs[2])), rest)
      else if segs[0] == "SCAN" then
        if |segs| < 4 || segs[3] != "BEGIN" then InvalidLine(buffer) else ReadScan(segs[1], segs[2], rest)
      else if segs[0] == "DELETE" then ReadFlag(segs, buffer, rest, false)
      else if segs[0] == "STOP" then Got(StopResp, rest)
      else InvalidLine(buffer)
  }

  // ---------- which responses survive ----------

  predicate SafeEntry(e: (string, string)) {
    Token(e.0) && Token(e.1) && !(e.0 == "SCAN" && e.1 == "END")
  }

  predicate SafeValue(v: Option<string>) {
    v.Some? ==> Token(v.value) && v.value != "null"
  }

  predicate SafeResp(r: KvResp) {
    match r
    case PutResp(k, _) => Token(k)
    case SwapResp(k, v) => Token(k) && SafeValue(v)
    case GetResp(k, v) => Token(k) && SafeValue(v)
    case ScanResp(lo, hi, es) => Token(lo) && Token(hi) && forall i :: 0 <= i < |es| ==> SafeEntry(es[i])
    case DeleteResp(k, _) => Token(k)
    case StopResp => true
  }

  // ---------- padding with blank lines ----------

  /** Any number of blank lines. */
  predicate IsPad(pad: string) {
    Blank(pad) && (pad == [] || pad[|pad| - 1] == '\n')
  }

  /** The lines, each preceded by blank lines. */
  function Padded(lines: seq<string>, pads: seq<string>): string
    requires |lines| == |pads|
  {
    if lines == [] then [] else pads[0] + (lines[0] + Padded(lines[1..], pads[1..]))
  }

  ghost predicate Pads(pads: seq<string>, n: nat) {
    |pads| == n && forall i :: 0 <= i < |pads| ==> IsPad(pads[i])
  }

  lemma {:induction false} LineLenSplits(s: string)
    requires s != [] && s[|s| - 1] == '\n'
    ensures var n := LineLen(s); n == |s| || s[n..][|s[n..]| - 1] == '\n'
    ensures forall rest :: LineLen(s + rest) == LineLen(s)
  {
    if s[0] != '\n' {
      LineLenSplits(s[1..]);
      forall rest
        ensures LineLen(s + rest) == LineLen(s)
      {
        assert (s + rest)[1..] == s[1..] + rest;
      }
    }
  }

  lemma {:induction false} NextLineHere(buffer: string, body: string, rest: string)
    requires '\n' !in body && !Blank(body)
    ensures NextLine(buffer, body + "\n" + rest) == Found(buffer + (body + "\n"), rest)
  {
    hide IsSpace;
    var s := body + "\n" + rest;
    LineLenIs(body, rest);
    var n := LineLen(s);
    assert s[..n] == body + "\n" && s[n..] == rest;
    var i :| 0 <= i < |body| && !IsSpace(body[i]);
    assert (buffer + s[..n])[|buffer| + i] == body[i];
  }

  lemma {:induction false} NextLineSkips(buffer: string, pad: string, tail: string)
    requires Blank(buffer) && IsPad(pad) && pad != []
    ensures var n := LineLen(pad);
      0 < n <= |pad| && IsPad(pad[n..]) && NextLine(buffer, pad + tail) == NextLine(buffer + pad[..n], pad[n..] + tail)
  {
    hide IsSpace;
    LineLenSplits(pad);
    var s, n := pad + tail, LineLen(pad);
    assert LineLen(s) == n;
    assert s[..n] == pad[..n] && s[n..] == pad[n..] + tail;
  }

  /** Blank lines are skipped, and a line is read to its end. */
  lemma {:induction false} NextLineIs(buffer: string, pad: string, body: string, rest: string)
    requires Blank(buffer) && IsPad(pad) && '\n' !in body && !Blank(body)
    ensures NextLine(buffer, pad + (body + "\n" + rest)) == Found(buffer + pad + (body + "\n"), rest)
    decreases |pad|
  {
    hide NextLine, LineLen, IsSpace;
    var tail := body + "\n" + rest;
    if pad == [] {
      NextLineHere(buffer, body, rest);
      assert pad + tail == tail && buffer + pad == buffer;
    } else {
      NextLineSkips(buffer, pad, tail);
      var n := LineLen(pad);
      NextLineIs(buffer + pad[..n], pad[n..], body, rest);
      assert buffer + pad[..n] + pad[n..] == buffer + pad;
    }
  }

  /** Reading back a line of words, indented or not. */
  lemma {:induction false} ReadLine(pad: string, indent: string, toks: seq<string>, rest: string)
    requires IsPad(pad) && Blank(indent) && '\n' !in indent && toks != [] && Tokens(toks)
    ensures var r := NextLine([], pad + ((indent + Line(toks)) + rest));
      r.Found? && r.rest == rest && Segs(r.buffer) == toks && Trim(r.buffer) == Body(toks)
  {
    hide NextLine, Segs, Trim, Body, Tokens;
    var body, m := indent + Body(toks), Body(toks);
    BodyShape(toks);
    assert '\n' !in body;
    assert !Blank(body) by { assert body[|indent|] == m[0]; }
    assert pad + ((indent + Line(toks)) + rest) == pad + (body + "\n" + rest);
    NextLineIs([], pad, body, rest);
    var buffer := [] + pad + (body + "\n");
    assert buffer == (pad + indent) + (m + "\n");
    SegsBlank(pad + indent, m + "\n");
    SegsBody(toks, "\n");
    assert buffer == (pad + indent) + m + "\n";
    TrimIs(pad + indent, m, "\n");
  }

  // ---------- reading back what was printed ----------

  const CLOSING: seq<string> := ["SCAN", "END"]

  lemma {:induction false} EntryOrClosing(e: (string, string))
    requires Token(e.0) && Token(e.1)
    ensures Body([e.0, e.1]) == "SCAN END" <==> e == ("SCAN", "END")
  {
    assert Tokens([e.0, e.1]) && Tokens(CLOSING);
    assert Body(CLOSING) == "SCAN END" by {
      assert CLOSING[1..] == ["END"];
    }
    if Body([e.0, e.1]) == "SCAN END" {
      BodyInjective([e.0, e.1], CLOSING);
      assert [e.0, e.1][0] == CLOSING[0] && [e.0, e.1][1] == CLOSING[1];
    }
  }

  /** One entry line: an entry, unless it looks like the closing line. */
  lemma {:induction false} ReadOneEntry(done: seq<(string, string)>, pad: string, e: (string, string), rest: string)
    requires IsPad(pad) && Token(e.0) && Token(e.1)
    ensures ReadEntries(done, pad + (EntryLine(e) + rest)) ==
            if SafeEntry(e) then ReadEntries(done + [e], rest) else Got(done, rest)
  {
    hide NextLine, Segs, Trim, Body, Token, IsPad;
    assert Blank("  ") && Tokens([e.0, e.1]);
    ReadLine(pad, "  ", [e.0, e.1], rest);
    EntryOrClosing(e);
    assert (e.0, e.1) == e;
  }

  lemma {:induction false} ReadClosing(done: seq<(string, string)>, pad: string, rest: string)
    requires IsPad(pad)
    ensures ReadEntries(done, pad + (Line(CLOSING) + rest)) == Got(done, rest)
  {
    hide NextLine, Segs, Trim, Body, IsPad;
    assert Tokens(CLOSING);
    assert "" + Line(CLOSING) == Line(CLOSING);
    ReadLine(pad, "", CLOSING, rest);
    EntryOrClosing(("SCAN", "END"));
    assert ["SCAN", "END"] == CLOSING;
  }

  lemma {:induction false} ReadEntriesBack(done: seq<(string, string)>, es: seq<(string, string)>, pads: seq<string>,
      rest: string)
    requires Pads(pads, |es| + 1) && forall i :: 0 <= i < |es| ==> SafeEntry(es[i])
    ensures |EntryLines(es)| == |es|
    ensures ReadEntries(done, Padded(EntryLines(es) + [Line(CLOSING)], pads) + rest) == Got(done + es, rest)
    decreases es
  {
    hide ReadEntries, NextLine, IsPad, Token;
    if es == [] {
      var lines := EntryLines(es) + [Line(CLOSING)];
      assert lines == [Line(CLOSING)] && lines[1..] == [];
      assert Padded(lines, pads) + rest == pads[0] + (Line(CLOSING) + rest);
      ReadClosing(done, pads[0], rest);
      assert done + es == done;
    } else {
      ReadEntriesBack(done + [es[0]], es[1..], pads[1..], rest);
      var lines := EntryLines(es) + [Line(CLOSING)];
      var tail := Padded(EntryLines(es[1..]) + [Line(CLOSING)], pads[1..]);
      assert lines[1..] == EntryLines(es[1..]) + [Line(CLOSING)] && lines[0] == EntryLine(es[0]);
      assert Padded(lines, pads) + rest == pads[0] + (EntryLine(es[0]) + (tail + rest));
      ReadOneEntry(done, pads[0], es[0], tail + rest);
      assert done + [es[0]] + es[1..] == done + es;
    }
  }

  /** A single printed line, alone or at the head of a scan. */
  lemma {:induction false} DecodeLine(pad: string, toks: seq<string>, rest: string)
    requires IsPad(pad) && toks != [] && Tokens(toks)
    ensures var s := pad + (Line(toks) + rest);
      && NextLine([], s).Found? && NextLine([], s).rest == rest && Segs(NextLine([], s).buffer) == toks
  {
    assert "" + Line(toks) == Line(toks);
    ReadLine(pad, "", toks, rest);
  }

  function HeadToks(r: KvResp): seq<string> {
    match r
    case PutResp(k, f) => ["PUT", k, FoundWord(f)]
    case SwapResp(k, v) => ["SWAP", k, ValueWord(v)]
    case GetResp(k, v) => ["GET", k, ValueWord(v)]
    case ScanResp(lo, hi, es) => ["SCAN", lo, hi, "BEGIN"]
    case DeleteResp(k, f) => ["DELETE", k, FoundWord(f)]
    case StopResp => ["STOP"]
  }

  lemma {:induction false} HeadIsTokens(r: KvResp)
    requires SafeResp(r)
    ensures Tokens(HeadToks(r)) && HeadToks(r) != [] && RespLines(r)[0] == Line(HeadToks(r))
  {
    KeywordsAreTokens();
    hide Token, Line;
  }

  lemma {:induction false} KeywordsAreTokens()
    ensures Token("PUT") && Token("SWAP") && Token("GET") && Token("SCAN") && Token("BEGIN") && Token("DELETE")
    ensures Token("STOP") && Token("found") && Token("not_found") && Token("null") && Token("END")
  {
  }

  /** Interpreting the words of the first line. */
  lemma {:induction false} DecodeHead(r: KvResp, s: string)
    requires SafeResp(r) && NextLine([], s).Found? && Segs(NextLine([], s).buffer) == HeadToks(r)
    ensures Decode(s) ==
      if r.ScanResp? then ReadScan(r.keyStart, r.keyEnd, NextLine([], s).rest) else Got(r, NextLine([], s).rest)
  {
    hide NextLine, Segs, Token, ReadScan;
    assert "found" != "not_found";
    match r
    case PutResp(k, f) => assert HeadToks(r)[1] == k && HeadToks(r)[2] == FoundWord(f);
    case SwapResp(k, v) => assert HeadToks(r)[1] == k && HeadToks(r)[2] == ValueWord(v);
    case GetResp(k, v) => assert HeadToks(r)[1] == k && HeadToks(r)[2] == ValueWord(v);
    case ScanResp(lo, hi, es) => assert HeadToks(r)[1] == lo && HeadToks(r)[2] == hi && HeadToks(r)[3] == "BEGIN";
    case DeleteResp(k, f) => assert HeadToks(r)[1] == k && HeadToks(r)[2] == FoundWord(f);
    case StopResp =>
  }

  lemma {:induction false} PaddedHead(lines: seq<string>, pads: seq<string>, rest: string)
    requires |lines| == |pads| > 0
    ensures Padded(lines, pads) + rest == pads[0] + (lines[0] + (Padded(lines[1..], pads[1..]) + rest))
  {
  }

  /** Printing a safe response, with blank lines anywhere, and reading it back gives the
      response and consumes exactly its own lines. */
  lemma {:induction false} RoundTrip(r: KvResp, pads: seq<string>, rest: string)
    requires SafeResp(r) && Pads(pads, |RespLines(r)|)
    ensures Decode(Padded(RespLines(r), pads) + rest) == Got(r, rest)
  {
    hide NextLine, Segs, Token, IsPad, Line, Tokens, Decode, HeadToks;
    HeadIsTokens(r);
    var lines, toks := RespLines(r), HeadToks(r);
    var tail := Padded(lines[1..], pads[1..]);
    PaddedHead(lines, pads, rest);
    DecodeLine(pads[0], toks, tail + rest);
    DecodeHead(r, Padded(lines, pads) + rest);
    if r.ScanResp? {
      assert lines[1..] == EntryLines(r.entries) + [Line(CLOSING)];
      EntryCount(r.entries);
      ReadEntriesBack([], r.entries, pads[1..], rest);
      assert [] + r.entries == r.entries;
    } else {
      assert tail == [] && tail + rest == rest;
    }
  }

  lemma {:induction false} EntryCount(es: seq<(string, string)>)
    ensures |EntryLines(es)| == |es|
  {
    if es != [] {
      EntryCount(es[1..]);
    }
  }
}
