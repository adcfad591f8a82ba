/** When the two readers run on forever at the end of their input, told from the text. */
module EndOfInput {
  import opened KvTypes
  import opened KvStore
  import opened Text
  import opened Wire
  import opened WireTheorems
  import opened RefClient

  /** The lines of a text that are not blank. */
  function Content(s: string): (lines: seq<string>)
    ensures forall i :: 0 <= i < |lines| ==> !Blank(lines[i])
    decreases |s|
  {
    if s == [] then []
    else
      var n := LineLen(s);
      (if Blank(s[..n]) then [] else [s[..n]]) + Content(s[n..])
  }

  lemma {:induction false} BlankExact(s: string)
    ensures Content(s) == [] <==> Blank(s)
    decreases |s|
  {
    if s != [] {
      var n := LineLen(s);
      BlankExact(s[n..]);
      assert s == s[..n] + s[n..];
      BlankJoin(s[..n], s[n..]);
    }
  }

  lemma {:induction false} BlankJoin(a: string, b: string)
    ensures Blank(a + b) <==> Blank(a) && Blank(b)
  {
    hide IsSpace;
    assert forall i :: 0 <= i < |a| ==> (a + b)[i] == a[i];
    assert forall i :: 0 <= i < |b| ==> (a + b)[|a| + i] == b[i];
  }

  // ---------- reading a line ----------

  /** The reader finds the first line that is not blank, after blank text. */
  lemma {:induction false} FindsContent(buffer: string, s: string) returns (pad: string)
    requires Blank(buffer)
    ensures NextLine(buffer, s).AtEnd? <==> Content(s) == []
    ensures var r := NextLine(buffer, s);
      r.Found? ==> Blank(pad) && r.buffer == pad + Content(s)[0] && Content(r.rest) == Content(s)[1..]
    decreases |s|
  {
    pad := buffer;
    if s != [] {
      var n := LineLen(s);
      BlankJoin(buffer, s[..n]);
      if Blank(s[..n]) {
        pad := FindsContent(buffer + s[..n], s[n..]);
      }
    }
  }

  /** Reading the next line runs on forever exactly if nothing but white space is left. */
  lemma {:induction false} NextLineEnds(buffer: string, s: string)
    requires Blank(buffer)
    ensures NextLine(buffer, s).AtEnd? <==> Blank(s)
  {
    hide NextLine, Content, Blank;
    BlankExact(s);
    var pad := FindsContent(buffer, s);
  }

  lemma {:induction false} TrimBlank(a: string, s: string)
    requires Blank(a)
    ensures Trim(a + s) == Trim(s)
  {
    if a == [] {
      assert a + s == s;
    } else {
      assert (a + s)[1..] == a[1..] + s;
      TrimBlank(a[1..], s);
    }
  }

  /** What the reader makes of the next line, told from the text. */
  lemma {:induction false} NextContent(s: string)
    ensures NextLine([], s).AtEnd? <==> Content(s) == []
    ensures var r := NextLine([], s);
      r.Found? ==>
        && Segs(r.buffer) == Segs(Content(s)[0]) && Trim(r.buffer) == Trim(Content(s)[0])
        && Content(r.rest) == Content(s)[1..]
  {
    hide NextLine, Content, Segs, Trim;
    var pad := FindsContent([], s);
    if NextLine([], s).Found? {
      SegsBlank(pad, Content(s)[0]);
      TrimBlank(pad, Content(s)[0]);
    }
  }

  // ---------- reading a response ----------

  /** A line that is read as a scan entry. */
  predicate EntryLike(line: string) {
    |Segs(line)| >= 2 && Trim(line) != "SCAN END"
  }

  /** A line that opens a scan. */
  predicate OpensScan(line: string) {
    var segs := Segs(line);
    |segs| >= 4 && segs[0] == "SCAN" && segs[3] == "BEGIN"
  }

  ghost predicate AllEntries(lines: seq<string>) {
    forall i :: 0 <= i < |lines| ==> EntryLike(lines[i])
  }

  lemma {:induction false} EntriesHang(done: seq<(string, string)>, s: string)
    ensures ReadEntries(done, s) == Hangs <==> AllEntries(Content(s))
    decreases |s|
  {
    hide NextLine, Content, Segs, Trim;
    NextContent(s);
    if NextLine([], s).Found? {
      var lines, rest := Content(s), NextLine([], s).rest;
      assert lines == [lines[0]] + Content(rest);
      assert AllEntries(lines) <==> EntryLike(lines[0]) && AllEntries(Content(rest)) by {
        AllUnfold(lines[0], Content(rest));
      }
      if EntryLike(lines[0]) {
        var segs := Segs(NextLine([], s).buffer);
        EntriesHang(done + [(segs[0], segs[1])], rest);
      }
    }
  }

  lemma {:induction false} AllUnfold(first: string, more: seq<string>)
    ensures AllEntries([first] + more) <==> EntryLike(first) && AllEntries(more)
  {
    hide EntryLike;
    var lines := [first] + more;
    assert lines[0] == first && forall i :: 0 <= i < |more| ==> lines[i + 1] == more[i];
  }

  /** Reading a response runs on forever if and only if the text is blank, or it opens a
      scan and all its other lines are entries. */
  lemma {:induction false} DecodeHangs(s: string)
    ensures Decode(s) == Hangs <==>
      Blank(s) || (Content(s) != [] && OpensScan(Content(s)[0]) && AllEntries(Content(s)[1..]))
  {
    hide NextLine, Content, Segs, Trim, ReadEntries, AllEntries, Blank;
    BlankExact(s);
    NextContent(s);
    if NextLine([], s).Found? {
      EntriesHang([], NextLine([], s).rest);
    }
  }

  /** Every safe response cut off before its last line is such a text. */
  lemma {:induction false} CutOffHangs(r: KvResp, n: nat)
    requires SafeResp(r) && n < |RespLines(r)|
    ensures Decode(Concat(RespLines(r)[..n])) == Hangs
  {
    hide NextLine, Segs, Token, Line, Tokens, Decode, HeadToks, ReadEntries;
    var lines := RespLines(r);
    if n == 0 {
      assert lines[..0] == [];
      EmptyHangs();
    } else {
      assert r.ScanResp?;
      var more := lines[..n][1..];
      EntryCount(r.entries);
      assert more == EntryLines(r.entries)[..n - 1];
      HeadIsTokens(r);
      DecodeLine("", HeadToks(r), Concat(more));
      assert Concat(lines[..n]) == "" + (Line(HeadToks(r)) + Concat(more));
      DecodeHead(r, Concat(lines[..n]));
      CutEntriesHang([], r.entries, n - 1);
    }
  }

  lemma {:induction false} EmptyHangs()
    ensures Decode("") == Hangs && forall done :: ReadEntries(done, "") == Hangs
  {
  }

  lemma {:induction false} CutEntriesHang(done: seq<(string, string)>, es: seq<(string, string)>, n: nat)
    requires (forall i :: 0 <= i < |es| ==> SafeEntry(es[i])) && n <= |es| == |EntryLines(es)|
    ensures ReadEntries(done, Concat(EntryLines(es)[..n])) == Hangs
    decreases es
  {
    hide ReadEntries, Token, EntryLine;
    if n == 0 {
      assert EntryLines(es)[..0] == [];
      EmptyHangs();
    } else {
      EntryCount(es[1..]);
      CutEntriesHang(done + [es[0]], es[1..], n - 1);
      var rest := Concat(EntryLines(es[1..])[..n - 1]);
      assert EntryLines(es)[..n][1..] == EntryLines(es[1..])[..n - 1];
      assert Concat(EntryLines(es)[..n]) == "" + (EntryLine(es[0]) + rest);
      ReadOneEntry(done, "", es[0], rest);
    }
  }

  // ---------- errors of reading a response ----------

  /** The third word of a put's or delete's answer is neither of the two expected. */
  predicate BadFlag(line: string) {
    var segs := Segs(line);
    |segs| >= 3 && (segs[0] == "PUT" || segs[0] == "DELETE") && segs[2] != "found" && segs[2] != "not_found"
  }

  /** The line cannot begin an answer: a word is missing, or the first one is unknown. */
  predicate BadHead(line: string) {
    var segs := Segs(line);
    || segs == []
    || (segs[0] != "PUT" && segs[0] != "SWAP" && segs[0] != "GET" && segs[0] != "SCAN" && segs[0] != "DELETE" && segs[0] != "STOP")
    || (segs[0] != "SCAN" && segs[0] != "STOP" && |segs| < 3)
    || (segs[0] == "SCAN" && (|segs| < 4 || segs[3] != "BEGIN"))
  }

  /** After entries comes a line of a single word. */
  ghost predicate Breaks(lines: seq<string>) {
    exists n :: 0 <= n < |lines| && AllEntries(lines[..n]) && |Segs(lines[n])| < 2 && Trim(lines[n]) != "SCAN END"
  }

  lemma {:induction false} BreaksUnfold(first: string, more: seq<string>)
    ensures Breaks([first] + more) <==>
      Trim(first) != "SCAN END" && (|Segs(first)| < 2 || Breaks(more))
  {
    hide Segs, Trim;
    var lines := [first] + more;
    assert lines[..0] == [] && AllEntries(lines[..0]);
    if n :| 0 <= n < |lines| && AllEntries(lines[..n]) && |Segs(lines[n])| < 2 && Trim(lines[n]) != "SCAN END" {
      if n > 0 {
        assert lines[..n] == [first] + more[..n - 1];
        AllUnfold(first, more[..n - 1]);
        assert more[n - 1] == lines[n];
      }
    }
    if n :| 0 <= n < |more| && AllEntries(more[..n]) && |Segs(more[n])| < 2 && Trim(more[n]) != "SCAN END" {
      assert lines[..n + 1] == [first] + more[..n] && lines[n + 1] == more[n];
      AllUnfold(first, more[..n]);
      assert EntryLike(first) ==> Breaks(lines);
    }
    if Trim(first) != "SCAN END" && |Segs(first)| < 2 {
      assert lines[0] == first;
    }
  }

  lemma {:induction false} EntriesFail(done: seq<(string, string)>, s: string)
    ensures ReadEntries(done, s).InvalidLine? <==> Breaks(Content(s))
    ensures !ReadEntries(done, s).InvalidField?
    decreases |s|
  {
    hide NextLine, Content, Segs, Trim, Breaks;
    NextContent(s);
    if NextLine([], s).Found? {
      var lines, rest := Content(s), NextLine([], s).rest;
      assert lines == [lines[0]] + Content(rest);
      BreaksUnfold(lines[0], Content(rest));
      if EntryLike(lines[0]) {
        var segs := Segs(NextLine([], s).buffer);
        EntriesFail(done + [(segs[0], segs[1])], rest);
      }
    } else {
      NothingBreaks();
    }
  }

  lemma {:induction false} NothingBreaks()
    ensures !Breaks([])
  {
  }

  /** Both ways in which reading a response can fail, told from the text; every other
      text that does not hang is read as a response. */
  lemma {:induction false} DecodeFails(s: string)
    ensures var lines := Content(s);
      && (Decode(s).InvalidField? <==> lines != [] && BadFlag(lines[0]))
      && (Decode(s).InvalidLine? <==> lines != [] && (BadHead(lines[0]) || (OpensScan(lines[0]) && Breaks(lines[1..]))))
  {
    hide NextLine, Content, Segs, Trim, ReadEntries, Breaks;
    NextContent(s);
    if NextLine([], s).Found? {
      EntriesFail([], NextLine([], s).rest);
    }
  }

  /** No value is the text for absence. */
  predicate NotNull(r: KvResp) {
    (r.SwapResp? ==> r.oldValue != Some("null")) && (r.GetResp? ==> r.value != Some("null"))
  }

  /** A response other than a scan is read exactly from a text whose first line that is
      not blank begins with its words. */
  lemma {:induction false} DecodeExact(s: string, r: KvResp)
    requires !r.ScanResp? && NotNull(r)
    ensures Decode(s).Got? && Decode(s).value == r <==> Content(s) != [] && HeadToks(r) <= Segs(Content(s)[0])
  {
    hide NextLine, Content, Segs, ReadEntries;
    NextContent(s);
    if Content(s) != [] {
      HeadExact(Segs(Content(s)[0]), NextLine([], s).buffer, NextLine([], s).rest, s, r);
    }
  }

  lemma {:induction false} HeadExact(segs: seq<string>, buffer: string, rest: string, s: string, r: KvResp)
    requires !r.ScanResp? && NotNull(r) && NextLine([], s) == Found(buffer, rest) && Segs(buffer) == segs
    ensures Decode(s).Got? && Decode(s).value == r <==> HeadToks(r) <= segs
  {
    hide NextLine, Segs, ReadEntries;
    var toks := HeadToks(r);
    if toks <= segs {
      assert forall i :: 0 <= i < |toks| ==> toks[i] == segs[i];
      assert toks[0] == segs[0] && "found" != "not_found";
    }
    if Decode(s).Got? && Decode(s).value == r {
      assert toks == segs[..|toks|];
    }
  }

  // ---------- serving calls ----------

  /** A line that holds a call after which the client reads on. */
  predicate ServesOn(line: string) {
    match ParseCall(line)
    case Malformed => false
    case Call(call) => Handled(call) && call != Stop
  }

  ghost predicate AllServed(lines: seq<string>) {
    forall i :: 0 <= i < |lines| ==> ServesOn(lines[i])
  }

  lemma {:induction false} ServedUnfold(first: string, more: seq<string>)
    ensures AllServed([first] + more) <==> ServesOn(first) && AllServed(more)
  {
    hide ServesOn;
    var lines := [first] + more;
    assert lines[0] == first && forall i :: 0 <= i < |more| ==> lines[i + 1] == more[i];
  }

  lemma {:induction false} ParseSame(a: string, b: string)
    requires Segs(a) == Segs(b)
    ensures ParseCall(a) == ParseCall(b)
  {
  }

  /** The client blocks if and only if every line that is not blank holds a call it can
      handle other than a stop. */
  lemma {:induction false} ServeBlocks(store: Store, s: string)
    ensures Serve(store, s).1 == Blocks <==> AllServed(Content(s))
    decreases |s|
  {
    hide NextLine, Content, Segs, Trim, ParseCall, After, Respond, Print, Serve, Handled, AllServed;
    ServeUnfolds(store, s, "");
    NextContent(s);
    if NextLine([], s).Found? {
      var lines, buffer, rest := Content(s), NextLine([], s).buffer, NextLine([], s).rest;
      SegsTrim(buffer);
      ParseSame(Trim(buffer), lines[0]);
      assert lines == [lines[0]] + Content(rest);
      ServedUnfold(lines[0], Content(rest));
      if ServesOn(lines[0]) {
        ServeBlocks(After(store, ParseCall(lines[0]).call), rest);
      }
    } else {
      NoneServed();
    }
  }

  lemma {:induction false} NoneServed()
    ensures AllServed([])
  {
  }

  /** How the client ends on a line after which it does not read on. */
  function EndAt(line: string): End {
    var segs := Segs(line);
    if segs != [] && segs[0] == "STOP" then Stopped
    else if |segs| >= 3 && segs[0] == "SCAN" then Panics
    else Failed
  }

  /** The first line that is not blank and not a call to go on after decides the end: a
      stop ends the client, a backward scan makes it panic, anything else is an error. */
  lemma {:induction false} ServeEnds(store: Store, s: string, n: nat)
    requires n < |Content(s)| && AllServed(Content(s)[..n]) && !ServesOn(Content(s)[n])
    ensures Serve(store, s).1 == EndAt(Content(s)[n])
    decreases n
  {
    hide NextLine, Content, Segs, Trim, After, Respond, Print, Serve, AllServed, Less;
    ServeUnfolds(store, s, "");
    NextContent(s);
    var lines, buffer, rest := Content(s), NextLine([], s).buffer, NextLine([], s).rest;
    SegsTrim(buffer);
    ParseSame(Trim(buffer), lines[0]);
    assert lines == [lines[0]] + Content(rest);
    if n > 0 {
      assert lines[..n] == [lines[0]] + Content(rest)[..n - 1];
      ServedUnfold(lines[0], Content(rest)[..n - 1]);
      ServeEnds(After(store, ParseCall(lines[0]).call), rest, n - 1);
    }
  }

  /** Safe calls that are not followed by a stop are such an input. */
  lemma {:induction false} NoStopBlocks(store: Store, calls: seq<KvCall>)
    requires SafeCalls(calls)
    ensures Serve(store, WriteAll(calls)).1 == Blocks
    decreases calls
  {
    hide Serve, Print, After, Respond, SafeCall, CallLine;
    if calls == [] {
      ServeUnfolds(store, "", "");
    } else {
      ServeOne(store, calls[0], WriteAll(calls[1..]));
      NoStopBlocks(After(store, calls[0]), calls[1..]);
    }
  }
}
