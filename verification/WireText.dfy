/** The text interface, character by character. */
module WireText {
  import opened KvTypes
  import opened Text
  import opened Wire

  // ---------- what is printed ----------

  lemma {:induction false} BodyTwo(a: string, b: string)
    ensures Body([a, b]) == a + " " + b
  {
    assert [a, b][1..] == [b];
    assert a + (" " + b) == a + " " + b;
  }

  lemma {:induction false} BodyThree(a: string, b: string, c: string)
    ensures Body([a, b, c]) == a + " " + b + " " + c
  {
    assert [a, b, c][1..] == [b, c];
    BodyTwo(b, c);
    assert a + (" " + (b + " " + c)) == a + " " + b + " " + c;
  }

  /** The line of each call. */
  lemma {:induction false} CallText(k: string, v: string)
    ensures CallLine(Put(k, v)) == "PUT " + k + " " + v + "\n"
    ensures CallLine(Swap(k, v)) == "SWAP " + k + " " + v + "\n"
    ensures CallLine(Get(k)) == "GET " + k + "\n"
    ensures CallLine(Scan(k, v)) == "SCAN " + k + " " + v + "\n"
    ensures CallLine(Delete(k)) == "DELETE " + k + "\n"
    ensures CallLine(Stop) == "STOP\n"
  {
    BodyThree("PUT", k, v);
    BodyThree("SWAP", k, v);
    BodyThree("SCAN", k, v);
    BodyTwo("GET", k);
    BodyTwo("DELETE", k);
    hide Body;
    assert "PUT" + " " == "PUT " && "SWAP" + " " == "SWAP " && "SCAN" + " " == "SCAN ";
    assert "GET" + " " == "GET " && "DELETE" + " " == "DELETE ";
    assert Body(["STOP"]) == "STOP" by { BodyOne("STOP"); }
  }

  lemma {:induction false} BodyOne(a: string)
    ensures Body([a]) == a
  {
  }

  lemma {:induction false} OneLine(lines: seq<string>)
    requires |lines| == 1
    ensures Concat(lines) == lines[0]
  {
    assert lines[1..] == [];
    assert lines[0] + [] == lines[0];
  }

  /** The text of a put's or delete's answer, and of a swap's or get's. */
  lemma {:induction false} AnswerText(k: string, v: string)
    ensures Print(PutResp(k, true)) == "PUT " + k + " found\n"
    ensures Print(PutResp(k, false)) == "PUT " + k + " not_found\n"
    ensures Print(DeleteResp(k, true)) == "DELETE " + k + " found\n"
    ensures Print(DeleteResp(k, false)) == "DELETE " + k + " not_found\n"
    ensures Print(SwapResp(k, Some(v))) == "SWAP " + k + " " + v + "\n"
    ensures Print(SwapResp(k, None)) == "SWAP " + k + " null\n"
    ensures Print(GetResp(k, Some(v))) == "GET " + k + " " + v + "\n"
    ensures Print(GetResp(k, None)) == "GET " + k + " null\n"
    ensures Print(StopResp) == "STOP\n"
  {
    WordText("PUT", k, "found");
    WordText("PUT", k, "not_found");
    WordText("DELETE", k, "found");
    WordText("DELETE", k, "not_found");
    WordText("SWAP", k, v);
    WordText("SWAP", k, "null");
    WordText("GET", k, v);
    WordText("GET", k, "null");
    BodyOne("STOP");
    hide Body, Concat;
    assert "PUT" + " " == "PUT " && "DELETE" + " " == "DELETE " && "SWAP" + " " == "SWAP " && "GET" + " " == "GET ";
    forall r: KvResp | !r.ScanResp?
      ensures Print(r) == RespLines(r)[0]
    {
      OneLine(RespLines(r));
    }
    assert "PUT " + k + " " + "found" + "\n" == "PUT " + k + " found\n";
    assert "PUT " + k + " " + "not_found" + "\n" == "PUT " + k + " not_found\n";
    assert "DELETE " + k + " " + "found" + "\n" == "DELETE " + k + " found\n";
    assert "DELETE " + k + " " + "not_found" + "\n" == "DELETE " + k + " not_found\n";
    assert "SWAP " + k + " " + "null" + "\n" == "SWAP " + k + " null\n";
    assert "GET " + k + " " + "null" + "\n" == "GET " + k + " null\n";
  }

  lemma {:induction false} WordText(a: string, k: string, c: string)
    ensures Line([a, k, c]) == a + " " + k + " " + c + "\n"
  {
    BodyThree(a, k, c);
  }

  /** The lines between the first and the last of a scan. */
  function EntriesText(es: seq<(string, string)>): string {
    if es == [] then "" else "  " + es[0].0 + " " + es[0].1 + "\n" + EntriesText(es[1..])
  }

  lemma {:induction false} ScanText(lo: string, hi: string, es: seq<(string, string)>)
    ensures Print(ScanResp(lo, hi, es)) == "SCAN " + lo + " " + hi + " BEGIN\n" + EntriesText(es) + "SCAN END\n"
  {
    var head := Line(["SCAN", lo, hi, "BEGIN"]);
    var lines := EntryLines(es) + [Line(["SCAN", "END"])];
    assert ([head] + lines)[1..] == lines;
    EntriesPrint(es);
    assert head == "SCAN " + lo + " " + hi + " BEGIN\n" by {
      assert ["SCAN", lo, hi, "BEGIN"][1..] == [lo, hi, "BEGIN"];
      BodyThree(lo, hi, "BEGIN");
      assert "SCAN" + (" " + (lo + " " + hi + " " + "BEGIN")) + "\n" == "SCAN " + lo + " " + hi + " BEGIN\n";
    }
    assert head + (EntriesText(es) + "SCAN END\n") == head + EntriesText(es) + "SCAN END\n";
  }

  lemma {:induction false} EntriesPrint(es: seq<(string, string)>)
    ensures Concat(EntryLines(es) + [Line(["SCAN", "END"])]) == EntriesText(es) + "SCAN END\n"
  {
    hide Body;
    var closing := [Line(["SCAN", "END"])];
    if es == [] {
      BodyTwo("SCAN", "END");
      OneLine(closing);
      assert EntryLines(es) + closing == closing;
      assert "SCAN" + " " + "END" + "\n" == "SCAN END\n";
    } else {
      EntriesPrint(es[1..]);
      var lines := EntryLines(es) + closing;
      assert lines[1..] == EntryLines(es[1..]) + closing && lines[0] == EntryLine(es[0]);
      BodyTwo(es[0].0, es[0].1);
      var line := "  " + es[0].0 + " " + es[0].1 + "\n";
      assert EntryLine(es[0]) == line;
      assert line + (EntriesText(es[1..]) + "SCAN END\n") == line + EntriesText(es[1..]) + "SCAN END\n";
    }
  }

  // ---------- what is read ----------

  /** How the answer to a put with any third word is read. */
  lemma {:induction false} PutRead(k: string, w: string, rest: string)
    requires Token(k) && Token(w)
    ensures Decode("PUT " + k + " " + w + "\n" + rest) ==
      if w == "found" then Got(PutResp(k, true), rest)
      else if w == "not_found" then Got(PutResp(k, false), rest)
      else InvalidField(w)
  {
    ThreeWords("PUT", k, w, rest);
    assert "PUT" + " " == "PUT ";
    hide NextLine, Segs;
  }

  lemma {:induction false} DeleteRead(k: string, w: string, rest: string)
    requires Token(k) && Token(w)
    ensures Decode("DELETE " + k + " " + w + "\n" + rest) ==
      if w == "found" then Got(DeleteResp(k, true), rest)
      else if w == "not_found" then Got(DeleteResp(k, false), rest)
      else InvalidField(w)
  {
    ThreeWords("DELETE", k, w, rest);
    assert "DELETE" + " " == "DELETE ";
    hide NextLine, Segs;
  }

  /** How the answers to a swap and a get are read. */
  lemma {:induction false} ValueRead(k: string, w: string, rest: string)
    requires Token(k) && Token(w)
    ensures Decode("SWAP " + k + " " + w + "\n" + rest) == Got(SwapResp(k, if w == "null" then None else Some(w)), rest)
    ensures Decode("GET " + k + " " + w + "\n" + rest) == Got(GetResp(k, if w == "null" then None else Some(w)), rest)
  {
    ThreeWords("SWAP", k, w, rest);
    ThreeWords("GET", k, w, rest);
    assert "SWAP" + " " == "SWAP " && "GET" + " " == "GET ";
    hide NextLine, Segs;
  }

  lemma {:induction false} ThreeWords(a: string, k: string, w: string, rest: string)
    requires Token(k) && Token(w) && a in {"PUT", "DELETE", "SWAP", "GET"}
    ensures var r := NextLine([], a + " " + k + " " + w + "\n" + rest);
      r.Found? && r.rest == rest && Segs(r.buffer) == [a, k, w]
  {
    assert Token(a) by { KeywordsAreTokens(); }
    assert Tokens([a, k, w]);
    hide NextLine, Segs, Token, Tokens;
    WordText(a, k, w);
    DecodeLine("", [a, k, w], rest);
    assert "" + (Line([a, k, w]) + rest) == a + " " + k + " " + w + "\n" + rest;
  }

  /** Words are separated by spaces, tabs and line ends, and contain none of them. */
  lemma {:induction false} Separators(a: string, c: char, b: string)
    requires Token(a) && Token(b) && c in {' ', '\t', '\r', '\n'}
    ensures Segs(a + [c] + b) == [a, b]
    ensures forall i :: 0 <= i < |a| ==> a[i] !in {' ', '\t', '\r', '\n'}
  {
    assert a + [c] + b == a + ([c] + b);
    SegsToken(a, [c] + b);
    SegsBlank([c], b);
    SegsToken(b, []);
    assert b + [] == b && [b] + [] == [b];
  }

  /** The white space characters, one by one. */
  const WHITE_SPACE: set<int> := {
    0x9, 0xA, 0xB, 0xC, 0xD, 0x20, 0x85, 0xA0, 0x1680, 0x2000, 0x2001, 0x2002, 0x2003, 0x2004, 0x2005, 0x2006, 0x2007,
    0x2008, 0x2009, 0x200A, 0x2028, 0x2029, 0x202F, 0x205F, 0x3000
  }

  lemma {:induction false} SpaceExact(c: char)
    ensures IsSpace(c) <==> c as int in WHITE_SPACE
  {
  }
}
