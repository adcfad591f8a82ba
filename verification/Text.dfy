/** Whitespace, words and lines of the text interface. */
module Text {

  /** Unicode white space. */
  predicate IsSpace(c: char) {
    var n := c as int;
    || 9 <= n <= 13 || n == 32 || n == 0x85 || n == 0xA0 || n == 0x1680 || 0x2000 <= n <= 0x200A
    || n == 0x2028 || n == 0x2029 || n == 0x202F || n == 0x205F || n == 0x3000
  }

  predicate Blank(s: string) {
    forall i :: 0 <= i < |s| ==> IsSpace(s[i])
  }

  /** A non-empty word without white space. */
  predicate Token(s: string) {
    s != [] && forall i :: 0 <= i < |s| ==> !IsSpace(s[i])
  }

  function Word(s: string): (w: string)
    ensures |w| <= |s| && w == s[..|w|]
    ensures forall i :: 0 <= i < |w| ==> !IsSpace(w[i])
    ensures |w| < |s| ==> IsSpace(s[|w|])
  {
    if s == [] || IsSpace(s[0]) then [] else [s[0]] + Word(s[1..])
  }

  /** The words of a text. */
  function Segs(s: string): (segs: seq<string>)
    ensures forall i :: 0 <= i < |segs| ==> Token(segs[i])
    decreases |s|
  {
    if s == [] then []
    else if IsSpace(s[0]) then Segs(s[1..])
    else
      var w := Word(s);
      [w] + Segs(s[|w|..])
  }

  function TrimStart(s: string): string {
    if s != [] && IsSpace(s[0]) then TrimStart(s[1..]) else s
  }

  function TrimEnd(s: string): string {
    if s != [] && IsSpace(s[|s| - 1]) then TrimEnd(s[..|s| - 1]) else s
  }

  function Trim(s: string): string {
    TrimEnd(TrimStart(s))
  }

  /** Length of the first line, its line feed included. */
  function LineLen(s: string): (n: nat)
    ensures n <= |s| && (s != [] ==> n > 0)
  {
    if s == [] then 0 else if s[0] == '\n' then 1 else 1 + LineLen(s[1..])
  }

  // ---------- words ----------

  lemma {:induction false} SegsBlank(a: string, s: string)
    requires Blank(a)
    ensures Segs(a + s) == Segs(s)
  {
    if a == [] {
      assert a + s == s;
    } else {
      assert (a + s)[1..] == a[1..] + s;
      SegsBlank(a[1..], s);
    }
  }

  lemma {:induction false} WordIs(t: string, s: string)
    requires (forall i :: 0 <= i < |t| ==> !IsSpace(t[i])) && (s == [] || IsSpace(s[0]))
    ensures Word(t + s) == t
  {
    if t == [] {
      assert t + s == s;
    } else {
      assert (t + s)[1..] == t[1..] + s;
      WordIs(t[1..], s);
    }
  }

  lemma {:induction false} SegsToken(t: string, s: string)
    requires Token(t) && (s == [] || IsSpace(s[0]))
    ensures Segs(t + s) == [t] + Segs(s)
  {
    WordIs(t, s);
    assert (t + s)[|t|..] == s;
  }

  lemma {:induction false} SegsTrailing(s: string, b: string)
    requires Blank(b)
    ensures Segs(s + b) == Segs(s)
    decreases |s|
  {
    if s == [] {
      assert s + b == b && b + [] == b;
      SegsBlank(b, []);
    } else if IsSpace(s[0]) {
      assert (s + b)[1..] == s[1..] + b;
      SegsTrailing(s[1..], b);
    } else {
      var w := Word(s);
      var r := s[|w|..];
      assert s == w + r && s + b == w + (r + b);
      SegsToken(w, r);
      SegsToken(w, r + b);
      SegsTrailing(r, b);
    }
  }

  /** Trimming keeps the words. */
  lemma {:induction false} SegsTrim(s: string)
    ensures Segs(Trim(s)) == Segs(s)
  {
    SegsTrimStart(s);
    SegsTrimEnd(TrimStart(s));
  }

  lemma {:induction false} SegsTrimStart(s: string)
    ensures Segs(TrimStart(s)) == Segs(s)
  {
    if s != [] && IsSpace(s[0]) {
      SegsTrimStart(s[1..]);
    }
  }

  lemma {:induction false} SegsTrimEnd(s: string)
    ensures Segs(TrimEnd(s)) == Segs(s)
  {
    if s != [] && IsSpace(s[|s| - 1]) {
      var init, last := s[..|s| - 1], [s[|s| - 1]];
      assert s == init + last;
      SegsTrimEnd(init);
      SegsTrailing(init, last);
    }
  }

  // ---------- trimming ----------

  lemma {:induction false} TrimStartIs(a: string, m: string)
    requires Blank(a) && m != [] && !IsSpace(m[0])
    ensures TrimStart(a + m) == m
  {
    if a == [] {
      assert a + m == m;
    } else {
      assert (a + m)[1..] == a[1..] + m;
      TrimStartIs(a[1..], m);
    }
  }

  lemma {:induction false} TrimEndIs(m: string, b: string)
    requires Blank(b) && m != [] && !IsSpace(m[|m| - 1])
    ensures TrimEnd(m + b) == m
  {
    if b == [] {
      assert m + b == m;
    } else {
      assert (m + b)[..|m + b| - 1] == m + b[..|b| - 1];
      TrimEndIs(m, b[..|b| - 1]);
    }
  }

  lemma {:induction false} TrimIs(a: string, m: string, b: string)
    requires Blank(a) && Blank(b) && m != [] && !IsSpace(m[0]) && !IsSpace(m[|m| - 1])
    ensures Trim(a + m + b) == m
  {
    assert a + m + b == a + (m + b);
    TrimStartIs(a, m + b);
    TrimEndIs(m, b);
  }

  // ---------- lines ----------

  lemma {:induction false} LineLenIs(body: string, rest: string)
    requires '\n' !in body
    ensures LineLen(body + "\n" + rest) == |body| + 1
  {
    var s := body + "\n" + rest;
    if body == [] {
      assert s[0] == '\n';
    } else {
      assert s[1..] == body[1..] + "\n" + rest;
      LineLenIs(body[1..], rest);
    }
  }

  /** The words, single spaces between them and a line feed at the end. */
  function Line(toks: seq<string>): string
    requires toks != []
  {
    Body(toks) + "\n"
  }

  function Body(toks: seq<string>): string
    requires toks != []
  {
    if |toks| == 1 then toks[0] else toks[0] + (" " + Body(toks[1..]))
  }

  ghost predicate Tokens(toks: seq<string>) {
    forall i :: 0 <= i < |toks| ==> Token(toks[i])
  }

  /** Reading the words back. */
  lemma {:induction false} SegsBody(toks: seq<string>, b: string)
    requires toks != [] && Tokens(toks) && Blank(b)
    ensures Segs(Body(toks) + b) == toks
  {
    if |toks| == 1 {
      SegsToken(toks[0], b);
      SegsBlank(b, []);
      assert b + [] == b;
    } else {
      var tail := Body(toks[1..]) + b;
      assert Body(toks) + b == toks[0] + (" " + tail);
      SegsToken(toks[0], " " + tail);
      SegsBlank(" ", tail);
      SegsBody(toks[1..], b);
    }
  }

  lemma {:induction false} BodyShape(toks: seq<string>)
    requires toks != [] && Tokens(toks)
    ensures var m := Body(toks); m != [] && !IsSpace(m[0]) && !IsSpace(m[|m| - 1]) && '\n' !in m
  {
    if |toks| > 1 {
      BodyShape(toks[1..]);
    }
  }

  /** Two lists of words with the same text are the same. */
  lemma {:induction false} BodyInjective(a: seq<string>, b: seq<string>)
    requires a != [] && b != [] && Tokens(a) && Tokens(b) && Body(a) == Body(b)
    ensures a == b
  {
    SegsBody(a, "");
    SegsBody(b, "");
    assert Body(a) + "" == Body(a);
  }
}
