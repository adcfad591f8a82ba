/** A node's numbers, its place in a comma-separated server list, and its peers there. */
module NodeIndex {
  import opened KvTypes

  // ---------- splitting and joining ----------

  function Split(s: string, sep: char): (parts: seq<string>)
    ensures |parts| > 0
  {
    if s == [] then [""]
    else
      var rest := Split(s[1..], sep);
      if s[0] == sep then [""] + rest else [[s[0]] + rest[0]] + rest[1..]
  }

  function Join(parts: seq<string>, sep: char): string {
    if parts == [] then "" else if |parts| == 1 then parts[0] else parts[0] + ([sep] + Join(parts[1..], sep))
  }

  lemma {:induction false} SplitPart(p: string, s: string, sep: char)
    requires sep !in p
    ensures Split(p, sep) == [p]
    ensures Split(p + ([sep] + s), sep) == [p] + Split(s, sep)
  {
    if p == [] {
      assert p + ([sep] + s) == [sep] + s && ([sep] + s)[1..] == s;
    } else {
      assert (p + ([sep] + s))[1..] == p[1..] + ([sep] + s);
      SplitPart(p[1..], s, sep);
      assert [p[0]] + p[1..] == p;
    }
  }

  /** Splitting undoes joining when no part contains the separator. */
  lemma {:induction false} SplitJoin(parts: seq<string>, sep: char)
    requires parts != [] && forall i :: 0 <= i < |parts| ==> sep !in parts[i]
    ensures Split(Join(parts, sep), sep) == parts
  {
    if |parts| == 1 {
      SplitPart(parts[0], "", sep);
    } else {
      SplitPart(parts[0], Join(parts[1..], sep), sep);
      SplitJoin(parts[1..], sep);
    }
  }

  /** Joining undoes splitting, and no part contains the separator. */
  lemma {:induction false} JoinSplit(s: string, sep: char)
    ensures Join(Split(s, sep), sep) == s
    ensures forall i :: 0 <= i < |Split(s, sep)| ==> sep !in Split(s, sep)[i]
  {
    if s != [] {
      JoinSplit(s[1..], sep);
      var rest := Split(s[1..], sep);
      if s[0] == sep {
        assert ([""] + rest)[1..] == rest;
      } else {
        assert ([[s[0]] + rest[0]] + rest[1..])[1..] == rest[1..];
      }
      assert s == [s[0]] + s[1..];
    }
  }

  // ---------- node names ----------

  function Find(s: string, c: char): (i: int)
    ensures -1 <= i < |s|
    ensures i >= 0 ==> s[i] == c && c !in s[..i]
    ensures i == -1 ==> c !in s
  {
    if s == [] then -1 else if s[0] == c then 0
    else
      var i := Find(s[1..], c);
      if i == -1 then -1
      else
        assert s[..i + 1] == [s[0]] + s[1..][..i];
        i + 1
  }

  lemma {:induction false} FirstAt(s: string, c: char, d: nat)
    requires d < |s| && s[d] == c && c !in s[..d]
    ensures Find(s, c) == d
  {
    if d > 0 {
      assert s[..d] == [s[0]] + s[1..][..d - 1];
      FirstAt(s[1..], c, d - 1);
    }
  }

  function PartId(node: string): string {
    if node != [] && node[0] == 's' then
      var dot := Find(node, '.');
      if dot == -1 then node[1..] else node[1..dot]
    else "0"
  }

  function RepId(node: string): string {
    var dot := Find(node, '.');
    if dot == -1 then "0" else node[dot + 1..]
  }

  function Digit(c: char): Option<nat> {
    if '0' <= c <= '9' then Some((c as int) - ('0' as int)) else None
  }

  /** The number written by decimal digits. */
  function ToInt(s: string): Option<nat> {
    if s == [] then None
    else
      match Digit(s[|s| - 1])
      case None => None
      case Some(d) =>
        if |s| == 1 then Some(d)
        else match ToInt(s[..|s| - 1])
          case None => None
          case Some(n) => Some(10 * n + d)
  }

  function Decimal(n: nat): (s: string)
    ensures s != [] && forall i :: 0 <= i < |s| ==> '0' <= s[i] <= '9'
  {
    var c := (n % 10 + ('0' as int)) as char;
    if n < 10 then [c] else Decimal(n / 10) + [c]
  }

  lemma {:induction false} ToIntDecimal(n: nat)
    ensures ToInt(Decimal(n)) == Some(n)
  {
    if n >= 10 {
      ToIntDecimal(n / 10);
      var s := Decimal(n);
      assert s[..|s| - 1] == Decimal(n / 10);
    }
  }

  /** The name of replica `rid` of partition `pid`. */
  function NodeName(pid: nat, rid: nat): string {
    "s" + Decimal(pid) + "." + Decimal(rid)
  }

  /** The two numbers of a node's name are found again. */
  lemma {:induction false} NameRoundTrip(pid: nat, rid: nat)
    ensures ToInt(PartId(NodeName(pid, rid))) == Some(pid) && ToInt(RepId(NodeName(pid, rid))) == Some(rid)
  {
    var node, d := NodeName(pid, rid), 1 + |Decimal(pid)|;
    assert node[d] == '.';
    assert '.' !in node[..d] by {
      assert node[..d] == "s" + Decimal(pid);
    }
    var dot := Find(node, '.');
    FirstAt(node, '.', d);
    assert node[1..d] == Decimal(pid) && node[d + 1..] == Decimal(rid);
    ToIntDecimal(pid);
    ToIntDecimal(rid);
  }

  /** A name without a dot is replica 0, and one without the leading `s` partition 0. */
  lemma {:induction false} ShortNames(name: string, pid: nat)
    ensures '.' !in name ==> ToInt(RepId(name)) == Some(0)
    ensures (name == [] || name[0] != 's') ==> ToInt(PartId(name)) == Some(0)
    ensures ToInt(PartId("s" + Decimal(pid))) == Some(pid) && ToInt(RepId("s" + Decimal(pid))) == Some(0)
  {
    ToIntDecimal(0);
    ToIntDecimal(pid);
    assert Decimal(0) == "0";
    assert ("s" + Decimal(pid))[1..] == Decimal(pid);
    assert '.' !in "s" + Decimal(pid);
  }

  /** A number of two digits is read with the tens first. */
  lemma {:induction false} TwoDigits(a: nat, b: nat)
    requires 0 < a < 10 && b < 10
    ensures ToInt([('0' as int + a) as char, ('0' as int + b) as char]) == Some(10 * a + b)
    ensures Decimal(10 * a + b) == [('0' as int + a) as char, ('0' as int + b) as char]
  {
    var s := [('0' as int + a) as char, ('0' as int + b) as char];
    assert s[..1] == [('0' as int + a) as char];
    assert Decimal(a) == [('0' as int + a) as char];
  }

  // ---------- positions ----------

  /** Position of replica `rid` of partition `pid` in the server list. */
  function Position(pid: nat, rid: nat, rf: nat): nat {
    pid * rf + rid
  }

  /** Different nodes have different positions. */
  lemma {:induction false} PositionInjective(pid: nat, rid: nat, pid': nat, rid': nat, rf: nat)
    requires rid < rf && rid' < rf && Position(pid, rid, rf) == Position(pid', rid', rf)
    ensures pid == pid' && rid == rid'
  {
    if pid < pid' {
      StepUp(pid, pid', rf);
    } else if pid' < pid {
      StepUp(pid', pid, rf);
    }
  }

  lemma {:induction false} StepUp(a: nat, b: nat, rf: nat)
    requires a < b
    ensures a * rf + rf <= b * rf
  {
    if a + 1 < b {
      StepUp(a, b - 1, rf);
    }
    assert b * rf == (b - 1) * rf + rf;
  }

  /** Every position of a full list belongs to a node. */
  lemma {:induction false} PositionSurjective(i: nat, parts: nat, rf: nat) returns (pid: nat, rid: nat)
    requires i < parts * rf
    ensures pid < parts && rid < rf && Position(pid, rid, rf) == i
    decreases parts
  {
    assert parts > 0 && rf > 0;
    var last := parts - 1;
    assert parts * rf == last * rf + rf;
    if last * rf <= i {
      pid, rid := last, i - last * rf;
    } else {
      pid, rid := PositionSurjective(i, last, rf);
    }
  }

  // ---------- peers ----------

  /** Slicing that clamps its bounds to the list. */
  function Slice<T>(s: seq<T>, lo: nat, hi: nat): seq<T> {
    var h := if hi < |s| then hi else |s|;
    if lo < h then s[lo..h] else []
  }

  function Block(addrs: seq<string>, pid: nat, rf: nat): seq<string> {
    Slice(addrs, pid * rf, (pid + 1) * rf)
  }

  /** The joined addresses of a block without one of them. */
  function PeersIn(block: seq<string>, rid: nat): string {
    if rid >= |block| then ""
    else
      var peers := Join(block[..rid] + block[rid + 1..], ',');
      if peers == [] then "none" else peers
  }

  function PeersOf(servers: string, pid: nat, rid: nat, rf: nat): string {
    PeersIn(Block(Split(servers, ','), pid, rf), rid)
  }

  /** The addresses of a node's block without its own; none if it has no place there. */
  function Others(block: seq<string>, rid: nat): seq<string> {
    if rid < |block| then block[..rid] + block[rid + 1..] else []
  }

  lemma {:induction false} JoinedNone(parts: seq<string>)
    requires forall i :: 0 <= i < |parts| ==> ',' !in parts[i]
    ensures Join(parts, ',') == "" <==> parts == [] || parts == [""]
    ensures Join(parts, ',') == "none" <==> parts == ["none"]
  {
    SplitPart("none", "", ',');
    SplitPart("", "", ',');
    if parts != [] {
      SplitJoin(parts, ',');
    }
  }

  /** A block is the next `rf` addresses, or as many as are left. */
  lemma {:induction false} BlockExact(addrs: seq<string>, pid: nat, rf: nat)
    ensures var block, lo := Block(addrs, pid, rf), pid * rf;
      && |block| == (if |addrs| <= lo then 0 else if lo + rf <= |addrs| then rf else |addrs| - lo)
      && forall i :: 0 <= i < |block| ==> lo + i < |addrs| && block[i] == addrs[lo + i]
  {
    assert (pid + 1) * rf == pid * rf + rf;
  }

  lemma {:induction false} BlockParts(addrs: seq<string>, pid: nat, rid: nat, rf: nat)
    requires forall i :: 0 <= i < |addrs| ==> ',' !in addrs[i]
    ensures var others := Others(Block(addrs, pid, rf), rid); forall i :: 0 <= i < |others| ==> ',' !in others[i]
  {
    var lo := pid * rf;
    var block := Block(addrs, pid, rf);
    var others := Others(block, rid);
    assert forall i :: 0 <= i < |block| ==> block[i] == addrs[lo + i];
    forall i | 0 <= i < |others|
      ensures ',' !in others[i]
    {
      assert others[i] == if i < rid then block[i] else block[i + 1];
    }
  }

  /** For any server list at all, `none` is answered exactly to a node whose block holds
      nothing else, one empty address, or one address that is itself called `none`. */
  lemma {:induction false} NoneExact(servers: string, pid: nat, rid: nat, rf: nat)
    ensures var block := Block(Split(servers, ','), pid, rf); var others := Others(block, rid);
      && (PeersOf(servers, pid, rid, rf) == "none" <==>
          rid < |block| && (others == [] || others == [""] || others == ["none"]))
      && (PeersOf(servers, pid, rid, rf) == "" <==> |block| <= rid)
  {
    hide Split, Join, Block;
    JoinSplit(servers, ',');
    BlockParts(Split(servers, ','), pid, rid, rf);
    JoinedNone(Others(Block(Split(servers, ','), pid, rf), rid));
  }

  /** A node whose only peer is called `none` looks like a node that is alone. */
  lemma {:induction false} LonePeerNamedNone()
    ensures PeersOf(Join(["none", "a"], ','), 0, 1, 2) == "none" == PeersOf(Join(["a"], ','), 0, 0, 1)
  {
    SplitJoin(["none", "a"], ',');
    SplitJoin(["a"], ',');
    NoneExact(Join(["none", "a"], ','), 0, 1, 2);
    NoneExact(Join(["a"], ','), 0, 0, 1);
    assert Others(Block(["none", "a"], 0, 2), 1) == ["none"];
    assert Others(Block(["a"], 0, 1), 0) == [];
  }

  ghost predicate Addresses(addrs: seq<string>) {
    forall i :: 0 <= i < |addrs| ==> addrs[i] != [] && ',' !in addrs[i]
  }

  lemma {:induction false} PeersInExact(block: seq<string>, rid: nat)
    requires Addresses(block) && rid < |block|
    ensures PeersIn(block, rid) == "none" <==> |block| == 1 || (|block| == 2 && block[1 - rid] == "none")
    ensures |block| > 1 ==> Split(PeersIn(block, rid), ',') == block[..rid] + block[rid + 1..]
  {
    var others := block[..rid] + block[rid + 1..];
    if |block| > 1 {
      forall i | 0 <= i < |others|
        ensures others[i] != [] && ',' !in others[i]
      {
        assert others[i] == if i < rid then block[i] else block[i + 1];
      }
      SplitJoin(others, ',');
      SplitPart("none", "", ',');
      assert |block| == 2 ==> others == [block[1 - rid]];
    }
  }

  lemma {:induction false} FullBlock(addrs: seq<string>, parts: nat, pid: nat, rf: nat)
    requires |addrs| == parts * rf && pid < parts && rf > 0
    ensures pid * rf + rf <= |addrs| && Block(addrs, pid, rf) == addrs[pid * rf..pid * rf + rf]
  {
    assert (pid + 1) * rf == pid * rf + rf;
    if pid + 1 < parts {
      StepUp(pid + 1, parts, rf);
    }
  }

  /** For a full server list, splitting a node's peers gives the addresses of the other
      replicas of its partition, in order; `none` is answered exactly to a node that is
      alone in its partition or whose only peer is called `none`. */
  lemma {:induction false} PeersExact(addrs: seq<string>, parts: nat, pid: nat, rid: nat, rf: nat)
    requires Addresses(addrs) && |addrs| == parts * rf && pid < parts && rid < rf
    ensures var peers := PeersOf(Join(addrs, ','), pid, rid, rf);
      && (peers == "none" <==> rf == 1 || (rf == 2 && addrs[pid * 2 + 1 - rid] == "none"))
      && (rf > 1 ==>
            && |Split(peers, ',')| == rf - 1
            && forall n :: 0 <= n < rf - 1 ==>
                 var other := if n < rid then n else n + 1;
                 Position(pid, other, rf) < |addrs| && Split(peers, ',')[n] == addrs[Position(pid, other, rf)])
  {
    FullBlock(addrs, parts, pid, rf);
    SplitJoin(addrs, ',');
    hide Block, Split, Join, PeersIn;
    PeersAt(addrs, pid * rf, rid, rf);
  }

  /** The block that starts at position `lo`, without one of its addresses. */
  lemma {:induction false} PeersAt(addrs: seq<string>, lo: nat, rid: nat, rf: nat)
    requires Addresses(addrs) && rid < rf && lo + rf <= |addrs|
    ensures var peers := PeersIn(addrs[lo..lo + rf], rid);
      && (peers == "none" <==> rf == 1 || (rf == 2 && addrs[lo + 1 - rid] == "none"))
      && (rf > 1 ==>
            && |Split(peers, ',')| == rf - 1
            && forall n :: 0 <= n < rf - 1 ==> Split(peers, ',')[n] == addrs[lo + if n < rid then n else n + 1])
  {
    hide Split, Join, PeersIn;
    PeersInExact(addrs[lo..lo + rf], rid);
  }

  lemma {:induction false} PeerListed(addrs: seq<string>, parts: nat, pid: nat, a: nat, b: nat, rf: nat)
    requires Addresses(addrs) && |addrs| == parts * rf && pid < parts && a < rf && b < rf && a != b
    ensures Position(pid, b, rf) < |addrs|
    ensures addrs[Position(pid, b, rf)] in Split(PeersOf(Join(addrs, ','), pid, a, rf), ',')
  {
    hide Position, PeersOf, Split, Join, Addresses;
    PeersExact(addrs, parts, pid, a, rf);
    var list := Split(PeersOf(Join(addrs, ','), pid, a, rf), ',');
    var n := if b < a then b else b - 1;
    assert (if n < a then n else n + 1) == b;
    var address := list[n];
    assert address in list;
  }

  /** Peerhood is mutual: each of two replicas of a partition lists the other. */
  lemma {:induction false} PeersSymmetric(addrs: seq<string>, parts: nat, pid: nat, a: nat, b: nat, rf: nat)
    requires Addresses(addrs) && |addrs| == parts * rf && pid < parts && a < rf && b < rf && a != b
    ensures Position(pid, a, rf) < |addrs| && Position(pid, b, rf) < |addrs|
    ensures addrs[Position(pid, b, rf)] in Split(PeersOf(Join(addrs, ','), pid, a, rf), ',')
    ensures addrs[Position(pid, a, rf)] in Split(PeersOf(Join(addrs, ','), pid, b, rf), ',')
  {
    hide Position, PeersOf, Split, Join, Addresses;
    PeerListed(addrs, parts, pid, a, b, rf);
    PeerListed(addrs, parts, pid, b, a, rf);
  }
}
