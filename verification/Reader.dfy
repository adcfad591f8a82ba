/** The runner's reader of responses, working through a buffered input. */
module ResponseReader {
  import opened KvTypes
  import opened Text
  import opened Wire

  class Reader {
    var input: string

    constructor (s: string)
      ensures input == s
    {
      input := s;
    }

    /** Take the next line, its line feed included; nothing at the end of the input. */
    method ReadLine() returns (line: string)
      modifies this
      ensures line == old(input)[..LineLen(old(input))] && input == old(input)[LineLen(old(input))..]
    {
      var i := 0;
      while i < |input| && input[i] != '\n'
        modifies {}
        invariant 0 <= i <= |input|
        invariant LineLen(input) == i + LineLen(input[i..])
      {
        i := i + 1;
      }
      if i < |input| {
        i := i + 1;
      }
      line := input[..i];
      input := input[i..];
    }

    /** Read lines into one buffer until it is not blank. `None` stands for never
        returning, which is what happens at the end of the input. */
    method ReadNextLine() returns (r: Option<string>)
      modifies this
      ensures match NextLine([], old(input))
              case AtEnd => r == None && input == []
              case Found(buffer, rest) => r == Some(buffer) && input == rest
    {
      var buffer := "";
      while input != []
        invariant NextLine([], old(input)) == NextLine(buffer, input)
        decreases |input|
      {
        var line := ReadLine();
        buffer := buffer + line;
        if !Blank(buffer) {
          return Some(buffer);
        }
      }
      return None;
    }

    /** The entries of a scan, up to its closing line. */
    method ReadScanEntries() returns (r: Read<seq<(string, string)>>)
      modifies this
      ensures r == ReadEntries([], old(input)) && (r.Got? ==> input == r.rest)
    {
      var entries: seq<(string, string)> := [];
      while true
        invariant ReadEntries([], old(input)) == ReadEntries(entries, input)
        decreases |input|
      {
        var line := ReadNextLine();
        if line == None {
          return Hangs;
        }
        var buffer := line.value;
        if Trim(buffer) == "SCAN END" {
          return Got(entries, input);
        }
        var segs := Segs(buffer);
        if |segs| < 2 {
          return InvalidLine(buffer);
        }
        entries := entries + [(segs[0], segs[1])];
      }
    }

    /** One response, leaving the reader just after it. */
    method FromRead() returns (r: Read<KvResp>)
      modifies this
      ensures r == Decode(old(input)) && (r.Got? ==> input == r.rest)
    {
      hide NextLine, Segs, ReadEntries;
      var line := ReadNextLine();
      if line == None {
        return Hangs;
      }
      var buffer := line.value;
      var segs := Segs(buffer);
      if segs == [] {
        r := InvalidLine(buffer);
      } else if segs[0] == "PUT" {
        r := ReadFlag(segs, buffer, input, true);
      } else if segs[0] == "SWAP" {
        r := if |segs| < 3 then InvalidLine(buffer) else Got(SwapResp(segs[1], ParseValue(segs[2])), input);
      } else if segs[0] == "GET" {
        r := if |segs| < 3 then InvalidLine(buffer) else Got(GetResp(segs[1], ParseValue(segs[2])), input);
      } else if segs[0] == "SCAN" {
        if |segs| < 4 || segs[3] != "BEGIN" {
          return InvalidLine(buffer);
        }
        var body := ReadScanEntries();
        match body
        case Got(entries, rest) => r := Got(ScanResp(segs[1], segs[2], entries), rest);
        case InvalidLine(l) => r := InvalidLine(l);
        case InvalidField(f) => r := InvalidField(f);
        case Hangs => r := Hangs;
      } else if segs[0] == "DELETE" {
        r := ReadFlag(segs, buffer, input, false);
      } else if segs[0] == "STOP" {
        r := Got(StopResp, input);
      } else {
        r := InvalidLine(buffer);
      }
    }
  }
}
