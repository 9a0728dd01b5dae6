/** The decision logic of `ssid_get`: which command a line is, what the
    console answers to it, and the whole prompt/answer dialogue up to the
    first `ssid` line, as functions of the receives. */
module Commands {
  import opened Wire
  import Hex
  import opened LineEditing

  const TcpPrefix: seq<byte> := [0x74, 0x63, 0x70, 0x20]         // "tcp "
  const UdpPrefix: seq<byte> := [0x75, 0x64, 0x70, 0x20]         // "udp "
  const SsidPrefix: seq<byte> := [0x73, 0x73, 0x69, 0x64, 0x20]  // "ssid "

  /** What an address that parses to 0 is replaced by. */
  const Broadcast: uint32 := 0xFFFF_FFFF

  /** A line as `ssid_get` tells it apart: the text after the prefix is kept. */
  datatype Command =
    | Tcp(address: seq<byte>)
    | Udp(address: seq<byte>)
    | Ssid(name: seq<byte>)
    | Unrecognized

  /** The line a recognised command is read from. */
  function Format(c: Command): seq<byte>
    requires !c.Unrecognized?
  {
    match c
    case Tcp(a) => TcpPrefix + a
    case Udp(a) => UdpPrefix + a
    case Ssid(n) => SsidPrefix + n
  }

  /** The `strncmp` chain: "tcp " first, then "udp ", then "ssid ". */
  function Classify(line: seq<byte>): (c: Command)
    ensures c.Tcp? <==> TcpPrefix <= line
    ensures c.Udp? <==> !(TcpPrefix <= line) && UdpPrefix <= line
    ensures c.Ssid? <==> !(TcpPrefix <= line) && !(UdpPrefix <= line) && SsidPrefix <= line
    ensures !c.Unrecognized? ==> Format(c) == line
  {
    if TcpPrefix <= line then Tcp(line[|TcpPrefix|..])
    else if UdpPrefix <= line then Udp(line[|UdpPrefix|..])
    else if SsidPrefix <= line then Ssid(line[|SsidPrefix|..])
    else Unrecognized
  }

  /** The three prefixes differ in their first byte, so at most one matches and
      the order of the tests never decides anything. */
  lemma PrefixesExclusive(line: seq<byte>)
    ensures !(TcpPrefix <= line && UdpPrefix <= line)
    ensures !(TcpPrefix <= line && SsidPrefix <= line)
    ensures !(UdpPrefix <= line && SsidPrefix <= line)
  {
    if |line| > 0 {
      assert TcpPrefix <= line ==> line[0] == 0x74;
      assert UdpPrefix <= line ==> line[0] == 0x75;
      assert SsidPrefix <= line ==> line[0] == 0x73;
    }
  }

  /** A line is an `ssid` command exactly when it starts with "ssid ". */
  lemma SsidExactlyOnPrefix(line: seq<byte>)
    ensures Classify(line).Ssid? <==> SsidPrefix <= line
    ensures Classify(line).Ssid? ==> Classify(line).name == line[|SsidPrefix|..]
  {
    PrefixesExclusive(line);
  }

  /** Reading back a formatted command gives the command again. */
  lemma ClassifyFormat(c: Command)
    requires !c.Unrecognized?
    ensures Classify(Format(c)) == c
  {
    var line := Format(c);
    PrefixesExclusive(line);
    match c
    case Tcp(a) => assert line[|TcpPrefix|..] == a;
    case Udp(a) => assert line[|UdpPrefix|..] == a;
    case Ssid(n) => assert line[|SsidPrefix|..] == n;
  }

  /** `remote_addr` after `inet_addr`: never 0, and any other value kept. */
  function Target(parsed: uint32): (t: uint32)
    ensures t != 0
    ensures parsed == 0 ==> t == Broadcast
    ensures parsed != 0 ==> t == parsed
  {
    if parsed == 0 then Broadcast else parsed
  }

  const CRLF: seq<byte> := [CR, LF]

  /** "\r\nMXCHIP_MFMODE> " */
  const Prompt: seq<byte> := Ascii("\r\nMXCHIP_MFMODE> ")

  /** The hint printed for a line that is no command. */
  const Usage: seq<byte> := Ascii("Please input as \"ssid <ssid_string>\"")

  /** `sprintf (cmd, "Use <protocol> send packet to 0x%X\r\n", addr)`: with a
      three-letter protocol it fits, with its NUL, the 64-byte `cmd_str` it is
      formatted into, and it holds no NUL, so `mf_printf` sends all of it. */
  function Report(protocol: seq<byte>, addr: uint32): (r: seq<byte>)
    ensures |protocol| == 3 ==> |r| + 1 <= CmdSize
    ensures NUL !in protocol ==> NUL !in r
  {
    assert Hex.Pow16(8) == 0x1_0000_0000 by {
      assert Hex.Pow16(4) == 0x1_0000;
    }
    var use := Ascii("Use ");
    var sendTo := Ascii(" send packet to 0x");
    var digits := Hex.Unpadded(addr as nat);
    assert |use| == 4 && NUL !in use;
    assert |sendTo| == 18 && NUL !in sendTo;
    Hex.UnpaddedWidth(addr as nat, 8);
    Hex.DigitsHaveNoNul(digits);
    use + protocol + sendTo + digits + CRLF
  }

  /** What the console sends after the echo of a line it has classified. */
  function Reply(c: Command, inet: seq<byte> -> uint32): (r: seq<byte>)
    ensures NUL !in r
    ensures !c.Unrecognized? <==> CRLF <= r
  {
    match c
    case Tcp(a) => CRLF + Report(Ascii("TCP"), Target(inet(a)))
    case Udp(a) => CRLF + Report(Ascii("UDP"), Target(inet(a)))
    case Ssid(_) => CRLF
    case Unrecognized => assert Usage[0] != CR; Usage
  }

  /** How `ssid_get` ends: the name it returns (None when the receives run out
      first), everything it sends, and the receives it leaves unread. */
  datatype Session = Session(ssid: Option<seq<byte>>, output: seq<byte>, rest: seq<Option<byte>>)

  /** The loop of `ssid_get`: prompt, read a line, classify the C string in the
      buffer, answer; only an `ssid` line ends the loop. `inet` stands for
      `inet_addr`. */
  function Dialogue(rx: seq<Option<byte>>, inet: seq<byte> -> uint32): (s: Session)
    ensures s.ssid.None? ==> s.rest == []
    ensures |s.rest| <= |rx|
    decreases |rx|
  {
    var r := ReadFrom(rx, [], KeptLimit);
    if r.outcome.Starved? then Session(None, Prompt + r.echo, [])
    else
      var c := Classify(CString(r.outcome.text));
      var out := Prompt + r.echo + Reply(c, inet);
      if c.Ssid? then Session(Some(c.name), out, r.rest)
      else
        var s := Dialogue(r.rest, inet);
        Session(s.ssid, out + s.output, s.rest)
  }

  /** `whole` is how a dialogue ends that has sent `sent` so far and will go
      on reading `rx`. */
  ghost predicate Continues(whole: Session, sent: seq<byte>, rx: seq<Option<byte>>, inet: seq<byte> -> uint32)
  {
    var d := Dialogue(rx, inet);
    whole == Session(d.ssid, sent + d.output, d.rest)
  }

  /** A round whose receives run out ends the dialogue with no name. */
  lemma ContinueStarved(whole: Session, sent: seq<byte>, rx: seq<Option<byte>>, inet: seq<byte> -> uint32)
    requires Continues(whole, sent, rx, inet)
    requires ReadFrom(rx, [], KeptLimit).outcome.Starved?
    ensures whole == Session(None, sent + Prompt + ReadFrom(rx, [], KeptLimit).echo, [])
  {
    Regroup(sent, Prompt, ReadFrom(rx, [], KeptLimit).echo);
  }

  /** A round reading an `ssid` line ends the dialogue with its name. */
  lemma ContinueSsid(whole: Session, sent: seq<byte>, rx: seq<Option<byte>>, inet: seq<byte> -> uint32)
    requires Continues(whole, sent, rx, inet)
    requires !ReadFrom(rx, [], KeptLimit).outcome.Starved?
    requires Classify(CString(ReadFrom(rx, [], KeptLimit).outcome.text)).Ssid?
    ensures var r := ReadFrom(rx, [], KeptLimit);
            var c := Classify(CString(r.outcome.text));
            whole == Session(Some(c.name), sent + Prompt + r.echo + Reply(c, inet), r.rest)
  {
    var r := ReadFrom(rx, [], KeptLimit);
    var c := Classify(CString(r.outcome.text));
    Regroup(sent, Prompt + r.echo, Reply(c, inet));
    Regroup(sent, Prompt, r.echo);
  }

  /** Any other round answers and leaves the rest of the dialogue to come. */
  lemma ContinueOther(whole: Session, sent: seq<byte>, rx: seq<Option<byte>>, inet: seq<byte> -> uint32)
    requires Continues(whole, sent, rx, inet)
    requires !ReadFrom(rx, [], KeptLimit).outcome.Starved?
    requires !Classify(CString(ReadFrom(rx, [], KeptLimit).outcome.text)).Ssid?
    ensures var r := ReadFrom(rx, [], KeptLimit);
            var c := Classify(CString(r.outcome.text));
            Continues(whole, sent + Prompt + r.echo + Reply(c, inet), r.rest, inet)
  {
    var r := ReadFrom(rx, [], KeptLimit);
    var c := Classify(CString(r.outcome.text));
    var out := Prompt + r.echo + Reply(c, inet);
    Regroup(sent, out, Dialogue(r.rest, inet).output);
    Regroup(sent, Prompt + r.echo, Reply(c, inet));
    Regroup(sent, Prompt, r.echo);
  }

  /** The C strings of the lines the console reads, in order, until the
      receives run out. */
  function Lines(rx: seq<Option<byte>>): seq<seq<byte>>
    decreases |rx|
  {
    var r := ReadFrom(rx, [], KeptLimit);
    if r.outcome.Starved? then [] else [CString(r.outcome.text)] + Lines(r.rest)
  }

  /** The position of the first line starting with "ssid ", if any. */
  function FirstSsidLine(lines: seq<seq<byte>>): (j: Option<nat>)
    ensures j.Some? ==> j.value < |lines| && SsidPrefix <= lines[j.value]
    ensures j.Some? ==> forall k :: 0 <= k < j.value ==> !(SsidPrefix <= lines[k])
    ensures j.None? ==> forall k :: 0 <= k < |lines| ==> !(SsidPrefix <= lines[k])
  {
    if lines == [] then None
    else if SsidPrefix <= lines[0] then Some(0)
    else
      match FirstSsidLine(lines[1..])
      case None => None
      case Some(j) => Some(j + 1)
  }

  /** `ssid_get` returns exactly when some line starts with "ssid ", and then
      returns what follows the prefix on the first such line: tcp, udp and
      unrecognised lines never end it. */
  lemma {:induction false} DialogueReturnsFirstSsid(rx: seq<Option<byte>>, inet: seq<byte> -> uint32)
    ensures var s := Dialogue(rx, inet);
            var ls := Lines(rx);
            var j := FirstSsidLine(ls);
            && (s.ssid.Some? <==> j.Some?)
            && (j.Some? ==> s.ssid.value == ls[j.value][|SsidPrefix|..])
    decreases |rx|
  {
    var r := ReadFrom(rx, [], KeptLimit);
    if !r.outcome.Starved? {
      var line := CString(r.outcome.text);
      SsidExactlyOnPrefix(line);
      var ls := Lines(rx);
      assert ls[0] == line && ls[1..] == Lines(r.rest);
      if !(SsidPrefix <= line) {
        DialogueReturnsFirstSsid(r.rest, inet);
      }
    }
  }

  /** One typed line, fitting the buffer and free of erases, terminators and
      NULs, is one round of the dialogue: prompt, echo, reply, and then either
      the end (an `ssid` line) or the rest of the dialogue. */
  lemma TypedRound(line: seq<byte>, tail: seq<Option<byte>>, inet: seq<byte> -> uint32)
    requires Ordinary(line) && |line| <= KeptLimit && NUL !in line
    ensures var s := Dialogue(Typed(line) + [Some(CR)] + tail, inet);
            var c := Classify(line);
            var out := Prompt + line + [CR] + Reply(c, inet);
            && (c.Ssid? ==> s == Session(Some(c.name), out, tail))
            && (!c.Ssid? ==> var t := Dialogue(tail, inet); s == Session(t.ssid, out + t.output, t.rest))
  {
    var rx := Typed(line) + [Some(CR)] + tail;
    var r := ReadFrom(rx, [], KeptLimit);
    TypedLine(line, tail);
    CStringWhole(line);
    assert r.outcome == Line(line) && r.echo == line + [CR] && r.rest == tail;
    assert CString(r.outcome.text) == line;
    assert Prompt + r.echo == Prompt + line + [CR];
  }

  /** A "udp <a>" line whose address `inet_addr` parses to 0, then an
      "ssid <n>" line: the console reports the broadcast address for the first,
      prompts again, and returns `n`. */
  lemma UdpZeroThenSsid(a: seq<byte>, n: seq<byte>, inet: seq<byte> -> uint32)
    requires Ordinary(a) && NUL !in a && |a| + 4 <= KeptLimit
    requires Ordinary(n) && NUL !in n && |n| + 5 <= KeptLimit
    requires inet(a) == 0
    ensures var rx := Typed(UdpPrefix + a) + [Some(CR)] + (Typed(SsidPrefix + n) + [Some(CR)]);
            var s := Dialogue(rx, inet);
            && s.ssid == Some(n)
            && s.output == (Prompt + (UdpPrefix + a) + [CR] + (CRLF + Report(Ascii("UDP"), Broadcast)))
                         + (Prompt + (SsidPrefix + n) + [CR] + CRLF)
            && s.rest == []
  {
    var udp := UdpPrefix + a;
    var ssid := SsidPrefix + n;
    OrdinaryConcat(UdpPrefix, a);
    OrdinaryConcat(SsidPrefix, n);
    var second := Typed(ssid) + [Some(CR)];
    ClassifyFormat(Ssid(n));
    assert second == Typed(ssid) + [Some(CR)] + [];
    TypedRound(ssid, [], inet);
    ClassifyFormat(Udp(a));
    TypedRound(udp, second, inet);
  }

  lemma OrdinaryConcat(p: seq<byte>, a: seq<byte>)
    requires Ordinary(p) && Ordinary(a) && NUL !in p && NUL !in a
    ensures Ordinary(p + a) && NUL !in p + a
  {
    forall k | 0 <= k < |p + a|
      ensures !IsErase((p + a)[k]) && !IsEnd((p + a)[k])
    {
      if k >= |p| {
        assert (p + a)[k] == a[k - |p|];
      }
    }
  }
}
