/** The factory-test console's state and the routines that change it: the
    64-byte `cmd_str` buffer, the MFG_TEST UART (what it will deliver and what
    has been sent on it), and the `_mfg_mode_` and `test_for_app` flags. */
module FactoryTest {
  import opened Wire
  import Hex
  import opened LineEditing
  import opened Commands
  import ImageCrc

  /** '#', the byte `mfg_test_for_app` looks for three times. */
  const HASH: byte := 0x23

  /** Size of the `str` buffer of `mxchip_mfg_test`. */
  const StrSize: nat := 128

  /** The outcome of `MicoUartRecv (MFG_TEST, cmd_str, 3, 100)`. */
  datatype Recv3 = TimedOut | Got(b0: byte, b1: byte, b2: byte)

  class FactoryConsole {
    /** `cmd_str`. */
    const cmd: array<byte>
    /** The receives the MFG_TEST UART will deliver, `None` for a read that timed out. */
    var rx: seq<Option<byte>>
    /** Everything sent on the MFG_TEST UART so far. */
    var tx: seq<byte>
    /** `_mfg_mode_`. */
    var mfgMode: int
    /** `test_for_app`. */
    var testForApp: int
    /** What `MicoShouldEnterMFGMode` answered at the last `init_mfg_mode`
        (false before the first). */
    ghost var enterSignal: bool

    ghost predicate Valid()
      reads this
    {
      && cmd.Length == CmdSize
      && mfgMode == (if enterSignal then 1 else 0)
      && (testForApp == 0 || testForApp == 1)
    }

    /** The console at start-up: the zero-initialised globals and a UART that
        will deliver `input`. */
    constructor(input: seq<Option<byte>>)
      ensures Valid() && fresh(cmd)
      ensures forall k :: 0 <= k < cmd.Length ==> cmd[k] == NUL
      ensures rx == input && tx == []
      ensures mfgMode == 0 && testForApp == 0 && !enterSignal
    {
      cmd := new byte[CmdSize](_ => NUL);
      rx := input;
      tx := [];
      mfgMode := 0;
      testForApp := 0;
      enterSignal := false;
    }

    /** `is_mfg_mode`: 1 exactly when the last `init_mfg_mode` was told to enter. */
    method IsMfgMode() returns (r: int)
      requires Valid()
      ensures (r == 1) <==> enterSignal
      ensures r == 0 || r == 1
    {
      r := mfgMode;
    }

    /** `init_mfg_mode`, with `shouldEnter` the answer of `MicoShouldEnterMFGMode`. */
    method InitMfgMode(shouldEnter: bool)
      requires Valid()
      modifies this`mfgMode, this`enterSignal
      ensures Valid()
      ensures enterSignal == shouldEnter
      ensures mfgMode == (if shouldEnter then 1 else 0)
    {
      if shouldEnter {
        mfgMode := 1;
      } else {
        mfgMode := 0;
      }
      enterSignal := shouldEnter;
    }

    /** `mfg_test_for_app`. `memoryOk` says whether `malloc (50)` succeeded and
        `recv` is what the 3-byte receive into `cmd_str` produced. */
    method MfgTestForApp(memoryOk: bool, recv: Recv3) returns (ok: bool)
      requires Valid()
      modifies this`testForApp, cmd
      ensures Valid()
      ensures ok <==> memoryOk && recv.Got? && recv.b0 == HASH && recv.b1 == HASH && recv.b2 == HASH
      ensures testForApp == (if ok then 1 else old(testForApp))
      ensures memoryOk && recv.Got? ==>
                cmd[..3] == [recv.b0, recv.b1, recv.b2] && cmd[3..] == old(cmd[3..])
      ensures !(memoryOk && recv.Got?) ==> cmd[..] == old(cmd[..])
    {
      if !memoryOk {
        return false;
      }
      match recv
      case TimedOut =>
        ok := false;
      case Got(b0, b1, b2) =>
        cmd[0], cmd[1], cmd[2] := b0, b1, b2;
        if cmd[0] == HASH && cmd[1] == HASH && cmd[2] == HASH {
          testForApp := 1;
          ok := true;
        } else {
          ok := false;
        }
    }

    /** `get_line`, with the overflow test corrected to `i >= sizeof (cmd_str)`.
        `starved` is set when the receives run out before the loop ends (the
        device would go on polling); `stores` lists the indices of `cmd_str`
        written, in order. Every store is an index of `cmd`, so none lands
        outside the 64-byte buffer. */
    method GetLine() returns (n: int, starved: bool, ghost stores: seq<nat>)
      requires Valid()
      modifies this`rx, this`tx, cmd
      ensures Valid()
      ensures var r := ReadFrom(old(rx), [], KeptLimit);
              && n == ReturnValue(r.outcome)
              && starved == r.outcome.Starved?
              && tx == old(tx) + r.echo
              && rx == r.rest
              && stores == r.writes
              && (r.outcome.Line? ==>
                    cmd[..|r.outcome.text|] == r.outcome.text && cmd[|r.outcome.text|] == NUL)
              && (r.outcome.Overflow? ==> cmd[..] == r.outcome.text)
    {
      forall k | 0 <= k < cmd.Length {
        cmd[k] := NUL;
      }
      var i := 0;
      ghost var kept: seq<byte> := [];
      ghost var r0 := ReadFrom(rx, [], KeptLimit);
      ghost var whole := Reading(r0.outcome, tx + r0.echo, r0.writes, r0.rest);
      stores := [];
      ResumeStart(rx, tx, KeptLimit);
      while true
        invariant Valid()
        invariant 0 <= i <= KeptLimit && |kept| == i && cmd[..i] == kept
        invariant Resumes(whole, tx, stores, rx, kept, KeptLimit)
        decreases |rx|
      {
        if rx == [] {
          ResumeStarved(whole, tx, stores, kept, KeptLimit);
          return 0, true, stores;
        }
        var got := rx[0];
        if got.None? {
          ResumeTimeout(whole, tx, stores, rx, kept, KeptLimit);
          rx := rx[1..];
          continue;
        }
        var b := got.value;
        ghost var tx0 := tx;
        var next, ended := Accept(b, i, kept);
        if ended {
          if IsEnd(b) {
            ResumeEnd(whole, tx0, stores, rx, kept, KeptLimit);
            stores := stores + [i] + [i];
            rx := rx[1..];
            return i, false, stores;
          }
          ResumeOverflow(whole, tx0, stores, rx, kept, KeptLimit);
          stores := stores + [i];
          rx := rx[1..];
          return 0, false, stores;
        }
        ResumeStep(whole, tx0, stores, rx, kept, KeptLimit);
        stores := stores + StoresOf(kept, got);
        kept := KeptAfter(kept, got);
        i := next;
        rx := rx[1..];
      }
    }

    /** The body of `get_line`'s loop for a received byte `b`, with `i`
        characters kept: store it where `p` points, echo it, then pop on an
        erase, end the line on a terminator, or push and give up once the
        buffer is full. */
    method Accept(b: byte, i: int, ghost kept: seq<byte>) returns (next: int, ended: bool)
      requires Valid() && 0 <= i <= KeptLimit && |kept| == i && cmd[..i] == kept
      modifies this`tx, cmd
      ensures Valid()
      ensures ended <==> IsEnd(b) || (!IsErase(b) && i + 1 > KeptLimit)
      ensures ended ==> tx == old(tx) + [b]
      ensures ended && IsEnd(b) ==> cmd[..i] == kept && cmd[i] == NUL
      ensures ended && !IsEnd(b) ==> cmd[..] == kept + [b]
      ensures !ended ==>
                && tx == old(tx) + EchoOf(kept, Some(b))
                && next == |KeptAfter(kept, Some(b))|
                && cmd[..next] == KeptAfter(kept, Some(b))
    {
      cmd[i] := b;
      tx := tx + [b];
      if IsErase(b) {
        next := i;
        if i > 0 {
          tx := tx + [SPACE, b];
          next := i - 1;
        }
        return next, false;
      }
      if IsEnd(b) {
        cmd[i] := NUL;
        return i, true;
      }
      next := i + 1;
      ended := next >= CmdSize;
    }

    /** `sprintf (cmd_str, ...)` of a text that, with its NUL, fits the buffer. */
    method FormatIntoCmd(s: seq<byte>)
      requires Valid() && |s| < CmdSize
      modifies cmd
      ensures Valid()
      ensures cmd[..|s|] == s && cmd[|s|] == NUL
      ensures cmd[|s| + 1..] == old(cmd[|s| + 1..])
    {
      forall k | 0 <= k < |s| {
        cmd[k] := s[k];
      }
      cmd[|s|] := NUL;
    }

    /** `ssid_get`, with `inet` standing for `inet_addr`. It returns the
        name after "ssid " on the first line carrying one, or None when the
        receives run out first. */
    method SsidGet(inet: seq<byte> -> uint32) returns (ssid: Option<seq<byte>>)
      requires Valid()
      modifies this`rx, this`tx, cmd
      ensures Valid()
      ensures var d := Dialogue(old(rx), inet);
              ssid == d.ssid && tx == old(tx) + d.output && rx == d.rest
    {
      ghost var d0 := Dialogue(rx, inet);
      ghost var whole := Session(d0.ssid, tx + d0.output, d0.rest);
      while true
        invariant Valid()
        invariant Continues(whole, tx, rx, inet)
        decreases |rx|
      {
        ghost var rx0, tx0 := rx, tx;
        ghost var r := ReadFrom(rx, [], KeptLimit);
        tx := tx + Prompt;
        var n: int, starved: bool;
        ghost var stores: seq<nat>;
        n, starved, stores := GetLine();
        if starved {
          ContinueStarved(whole, tx0, rx0, inet);
          return None;
        }
        var line := CString(cmd[..]);
        assert line == CString(r.outcome.text) by {
          if r.outcome.Line? {
            CStringAtTerminator(cmd[..], r.outcome.text);
          }
        }
        var c := Classify(line);
        Answer(c, inet);
        if c.Ssid? {
          ContinueSsid(whole, tx0, rx0, inet);
          return Some(c.name);
        }
        ContinueOther(whole, tx0, rx0, inet);
      }
    }

    /** What `ssid_get` sends after the echo of a classified line: for tcp and
        udp the parsed address, 0 replaced by the broadcast address, reported
        through `cmd_str`; for ssid a line break; otherwise the usage hint. */
    method Answer(c: Command, inet: seq<byte> -> uint32)
      requires Valid()
      modifies this`tx, cmd
      ensures Valid()
      ensures tx == old(tx) + Reply(c, inet)
    {
      match c
      case Tcp(a) =>
        tx := tx + CRLF;
        var remoteAddr := inet(a);
        if remoteAddr == 0 {
          remoteAddr := Broadcast;
        }
        Report(Ascii("TCP"), remoteAddr);
        Regroup(old(tx), CRLF, Commands.Report(Ascii("TCP"), remoteAddr));
      case Udp(a) =>
        tx := tx + CRLF;
        var remoteAddr := inet(a);
        if remoteAddr == 0 {
          remoteAddr := Broadcast;
        }
        Report(Ascii("UDP"), remoteAddr);
        Regroup(old(tx), CRLF, Commands.Report(Ascii("UDP"), remoteAddr));
      case Ssid(_) =>
        tx := tx + CRLF;
      case Unrecognized =>
        tx := tx + Usage;
    }

    /** The tcp/udp answer: formatted into `cmd_str`, then sent as a C string. */
    method Report(protocol: seq<byte>, addr: uint32)
      requires Valid() && |protocol| == 3 && NUL !in protocol
      modifies this`tx, cmd
      ensures Valid()
      ensures tx == old(tx) + Commands.Report(protocol, addr)
    {
      var s := Commands.Report(protocol, addr);
      FormatIntoCmd(s);
      CStringAtTerminator(cmd[..], s);
      CStringWhole(s);
      tx := tx + CString(cmd[..]);
    }

    /** The part of `mxchip_mfg_test` this model keeps: the allocation gate, the
        "App CRC: " line computed by `app_crc` into a zeroed 128-byte `str`,
        and the `test_for_app == 0` gate around `ssid_get` and `mfg_connect`.
        The result is the name handed to `mfg_connect`, None when it is not
        called. */
    method MxchipMfgTest<C(!new)>(memoryOk: bool, partitionLength: uint32, image: nat -> byte,
                            crc: ImageCrc.Crc16<C>, inet: seq<byte> -> uint32)
      returns (connectTo: Option<seq<byte>>)
      requires Valid()
      modifies this`rx, this`tx, cmd
      ensures Valid()
      ensures !memoryOk ==> connectTo.None? && tx == old(tx) && rx == old(rx)
      ensures memoryOk ==>
                var banner := CrcBanner(ImageCrc.AppDigest(crc, image, partitionLength));
                if testForApp == 0 then
                  var d := Dialogue(old(rx), inet);
                  connectTo == d.ssid && tx == old(tx) + banner + d.output && rx == d.rest
                else
                  connectTo.None? && tx == old(tx) + banner && rx == old(rx)
    {
      if !memoryOk {
        return None;
      }
      ghost var tx0 := tx;
      PrintAppCrc(partitionLength, image, crc);
      if testForApp == 0 {
        connectTo := SsidGet(inet);
        Regroup(tx0, CrcBanner(ImageCrc.AppDigest(crc, image, partitionLength)), Dialogue(old(rx), inet).output);
      } else {
        connectTo := None;
      }
    }

    /** The "App CRC: " line: `app_crc` renders the digest into a zeroed
        128-byte `str`, which is then sent as a C string, and a line break. */
    method PrintAppCrc<C(!new)>(partitionLength: uint32, image: nat -> byte, crc: ImageCrc.Crc16<C>)
      requires Valid()
      modifies this`tx
      ensures Valid()
      ensures tx == old(tx) + CrcBanner(ImageCrc.AppDigest(crc, image, partitionLength))
    {
      var banner := Ascii("App CRC: ");
      tx := tx + banner;
      var str := new byte[StrSize](_ => NUL);
      ghost var issued := ImageCrc.AppCrc(partitionLength, image, crc, str, str.Length);
      ghost var digits := Hex.Hex4(ImageCrc.AppDigest(crc, image, partitionLength));
      assert str[..|digits| + 1] == digits + [NUL];
      Hex.DigitsHaveNoNul(digits);
      CStringOfTerminated(str[..], digits);
      tx := tx + CString(str[..]);
      tx := tx + CRLF;
      Regroup(old(tx), banner, digits);
      Regroup(old(tx), banner + digits, CRLF);
    }
  }

  /** "App CRC: XXXX\r\n" for the digest: the label, four hex digits that
      read back as the digest, and CRLF. */
  function CrcBanner(digest: uint16): (r: seq<byte>)
    ensures |r| == 15 && r[..9] == Ascii("App CRC: ") && r[13..] == CRLF
    ensures Hex.AllDigits(r[9..13]) && Hex.Value(r[9..13]) == digest as nat
  {
    Ascii("App CRC: ") + Hex.Hex4(digest) + CRLF
  }
}
