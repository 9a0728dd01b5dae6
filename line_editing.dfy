/** What `get_line` does with the bytes the UART delivers, as pure functions:
    retry on timeout, echo, backspace/DEL as a stack pop that never goes below
    empty, CR/LF ending the line, and the overflow exit. `ReadFrom` is the
    step-by-step behaviour; `Edited`, `FirstEnd` and `Fits` are an independent
    statement of the same thing, and `ReadsEditedLine` connects the two. */
module LineEditing {
  import opened Wire

  /** `sizeof(cmd_str)`. */
  const CmdSize: nat := 64

  const BACKSPACE: byte := 0x08
  const DEL: byte := 0x7F
  const CR: byte := 0x0D
  const LF: byte := 0x0A
  const SPACE: byte := 0x20

  /** The most characters the loop keeps with its test `i > sizeof(cmd_str)`
      as written: 64, whose terminator then lands at index 64. */
  const KeptLimitAsWritten: nat := CmdSize
  /** The most characters the loop keeps with the test `i >= sizeof(cmd_str)`,
      which leaves room for the terminator inside the buffer. */
  const KeptLimit: nat := CmdSize - 1

  predicate IsErase(b: byte) { b == BACKSPACE || b == DEL }
  predicate IsEnd(b: byte) { b == CR || b == LF }

  /** The bytes one-byte receives delivered, in order; timeouts deliver nothing. */
  function Received(rx: seq<Option<byte>>): (bs: seq<byte>)
    ensures |bs| <= |rx|
  {
    if rx == [] then []
    else (if rx[0].Some? then [rx[0].value] else []) + Received(rx[1..])
  }

  lemma {:induction false} ReceivedAppend(a: seq<Option<byte>>, b: seq<Option<byte>>)
    ensures Received(a + b) == Received(a) + Received(b)
  {
    if a != [] {
      assert (a + b)[0] == a[0];
      assert (a + b)[1..] == a[1..] + b;
      ReceivedAppend(a[1..], b);
      assert Received(a + b) == (if a[0].Some? then [a[0].value] else []) + Received(a[1..] + b);
      assert Received(a) == (if a[0].Some? then [a[0].value] else []) + Received(a[1..]);
    } else {
      assert a + b == b;
    }
  }

  /** Reference meaning of line editing: every erase byte pops the last kept
      character, and does nothing when there is none; every other byte is kept. */
  function Edited(bs: seq<byte>): seq<byte>
  {
    if bs == [] then []
    else
      var e := Edited(bs[..|bs| - 1]);
      if IsErase(bs[|bs| - 1]) then (if e == [] then [] else e[..|e| - 1])
      else e + [bs[|bs| - 1]]
  }

  lemma EditedSnoc(pre: seq<byte>, b: byte)
    ensures Edited(pre + [b]) ==
      if IsErase(b) then (if Edited(pre) == [] then [] else Edited(pre)[..|Edited(pre)| - 1])
      else Edited(pre) + [b]
  {
    assert (pre + [b])[..|pre + [b]| - 1] == pre;
  }

  /** Position of the first CR or LF. */
  function FirstEnd(bs: seq<byte>): (j: Option<nat>)
    ensures j.Some? ==> j.value < |bs| && IsEnd(bs[j.value])
    ensures j.Some? ==> forall k :: 0 <= k < j.value ==> !IsEnd(bs[k])
    ensures j.None? ==> forall k :: 0 <= k < |bs| ==> !IsEnd(bs[k])
  {
    if bs == [] then None
    else if IsEnd(bs[0]) then Some(0)
    else match FirstEnd(bs[1..])
      case None => None
      case Some(j) => Some(j + 1)
  }

  /** The bytes the loop looks at before it can see a terminator. */
  function BeforeEnd(bs: seq<byte>): seq<byte>
  {
    match FirstEnd(bs)
    case None => bs
    case Some(j) => bs[..j]
  }

  /** After `pre`, editing each prefix of `bs` keeps at most `limit` characters. */
  ghost predicate Fits(pre: seq<byte>, bs: seq<byte>, limit: nat)
  {
    forall k :: 0 <= k <= |bs| ==> |Edited(pre + bs[..k])| <= limit
  }

  /** How one call of the loop ends. */
  datatype LineOutcome =
    | Line(text: seq<byte>)       // CR or LF seen; `text` is what is kept
    | Overflow(text: seq<byte>)   // the kept count passed the limit
    | Starved                     // the receives ran out first (the device would keep polling)

  /** The value `get_line` returns: the kept length on a line, 0 otherwise. */
  function ReturnValue(o: LineOutcome): (r: int)
    ensures r >= 0
    ensures r == 0 <==> !o.Line? || o.text == []
  {
    if o.Line? then |o.text| else 0
  }

  /** One run of the loop: how it ends, what it echoes, the buffer indices it
      stores to (in order), and the receives it leaves unread. */
  datatype Reading = Reading(outcome: LineOutcome, echo: seq<byte>, writes: seq<nat>, rest: seq<Option<byte>>)

  /** The buffer's kept text after a timed-out receive (unchanged), an erase
      byte (the last character popped, if any) or an ordinary byte (pushed). */
  function KeptAfter(kept: seq<byte>, got: Option<byte>): (k: seq<byte>)
    ensures |k| <= |kept| + 1
  {
    match got
    case None => kept
    case Some(b) =>
      if IsErase(b) then (if |kept| > 0 then kept[..|kept| - 1] else kept)
      else kept + [b]
  }

  /** What is sent for a receive that does not end the loop: nothing for a
      timeout, the byte itself, and a space and the byte again after an erase
      that popped something. */
  function EchoOf(kept: seq<byte>, got: Option<byte>): seq<byte>
  {
    match got
    case None => []
    case Some(b) => if IsErase(b) && |kept| > 0 then [b, SPACE, b] else [b]
  }

  /** The index a received byte is stored at: where `p` points. */
  function StoresOf(kept: seq<byte>, got: Option<byte>): seq<nat>
  {
    if got.None? then [] else [|kept|]
  }

  /** The loop of `get_line` with `kept` already in the buffer. Every received
      byte is stored at index `|kept|` (where `p` points) and echoed before it
      is looked at; a terminator is then overwritten by NUL at that index.
      (Erase and terminator bytes are disjoint, so testing for a terminator
      first decides the same as the source's erase-first order.) */
  function ReadFrom(rx: seq<Option<byte>>, kept: seq<byte>, limit: nat): (r: Reading)
    requires |kept| <= limit
    ensures r.outcome.Starved? ==> r.rest == []
    ensures !r.outcome.Starved? ==> |r.rest| < |rx|
    ensures r.outcome.Line? ==> |r.outcome.text| <= limit
    ensures r.outcome.Overflow? ==> |r.outcome.text| == limit + 1
    decreases |rx|
  {
    if rx == [] then Reading(Starved, [], [], [])
    else if rx[0].Some? && IsEnd(rx[0].value) then
      Reading(Line(kept), [rx[0].value], [|kept|, |kept|], rx[1..])
    else if rx[0].Some? && !IsErase(rx[0].value) && |kept| + 1 > limit then
      Reading(Overflow(kept + [rx[0].value]), [rx[0].value], [|kept|], rx[1..])
    else
      var r := ReadFrom(rx[1..], KeptAfter(kept, rx[0]), limit);
      Reading(r.outcome, EchoOf(kept, rx[0]) + r.echo, StoresOf(kept, rx[0]) + r.writes, r.rest)
  }

  /** Part of a run is done, having echoed `echoed` and stored at `stored`,
      with `kept` in the buffer and `rx` still to come: then the whole run
      is `whole`. This is the loop invariant of `get_line`. */
  ghost predicate Resumes(whole: Reading, echoed: seq<byte>, stored: seq<nat>,
                          rx: seq<Option<byte>>, kept: seq<byte>, limit: nat)
    requires |kept| <= limit
  {
    var r := ReadFrom(rx, kept, limit);
    whole == Reading(r.outcome, echoed + r.echo, stored + r.writes, r.rest)
  }

  /** At the start nothing is kept and `sent` is what went out before. */
  lemma ResumeStart(rx: seq<Option<byte>>, sent: seq<byte>, limit: nat)
    ensures var r := ReadFrom(rx, [], limit);
            Resumes(Reading(r.outcome, sent + r.echo, r.writes, r.rest), sent, [], rx, [], limit)
  {
    var r := ReadFrom(rx, [], limit);
    assert [] + r.writes == r.writes;
  }

  lemma ResumeStarved(whole: Reading, echoed: seq<byte>, stored: seq<nat>, kept: seq<byte>, limit: nat)
    requires |kept| <= limit && Resumes(whole, echoed, stored, [], kept, limit)
    ensures whole == Reading(Starved, echoed, stored, [])
  {
    assert echoed + [] == echoed && stored + [] == stored;
  }

  /** A timed-out receive changes nothing. */
  lemma ResumeTimeout(whole: Reading, echoed: seq<byte>, stored: seq<nat>,
                      rx: seq<Option<byte>>, kept: seq<byte>, limit: nat)
    requires |kept| <= limit && rx != [] && rx[0].None?
    requires Resumes(whole, echoed, stored, rx, kept, limit)
    ensures Resumes(whole, echoed, stored, rx[1..], kept, limit)
  {
    var r := ReadFrom(rx[1..], kept, limit);
    assert KeptAfter(kept, rx[0]) == kept;
    assert EchoOf(kept, rx[0]) + r.echo == r.echo;
    assert StoresOf(kept, rx[0]) + r.writes == r.writes;
  }

  /** A received byte that neither ends the line nor overflows is echoed,
      stored at the current index, and pushed or popped. */
  lemma ResumeStep(whole: Reading, echoed: seq<byte>, stored: seq<nat>,
                   rx: seq<Option<byte>>, kept: seq<byte>, limit: nat)
    requires |kept| <= limit && rx != [] && rx[0].Some?
    requires !IsEnd(rx[0].value) && (IsErase(rx[0].value) || |kept| + 1 <= limit)
    requires Resumes(whole, echoed, stored, rx, kept, limit)
    ensures |KeptAfter(kept, rx[0])| <= limit
    ensures Resumes(whole, echoed + EchoOf(kept, rx[0]), stored + StoresOf(kept, rx[0]),
                    rx[1..], KeptAfter(kept, rx[0]), limit)
  {
    var r' := ReadFrom(rx[1..], KeptAfter(kept, rx[0]), limit);
    Regroup(echoed, EchoOf(kept, rx[0]), r'.echo);
    Regroup(stored, StoresOf(kept, rx[0]), r'.writes);
  }

  /** A terminator ends the run with the kept text; it is stored and then
      overwritten by NUL at the same index. */
  lemma ResumeEnd(whole: Reading, echoed: seq<byte>, stored: seq<nat>,
                  rx: seq<Option<byte>>, kept: seq<byte>, limit: nat)
    requires |kept| <= limit && rx != [] && rx[0].Some? && IsEnd(rx[0].value)
    requires Resumes(whole, echoed, stored, rx, kept, limit)
    ensures whole == Reading(Line(kept), echoed + [rx[0].value], stored + [|kept|] + [|kept|], rx[1..])
  {
    assert stored + [|kept|, |kept|] == stored + [|kept|] + [|kept|];
  }

  /** An ordinary byte with no room left ends the run as an overflow. */
  lemma ResumeOverflow(whole: Reading, echoed: seq<byte>, stored: seq<nat>,
                       rx: seq<Option<byte>>, kept: seq<byte>, limit: nat)
    requires rx != [] && rx[0].Some? && !IsErase(rx[0].value) && !IsEnd(rx[0].value)
    requires |kept| <= limit < |kept| + 1
    requires Resumes(whole, echoed, stored, rx, kept, limit)
    ensures whole == Reading(Overflow(kept + [rx[0].value]), echoed + [rx[0].value], stored + [|kept|], rx[1..])
  {
  }

  /** A receive that neither ends the line nor overflows: the run goes on
      from the next receive with the kept text updated. */
  predicate Proceeds(rx: seq<Option<byte>>, kept: seq<byte>, limit: nat)
  {
    rx != [] && !(rx[0].Some? && (IsEnd(rx[0].value) || (!IsErase(rx[0].value) && |kept| + 1 > limit)))
  }

  lemma ReadStep(rx: seq<Option<byte>>, kept: seq<byte>, limit: nat)
    requires |kept| <= limit && Proceeds(rx, kept, limit)
    ensures |KeptAfter(kept, rx[0])| <= limit
    ensures var r := ReadFrom(rx[1..], KeptAfter(kept, rx[0]), limit);
            ReadFrom(rx, kept, limit)
              == Reading(r.outcome, EchoOf(kept, rx[0]) + r.echo, StoresOf(kept, rx[0]) + r.writes, r.rest)
  {
  }

  /** The loop reads the receives in order: what it leaves is a suffix. */
  lemma {:induction false} RestIsSuffix(rx: seq<Option<byte>>, kept: seq<byte>, limit: nat)
    requires |kept| <= limit
    ensures var r := ReadFrom(rx, kept, limit);
            |r.rest| <= |rx| && r.rest == rx[|rx| - |r.rest|..]
    decreases |rx|
  {
    if Proceeds(rx, kept, limit) {
      var t := rx[1..];
      ReadStep(rx, kept, limit);
      var r := ReadFrom(t, KeptAfter(kept, rx[0]), limit);
      RestIsSuffix(t, KeptAfter(kept, rx[0]), limit);
      assert t[|t| - |r.rest|..] == rx[|rx| - |r.rest|..];
    }
  }

  /** Every store the loop makes is at an index no greater than `limit`. */
  lemma {:induction false} WritesBounded(rx: seq<Option<byte>>, kept: seq<byte>, limit: nat)
    requires |kept| <= limit
    ensures forall w :: w in ReadFrom(rx, kept, limit).writes ==> w <= limit
    decreases |rx|
  {
    if Proceeds(rx, kept, limit) {
      ReadStep(rx, kept, limit);
      WritesBounded(rx[1..], KeptAfter(kept, rx[0]), limit);
    }
  }

  lemma FitsCons(pre: seq<byte>, b: byte, bs: seq<byte>, limit: nat)
    requires |Edited(pre)| <= limit
    ensures Fits(pre, [b] + bs, limit) <==> Fits(pre + [b], bs, limit)
  {
    if Fits(pre + [b], bs, limit) {
      FitsConsBack(pre, b, bs, limit);
    }
    if Fits(pre, [b] + bs, limit) {
      forall k | 0 <= k <= |bs|
        ensures |Edited((pre + [b]) + bs[..k])| <= limit
      {
        ConsPrefix(pre, b, bs, k);
      }
    }
  }

  lemma FitsConsBack(pre: seq<byte>, b: byte, bs: seq<byte>, limit: nat)
    requires |Edited(pre)| <= limit && Fits(pre + [b], bs, limit)
    ensures Fits(pre, [b] + bs, limit)
  {
    forall k | 0 <= k <= |[b] + bs|
      ensures |Edited(pre + ([b] + bs)[..k])| <= limit
    {
      if k == 0 {
        assert pre + ([b] + bs)[..0] == pre;
      } else {
        ConsPrefix(pre, b, bs, k - 1);
      }
    }
  }

  lemma ConsPrefix(pre: seq<byte>, b: byte, bs: seq<byte>, k: nat)
    requires k <= |bs|
    ensures pre + ([b] + bs)[..k + 1] == (pre + [b]) + bs[..k]
  {
    assert ([b] + bs)[..k + 1] == [b] + bs[..k];
  }

  /** `o` is the reference meaning of receiving `bs` after `pre`: a line
      exactly when a terminator arrives and no prefix before it overflows, the
      line being the input before the first terminator with erases applied as
      pops; an overflow exactly when some prefix before the terminator keeps
      too much. */
  ghost predicate Agrees(o: LineOutcome, pre: seq<byte>, bs: seq<byte>, limit: nat)
  {
    && (o.Line? <==> FirstEnd(bs).Some? && Fits(pre, BeforeEnd(bs), limit))
    && (o.Overflow? <==> !Fits(pre, BeforeEnd(bs), limit))
    && (o.Line? ==> o.text == Edited(pre + BeforeEnd(bs)))
  }

  /** The loop's outcome, with `Edited(pre)` kept, is the reference meaning
      of the bytes it receives. */
  ghost predicate ReadsAsEdited(rx: seq<Option<byte>>, pre: seq<byte>, limit: nat)
    requires |Edited(pre)| <= limit
  {
    Agrees(ReadFrom(rx, Edited(pre), limit).outcome, pre, Received(rx), limit)
  }

  lemma {:induction false} ReadsEditedLine(rx: seq<Option<byte>>, pre: seq<byte>, limit: nat)
    requires |Edited(pre)| <= limit
    ensures ReadsAsEdited(rx, pre, limit)
    decreases |rx|
  {
    if rx == [] {
      assert pre + [] == pre;
    } else if rx[0].None? {
      ReadsEditedLine(rx[1..], pre, limit);
      ReadsAfterTimeout(rx, pre, limit);
    } else if IsEnd(rx[0].value) {
      ReadsEnd(rx, pre, limit);
    } else if IsErase(rx[0].value) || |Edited(pre)| + 1 <= limit {
      EditedSnoc(pre, rx[0].value);
      ReadsEditedLine(rx[1..], pre + [rx[0].value], limit);
      ReadsAfterByte(rx, pre, limit);
    } else {
      ReadsOverflow(rx, pre, limit);
    }
  }

  lemma ReadsAfterTimeout(rx: seq<Option<byte>>, pre: seq<byte>, limit: nat)
    requires |Edited(pre)| <= limit && rx != [] && rx[0].None?
    requires ReadsAsEdited(rx[1..], pre, limit)
    ensures ReadsAsEdited(rx, pre, limit)
  {
    ReadStep(rx, Edited(pre), limit);
    assert KeptAfter(Edited(pre), rx[0]) == Edited(pre);
    assert Received(rx) == [] + Received(rx[1..]);
    assert [] + Received(rx[1..]) == Received(rx[1..]);
  }

  lemma ReadsEnd(rx: seq<Option<byte>>, pre: seq<byte>, limit: nat)
    requires |Edited(pre)| <= limit && rx != [] && rx[0].Some? && IsEnd(rx[0].value)
    ensures ReadsAsEdited(rx, pre, limit)
  {
    assert Received(rx) == [rx[0].value] + Received(rx[1..]);
    EndsAtOnce(pre, rx[0].value, Received(rx[1..]), limit);
  }

  lemma ReadsAfterByte(rx: seq<Option<byte>>, pre: seq<byte>, limit: nat)
    requires |Edited(pre)| <= limit && rx != [] && rx[0].Some? && !IsEnd(rx[0].value)
    requires IsErase(rx[0].value) || |Edited(pre)| + 1 <= limit
    requires |Edited(pre + [rx[0].value])| <= limit
    requires ReadsAsEdited(rx[1..], pre + [rx[0].value], limit)
    ensures ReadsAsEdited(rx, pre, limit)
  {
    var b := rx[0].value;
    ReadStep(rx, Edited(pre), limit);
    EditedSnoc(pre, b);
    assert KeptAfter(Edited(pre), rx[0]) == Edited(pre + [b]);
    assert Received(rx) == [b] + Received(rx[1..]);
    AgreesCons(ReadFrom(rx, Edited(pre), limit).outcome, pre, b, Received(rx[1..]), limit);
  }

  /** A byte that is no terminator, in front of the input, is the same as
      that byte appended to what came before. */
  lemma AgreesCons(o: LineOutcome, pre: seq<byte>, b: byte, bs: seq<byte>, limit: nat)
    requires !IsEnd(b) && |Edited(pre)| <= limit
    requires Agrees(o, pre + [b], bs, limit)
    ensures Agrees(o, pre, [b] + bs, limit)
  {
    BeforeEndCons(b, bs);
    FitsCons(pre, b, BeforeEnd(bs), limit);
    assert pre + ([b] + BeforeEnd(bs)) == (pre + [b]) + BeforeEnd(bs);
  }

  lemma ReadsOverflow(rx: seq<Option<byte>>, pre: seq<byte>, limit: nat)
    requires |Edited(pre)| <= limit && rx != [] && rx[0].Some?
    requires !IsEnd(rx[0].value) && !IsErase(rx[0].value) && |Edited(pre)| + 1 > limit
    ensures ReadsAsEdited(rx, pre, limit)
  {
    var b, bs' := rx[0].value, Received(rx[1..]);
    assert Received(rx) == [b] + bs';
    BeforeEndCons(b, bs');
    OverflowDoesNotFit(pre, b, BeforeEnd(bs'), limit);
  }

  /** A terminator first: nothing comes before it, and nothing overflows. */
  lemma EndsAtOnce(pre: seq<byte>, b: byte, bs: seq<byte>, limit: nat)
    requires IsEnd(b) && |Edited(pre)| <= limit
    ensures FirstEnd([b] + bs) == Some(0) && BeforeEnd([b] + bs) == []
    ensures Fits(pre, [], limit) && pre + [] == pre
  {
    assert pre + [][..0] == pre;
  }

  /** A byte that is no terminator is part of what comes before the first one. */
  lemma BeforeEndCons(b: byte, bs: seq<byte>)
    requires !IsEnd(b)
    ensures BeforeEnd([b] + bs) == [b] + BeforeEnd(bs)
    ensures FirstEnd([b] + bs).Some? <==> FirstEnd(bs).Some?
  {
    assert ([b] + bs)[1..] == bs;
    match FirstEnd(bs)
    case None =>
    case Some(j) => assert ([b] + bs)[..j + 1] == [b] + bs[..j];
  }

  /** Pushing a byte onto a full buffer already breaks the bound. */
  lemma OverflowDoesNotFit(pre: seq<byte>, b: byte, bs: seq<byte>, limit: nat)
    requires !IsErase(b) && |Edited(pre)| + 1 > limit
    ensures !Fits(pre, [b] + bs, limit)
  {
    EditedSnoc(pre, b);
    assert pre + ([b] + bs)[..1] == pre + [b];
  }

  /** The receives `bs` delivered one per read, with no timeouts. */
  function Typed(bs: seq<byte>): (rx: seq<Option<byte>>)
    ensures |rx| == |bs|
  {
    if bs == [] then [] else [Some(bs[0])] + Typed(bs[1..])
  }

  /** Timeouts are retried and change nothing: only the received bytes decide
      the outcome, the echo and the stores. */
  lemma {:induction false} TimeoutsChangeNothing(rx: seq<Option<byte>>, kept: seq<byte>, limit: nat)
    requires |kept| <= limit
    ensures var a := ReadFrom(rx, kept, limit);
            var b := ReadFrom(Typed(Received(rx)), kept, limit);
            a.outcome == b.outcome && a.echo == b.echo && a.writes == b.writes
    decreases |rx|
  {
    if rx != [] {
      var t := rx[1..];
      assert Received(rx) == (if rx[0].Some? then [rx[0].value] else []) + Received(t);
      if rx[0].Some? {
        var typed := Typed(Received(rx));
        assert typed[0] == rx[0] && typed[1..] == Typed(Received(t));
        if Proceeds(rx, kept, limit) {
          ReadStep(rx, kept, limit);
          ReadStep(typed, kept, limit);
          TimeoutsChangeNothing(t, KeptAfter(kept, rx[0]), limit);
        }
      } else {
        ReadStep(rx, kept, limit);
        assert KeptAfter(kept, rx[0]) == kept;
        assert ReadFrom(rx, kept, limit) == ReadFrom(t, kept, limit);
        assert Received(rx) == Received(t);
        TimeoutsChangeNothing(t, kept, limit);
      }
    }
  }

  /** The echo of receiving `bs` after `pre` was typed: every byte is echoed
      once, in order, before anything else about it is sent; a space and the
      erase byte again follow an erase byte exactly when the line edited so
      far is non-empty, and nothing else is sent. */
  ghost predicate EchoesInOrder(echo: seq<byte>, pre: seq<byte>, bs: seq<byte>)
    decreases |bs|
  {
    if bs == [] then echo == []
    else
      var n := if IsErase(bs[0]) && Edited(pre) != [] then 3 else 1;
      && |echo| >= n && echo[0] == bs[0]
      && (n == 3 ==> echo[1] == SPACE && echo[2] == bs[0])
      && EchoesInOrder(echo[n..], pre + [bs[0]], bs[1..])
  }

  /** What has been typed after one more receive: timeouts type nothing. */
  function Typing(pre: seq<byte>, x: Option<byte>): seq<byte>
  {
    if x.Some? then pre + [x.value] else pre
  }

  /** The loop's kept text follows the reference edit of what has been typed. */
  lemma KeptAfterEdited(pre: seq<byte>, x: Option<byte>)
    ensures KeptAfter(Edited(pre), x) == Edited(Typing(pre, x))
  {
    if x.Some? {
      EditedSnoc(pre, x.value);
    }
  }

  /** The loop's echo, started with `Edited(pre)` kept, is exactly the echo the
      bytes it consumed call for after `pre`. */
  lemma EchoesConsumedBytes(rx: seq<Option<byte>>, pre: seq<byte>, limit: nat)
    requires |Edited(pre)| <= limit
    ensures var r := ReadFrom(rx, Edited(pre), limit);
            EchoesInOrder(r.echo, pre, Received(rx[..|rx| - |r.rest|]))
  {
    EchoesAll(rx, pre, limit);
  }

  /** The conclusion of `EchoesConsumedBytes`, named so that its steps can pass it on. */
  ghost predicate EchoesConsumed(rx: seq<Option<byte>>, pre: seq<byte>, limit: nat)
    requires |Edited(pre)| <= limit
  {
    var r := ReadFrom(rx, Edited(pre), limit);
    EchoesInOrder(r.echo, pre, Received(rx[..|rx| - |r.rest|]))
  }

  /** `EchoesConsumedBytes` by induction on the receives. */
  lemma {:induction false} EchoesAll(rx: seq<Option<byte>>, pre: seq<byte>, limit: nat)
    requires |Edited(pre)| <= limit
    ensures EchoesConsumed(rx, pre, limit)
    decreases |rx|
  {
    if Proceeds(rx, Edited(pre), limit) {
      TypingFits(rx, pre, limit);
      EchoesAll(rx[1..], Typing(pre, rx[0]), limit);
      EchoesStep(rx, pre, limit);
    } else if rx != [] {
      EchoesStop(rx, pre, limit);
    }
  }

  /** A receive the loop goes on after leaves a kept text within the limit. */
  lemma TypingFits(rx: seq<Option<byte>>, pre: seq<byte>, limit: nat)
    requires |Edited(pre)| <= limit && Proceeds(rx, Edited(pre), limit)
    ensures |Edited(Typing(pre, rx[0]))| <= limit
  {
    ReadStep(rx, Edited(pre), limit);
    KeptAfterEdited(pre, rx[0]);
  }

  /** The inductive step of `EchoesConsumedBytes`: a receive the loop goes on after. */
  lemma EchoesStep(rx: seq<Option<byte>>, pre: seq<byte>, limit: nat)
    requires |Edited(pre)| <= limit && Proceeds(rx, Edited(pre), limit)
    requires |Edited(Typing(pre, rx[0]))| <= limit
    requires EchoesConsumed(rx[1..], Typing(pre, rx[0]), limit)
    ensures EchoesConsumed(rx, pre, limit)
  {
    ReadStep(rx, Edited(pre), limit);
    KeptAfterEdited(pre, rx[0]);
    var rt := ReadFrom(rx[1..], Edited(Typing(pre, rx[0])), limit);
    EchoesCombine(rx, pre, rt.rest, rt.echo);
  }

  /** The consumed receives of `rx`, when `restT` is left, are its first one
      followed by those its tail consumed; echoes join the same way. */
  lemma EchoesCombine(rx: seq<Option<byte>>, pre: seq<byte>, restT: seq<Option<byte>>, echoT: seq<byte>)
    requires rx != [] && |restT| < |rx|
    requires EchoesInOrder(echoT, Typing(pre, rx[0]), Received(rx[1..][..|rx[1..]| - |restT|]))
    ensures EchoesInOrder(EchoOf(Edited(pre), rx[0]) + echoT, pre, Received(rx[..|rx| - |restT|]))
  {
    EchoesJoin(pre, rx[0], echoT, Received(rx[1..][..|rx[1..]| - |restT|]));
    ConsumedSplit(rx, |restT|);
  }

  /** What one receive adds in front of the echo of what follows it. */
  lemma EchoesJoin(pre: seq<byte>, x: Option<byte>, echo: seq<byte>, bs: seq<byte>)
    requires EchoesInOrder(echo, Typing(pre, x), bs)
    ensures EchoesInOrder(EchoOf(Edited(pre), x) + echo, pre, (if x.Some? then [x.value] else []) + bs)
  {
    if x.Some? {
      EchoPrefix(pre, x.value, echo, bs);
    } else {
      assert EchoOf(Edited(pre), x) + echo == echo && [] + bs == bs;
    }
  }

  /** The last receive of a read: a line end or an overflowing byte, echoed alone. */
  lemma EchoesStop(rx: seq<Option<byte>>, pre: seq<byte>, limit: nat)
    requires |Edited(pre)| <= limit && rx != [] && !Proceeds(rx, Edited(pre), limit)
    ensures EchoesConsumed(rx, pre, limit)
  {
    var r := ReadFrom(rx, Edited(pre), limit);
    var b := rx[0].value;
    assert r.rest == rx[1..] && r.echo == [b] && !IsErase(b);
    ConsumedSplit(rx, |r.rest|);
    assert rx[1..][..|rx[1..]| - |r.rest|] == [];
    assert Received(rx[..|rx| - |r.rest|]) == [b];
    assert EchoesInOrder(r.echo[1..], pre + [b], []);
  }

  /** The receives consumed from `rx`, leaving `n` of them, are its first
      receive and then those consumed from the rest. */
  lemma ConsumedSplit(rx: seq<Option<byte>>, n: nat)
    requires n < |rx|
    ensures Received(rx[..|rx| - n])
         == (if rx[0].Some? then [rx[0].value] else []) + Received(rx[1..][..|rx[1..]| - n])
  {
    var tc := rx[1..][..|rx[1..]| - n];
    assert rx[..|rx| - n] == [rx[0]] + tc;
    ReceivedAppend([rx[0]], tc);
    assert Received([rx[0]]) == (if rx[0].Some? then [rx[0].value] else []) + Received([]);
  }

  /** One byte's echo in front of the echo of what follows it. */
  lemma EchoPrefix(pre: seq<byte>, b: byte, echo: seq<byte>, bs: seq<byte>)
    requires EchoesInOrder(echo, pre + [b], bs)
    ensures EchoesInOrder(EchoOf(Edited(pre), Some(b)) + echo, pre, [b] + bs)
  {
    var e := EchoOf(Edited(pre), Some(b)) + echo;
    assert ([b] + bs)[0] == b && ([b] + bs)[1..] == bs;
    if IsErase(b) && Edited(pre) != [] {
      assert e[3..] == echo;
    } else {
      assert e[1..] == echo;
    }
  }

  /** The indices `from`, `from + 1`, ..., `n` of them. */
  function Indices(from: nat, n: nat): (r: seq<nat>)
    ensures |r| == n && forall k :: 0 <= k < n ==> r[k] == from + k
    decreases n
  {
    if n == 0 then [] else [from] + Indices(from + 1, n - 1)
  }

  /** No byte of `bs` is an erase or a terminator. */
  predicate Ordinary(bs: seq<byte>) {
    forall k :: 0 <= k < |bs| ==> !IsErase(bs[k]) && !IsEnd(bs[k])
  }

  lemma OrdinaryTail(bs: seq<byte>)
    requires Ordinary(bs) && bs != []
    ensures !IsErase(bs[0]) && !IsEnd(bs[0]) && Ordinary(bs[1..])
  {
    forall k | 0 <= k < |bs| - 1
      ensures !IsErase(bs[1..][k]) && !IsEnd(bs[1..][k])
    {
      assert bs[1..][k] == bs[k + 1];
    }
  }

  /** Reading the ordinary bytes `bs`, typed one per receive before `tail`,
      echoes them, stores them at consecutive indices and pushes them all; what
      follows is the run over `tail` with `bs` kept. */
  ghost predicate PassesThrough(bs: seq<byte>, tail: seq<Option<byte>>, kept: seq<byte>, limit: nat)
    requires |kept| + |bs| <= limit
  {
    Passes(ReadFrom(Typed(bs) + tail, kept, limit), ReadFrom(tail, kept + bs, limit), bs, |kept|)
  }

  /** Reading `a` is reading `b` preceded by the bytes `bs` stored from index `from` on. */
  predicate Passes(a: Reading, b: Reading, bs: seq<byte>, from: nat)
  {
    && a.outcome == b.outcome && a.echo == bs + b.echo && a.rest == b.rest
    && a.writes == Indices(from, |bs|) + b.writes
  }

  lemma PassesCons(a: Reading, r1: Reading, b: Reading, bs: seq<byte>, from: nat)
    requires bs != [] && Passes(r1, b, bs[1..], from + 1)
    requires a == Reading(r1.outcome, [bs[0]] + r1.echo, [from] + r1.writes, r1.rest)
    ensures Passes(a, b, bs, from)
  {
    Regroup([bs[0]], bs[1..], b.echo);
    assert [bs[0]] + bs[1..] == bs;
    Regroup([from], Indices(from + 1, |bs| - 1), b.writes);
  }

  lemma {:induction false} TypedRun(bs: seq<byte>, tail: seq<Option<byte>>, kept: seq<byte>, limit: nat)
    requires Ordinary(bs)
    requires |kept| + |bs| <= limit
    ensures PassesThrough(bs, tail, kept, limit)
    decreases |bs|
  {
    if bs == [] {
      assert Typed(bs) + tail == tail;
      assert kept + bs == kept;
    } else {
      OrdinaryTail(bs);
      TypedRun(bs[1..], tail, kept + [bs[0]], limit);
      TypedRunStep(bs, tail, kept, limit);
    }
  }

  /** One more ordinary byte in front of a run that passes through. */
  lemma TypedRunStep(bs: seq<byte>, tail: seq<Option<byte>>, kept: seq<byte>, limit: nat)
    requires bs != [] && Ordinary(bs) && |kept| + |bs| <= limit
    requires PassesThrough(bs[1..], tail, kept + [bs[0]], limit)
    ensures PassesThrough(bs, tail, kept, limit)
  {
    var t := Typed(bs[1..]) + tail;
    var r1 := ReadFrom(t, kept + [bs[0]], limit);
    assert kept + [bs[0]] + bs[1..] == kept + bs;
    TypedCons(bs, tail);
    StepOrdinary(bs[0], t, kept, limit);
    PassesCons(ReadFrom(Typed(bs) + tail, kept, limit), r1, ReadFrom(tail, kept + bs, limit), bs, |kept|);
  }

  lemma TypedCons(bs: seq<byte>, tail: seq<Option<byte>>)
    requires bs != []
    ensures Typed(bs) + tail == [Some(bs[0])] + (Typed(bs[1..]) + tail)
  {
  }

  lemma StepOrdinary(b: byte, t: seq<Option<byte>>, kept: seq<byte>, limit: nat)
    requires !IsErase(b) && !IsEnd(b) && |kept| + 1 <= limit
    ensures var r := ReadFrom(t, kept + [b], limit);
            ReadFrom([Some(b)] + t, kept, limit) == Reading(r.outcome, [b] + r.echo, [|kept|] + r.writes, r.rest)
  {
    var rx := [Some(b)] + t;
    assert rx[0] == Some(b) && rx[1..] == t;
    assert KeptAfter(kept, rx[0]) == kept + [b];
    assert EchoOf(kept, rx[0]) == [b] && StoresOf(kept, rx[0]) == [|kept|];
  }

  /** A typed line of ordinary characters that fits, ended by CR: it comes
      back whole, echoed in full, and the receives after the CR are left unread. */
  lemma TypedLine(bs: seq<byte>, tail: seq<Option<byte>>)
    requires Ordinary(bs) && |bs| <= KeptLimit
    ensures var r := ReadFrom(Typed(bs) + [Some(CR)] + tail, [], KeptLimit);
            r.outcome == Line(bs) && r.echo == bs + [CR] && r.rest == tail
  {
    assert Typed(bs) + [Some(CR)] + tail == Typed(bs) + ([Some(CR)] + tail);
    TypedRun(bs, [Some(CR)] + tail, [], KeptLimit);
    assert [] + bs == bs;
    assert ([Some(CR)] + tail)[1..] == tail;
  }

  /** Sixty-four 'a' characters. */
  function Run64(): (s: seq<byte>)
    ensures |s| == CmdSize && forall k :: 0 <= k < |s| ==> s[k] == 0x61
  {
    seq(CmdSize, _ => 0x61)
  }

  /** With the test as written, a 64-character line ends with its NUL stored at
      index 64, and a 65th character is stored at index 64 before the loop gives
      up: both one past the end of the 64-byte buffer. */
  lemma AsWrittenStoresPastBuffer()
    ensures var r := ReadFrom(Typed(Run64()) + [Some(CR)], [], KeptLimitAsWritten);
            r.outcome == Line(Run64()) && ReturnValue(r.outcome) == CmdSize && CmdSize in r.writes
    ensures var r := ReadFrom(Typed(Run64() + [0x61]), [], KeptLimitAsWritten);
            r.outcome.Overflow? && CmdSize in r.writes
  {
    assert Ordinary(Run64());
    FullThenEnd(Run64(), KeptLimitAsWritten);
    FullThenByte(Run64(), 0x61, KeptLimitAsWritten);
  }

  /** A line of exactly `limit` ordinary bytes and a terminator: the line is
      kept whole and its terminator is stored at index `limit`. */
  lemma FullThenEnd(bs: seq<byte>, limit: nat)
    requires Ordinary(bs) && |bs| == limit
    ensures var r := ReadFrom(Typed(bs) + [Some(CR)], [], limit);
            r.outcome == Line(bs) && limit in r.writes
  {
    TypedRun(bs, [Some(CR)], [], limit);
    assert [] + bs == bs;
    var e := ReadFrom([Some(CR)], bs, limit);
    assert e == Reading(Line(bs), [CR], [limit, limit], []);
    var w := ReadFrom(Typed(bs) + [Some(CR)], [], limit).writes;
    assert w == Indices(0, limit) + [limit, limit];
    assert w[limit] == limit;
  }

  /** `limit` ordinary bytes and one more: the loop overflows, having stored
      the extra byte at index `limit`. */
  lemma FullThenByte(bs: seq<byte>, b: byte, limit: nat)
    requires Ordinary(bs) && |bs| == limit && !IsErase(b) && !IsEnd(b)
    ensures var r := ReadFrom(Typed(bs + [b]), [], limit);
            r.outcome.Overflow? && limit in r.writes
  {
    TypedAppend(bs, [b]);
    assert Typed([b]) == [Some(b)];
    TypedRun(bs, [Some(b)], [], limit);
    assert [] + bs == bs;
    var e := ReadFrom([Some(b)], bs, limit);
    assert e == Reading(Overflow(bs + [b]), [b], [limit], []);
    var w := ReadFrom(Typed(bs + [b]), [], limit).writes;
    assert w == Indices(0, limit) + [limit];
    assert w[limit] == limit;
  }

  lemma {:induction false} TypedAppend(a: seq<byte>, b: seq<byte>)
    ensures Typed(a + b) == Typed(a) + Typed(b)
  {
    if a != [] {
      assert (a + b)[1..] == a[1..] + b;
      assert Typed(a + b) == [Some(a[0])] + Typed(a[1..] + b);
      TypedAppend(a[1..], b);
      assert Typed(a) == [Some(a[0])] + Typed(a[1..]);
    } else {
      assert a + b == b;
    }
  }

  /** With the corrected test every store lands inside the 64-byte buffer,
      while a line of up to 63 characters still comes back whole. */
  lemma CorrectedStaysInBuffer(rx: seq<Option<byte>>)
    ensures forall w :: w in ReadFrom(rx, [], KeptLimit).writes ==> w < CmdSize
    ensures var bs := Received(rx);
            FirstEnd(bs).Some? && |BeforeEnd(bs)| <= KeptLimit ==>
              ReadFrom(rx, [], KeptLimit).outcome.Line?
  {
    WritesBounded(rx, [], KeptLimit);
    var bs := Received(rx);
    if FirstEnd(bs).Some? && |BeforeEnd(bs)| <= KeptLimit {
      forall k | 0 <= k <= |BeforeEnd(bs)|
        ensures |Edited([] + BeforeEnd(bs)[..k])| <= KeptLimit
      {
        EditedNoLonger(BeforeEnd(bs)[..k]);
        assert [] + BeforeEnd(bs)[..k] == BeforeEnd(bs)[..k];
      }
      ReadsEditedLine(rx, [], KeptLimit);
    }
  }

  /** Editing never lengthens the input. */
  lemma {:induction false} EditedNoLonger(bs: seq<byte>)
    ensures |Edited(bs)| <= |bs|
  {
    if bs != [] {
      EditedNoLonger(bs[..|bs| - 1]);
    }
  }

  /** The outcome after one receive that neither ends nor overflows the line
      is the outcome of the rest with the kept text updated. */
  lemma OutcomeStep(x: Option<byte>, t: seq<Option<byte>>, kept: seq<byte>, limit: nat)
    requires |kept| <= limit && Proceeds([x] + t, kept, limit)
    ensures |KeptAfter(kept, x)| <= limit
    ensures ReadFrom([x] + t, kept, limit).outcome == ReadFrom(t, KeptAfter(kept, x), limit).outcome
  {
    ReadStep([x] + t, kept, limit);
    assert ([x] + t)[0] == x && ([x] + t)[1..] == t;
  }

  /** The scenario "b a d BS c CR", with a timeout in the middle: the line is
      "bac" and 3 is returned. */
  lemma BackspaceScenario()
    ensures var rx := [Some(0x62), Some(0x61), None, Some(0x64), Some(BACKSPACE), Some(0x63), Some(CR)];
            var r := ReadFrom(rx, [], KeptLimit);
            r.outcome == Line([0x62, 0x61, 0x63]) && ReturnValue(r.outcome) == 3
  {
    var L := KeptLimit;
    var b, ba: seq<byte> := [0x62], [0x62, 0x61];
    var t3: seq<Option<byte>> := [Some(0x64), Some(BACKSPACE), Some(0x63), Some(CR)];
    var t2 := [None] + t3;
    var t1 := [Some(0x61 as byte)] + t2;
    var rx := [Some(0x62 as byte)] + t1;
    OutcomeStep(Some(0x62), t1, [], L);
    assert KeptAfter([], Some(0x62)) == b;
    OutcomeStep(Some(0x61), t2, b, L);
    assert KeptAfter(b, Some(0x61)) == ba;
    OutcomeStep(None, t3, ba, L);
    EraseScenario();
    assert rx == [Some(0x62), Some(0x61), None, Some(0x64), Some(BACKSPACE), Some(0x63), Some(CR)];
  }

  /** With "ba" kept, "d BS c CR" pops the "d" and ends the line "bac". */
  lemma EraseScenario()
    ensures ReadFrom([Some(0x64), Some(BACKSPACE), Some(0x63), Some(CR)], [0x62, 0x61], KeptLimit).outcome
         == Line([0x62, 0x61, 0x63])
  {
    var L := KeptLimit;
    var ba, bad, bac: seq<byte> := [0x62, 0x61], [0x62, 0x61, 0x64], [0x62, 0x61, 0x63];
    var t6: seq<Option<byte>> := [Some(CR)];
    var t5 := [Some(0x63 as byte)] + t6;
    var t4 := [Some(BACKSPACE)] + t5;
    var t3 := [Some(0x64 as byte)] + t4;
    OutcomeStep(Some(0x64), t4, ba, L);
    assert KeptAfter(ba, Some(0x64)) == bad;
    OutcomeStep(Some(BACKSPACE), t5, bad, L);
    assert KeptAfter(bad, Some(BACKSPACE)) == ba;
    OutcomeStep(Some(0x63), t6, ba, L);
    assert KeptAfter(ba, Some(0x63)) == bac;
    assert ReadFrom(t6, bac, L).outcome == Line(bac);
    assert t3 == [Some(0x64), Some(BACKSPACE), Some(0x63), Some(CR)];
  }
}
