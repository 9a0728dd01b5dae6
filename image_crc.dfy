/** `app_crc`: stream the application partition through a CRC-16 context in
    windows of at most 1024 bytes and render the digest as `%04X`. The CRC-16
    routines live outside this file, so the context is a type parameter and
    its three operations are supplied as functions; flash reads come from an
    oracle giving the partition's byte at each offset. */
module ImageCrc {
  import opened Wire
  import Hex

  /** Size of the `malloc (1024)` read buffer and so of every window. */
  const WindowSize: nat := 1024

  /** `int flash_len = partition_length`: a 32-bit unsigned length read as a
      signed 32-bit int (two's complement). */
  function FlashLength(partitionLength: uint32): (n: int)
    ensures partitionLength < 0x8000_0000 ==> n == partitionLength as int
    ensures partitionLength >= 0x8000_0000 ==> n < 0
  {
    if partitionLength < 0x8000_0000 then partitionLength as int
    else partitionLength as int - 0x1_0000_0000
  }

  /** One `MicoFlashRead`: `length` bytes starting at partition offset `offset`. */
  datatype Window = Window(offset: nat, length: nat)

  /** The reads the loop issues with `flash_addr == offset` and `flash_len == remaining`. */
  function WindowsFrom(offset: nat, remaining: int): (ws: seq<Window>)
    ensures ws == [] <==> remaining <= 0
    ensures forall k :: 0 <= k < |ws| ==> offset <= ws[k].offset && 1 <= ws[k].length <= WindowSize
    decreases if remaining <= 0 then 0 else remaining
  {
    if remaining <= 0 then []
    else
      var n := if remaining > WindowSize then WindowSize else remaining;
      [Window(offset, n)] + WindowsFrom(offset + n, remaining - n)
  }

  function Total(ws: seq<Window>): nat
  {
    if ws == [] then 0 else ws[0].length + Total(ws[1..])
  }

  /** The windows partition the region exactly: each holds 1 to 1024 bytes,
      all but the last hold 1024, each starts where the previous one ended, the
      first starts at the region's start, and their lengths add up to the
      region's length. A length of zero or less issues no read. */
  lemma WindowsPartition(offset: nat, remaining: int)
    ensures var ws := WindowsFrom(offset, remaining);
            && (ws == [] <==> remaining <= 0)
            && Total(ws) == (if remaining > 0 then remaining else 0)
            && (forall k :: 0 <= k < |ws| ==> 1 <= ws[k].length <= WindowSize)
            && (forall k :: 0 <= k < |ws| - 1 ==> ws[k].length == WindowSize)
            && (ws != [] ==> ws[0].offset == offset)
            && (forall k :: 0 <= k < |ws| - 1 ==> ws[k + 1].offset == ws[k].offset + ws[k].length)
  {
    WindowsTotal(offset, remaining);
    WindowsFullButLast(offset, remaining);
    assert FullButLast(WindowsFrom(offset, remaining));
    WindowsChained(offset, remaining);
  }

  lemma {:induction false} WindowsTotal(offset: nat, remaining: int)
    ensures Total(WindowsFrom(offset, remaining)) == (if remaining > 0 then remaining else 0)
    decreases if remaining <= 0 then 0 else remaining
  {
    if remaining > 0 {
      var n := if remaining > WindowSize then WindowSize else remaining;
      assert WindowsFrom(offset, remaining)[1..] == WindowsFrom(offset + n, remaining - n);
      WindowsTotal(offset + n, remaining - n);
    }
  }

  /** Every window but the last is a full 1024-byte window. */
  predicate FullButLast(ws: seq<Window>)
  {
    forall k :: 0 <= k < |ws| - 1 ==> ws[k].length == WindowSize
  }

  lemma {:induction false} WindowsFullButLast(offset: nat, remaining: int)
    ensures FullButLast(WindowsFrom(offset, remaining))
    decreases if remaining <= 0 then 0 else remaining
  {
    if remaining > 0 {
      var n := if remaining > WindowSize then WindowSize else remaining;
      var ws := WindowsFrom(offset, remaining);
      var tail := WindowsFrom(offset + n, remaining - n);
      assert ws[1..] == tail;
      WindowsFullButLast(offset + n, remaining - n);
      forall k | 0 <= k < |ws| - 1
        ensures ws[k].length == WindowSize
      {
        if k > 0 {
          assert ws[k] == tail[k - 1];
        } else {
          assert tail != [] && ws[0] == Window(offset, n);
        }
      }
    }
  }

  lemma {:induction false} WindowsChained(offset: nat, remaining: int)
    ensures var ws := WindowsFrom(offset, remaining);
            && (ws != [] ==> ws[0].offset == offset)
            && (forall k :: 0 <= k < |ws| - 1 ==> ws[k + 1].offset == ws[k].offset + ws[k].length)
    decreases if remaining <= 0 then 0 else remaining
  {
    if remaining > 0 {
      var n := if remaining > WindowSize then WindowSize else remaining;
      var ws := WindowsFrom(offset, remaining);
      var tail := WindowsFrom(offset + n, remaining - n);
      assert ws[1..] == tail;
      WindowsChained(offset + n, remaining - n);
      forall k | 0 <= k < |ws| - 1
        ensures ws[k + 1].offset == ws[k].offset + ws[k].length
      {
        if k > 0 {
          assert ws[k] == tail[k - 1] && ws[k + 1] == tail[k];
        }
      }
    }
  }

  /** The windows come in strictly increasing, non-overlapping order. */
  lemma WindowsIncreasing(offset: nat, remaining: int, j: nat, k: nat)
    requires j < k < |WindowsFrom(offset, remaining)|
    ensures var ws := WindowsFrom(offset, remaining);
            ws[j].offset + ws[j].length <= ws[k].offset
  {
    WindowsPartition(offset, remaining);
    Adjacent(WindowsFrom(offset, remaining), j, k);
  }

  lemma {:induction false} Adjacent(ws: seq<Window>, j: nat, k: nat)
    requires forall i :: 0 <= i < |ws| - 1 ==> ws[i + 1].offset == ws[i].offset + ws[i].length
    requires j < k < |ws|
    ensures ws[j].offset + ws[j].length <= ws[k].offset
    decreases k - j
  {
    if k > j + 1 {
      Adjacent(ws, j, k - 1);
      assert ws[k].offset == ws[k - 1].offset + ws[k - 1].length;
    }
  }

  /** The `n` bytes of the partition starting at `offset`. */
  function Bytes(image: nat -> byte, offset: nat, n: nat): (d: seq<byte>)
    ensures |d| == n
    ensures forall k :: 0 <= k < n ==> d[k] == image(offset + k)
  {
    seq(n, k requires 0 <= k < n => image(offset + k))
  }

  /** The bytes of one window of the partition. */
  function Data(image: nat -> byte, w: Window): seq<byte>
  {
    Bytes(image, w.offset, w.length)
  }

  /** The bytes of all windows, one after the other. */
  function Concat(image: nat -> byte, ws: seq<Window>): seq<byte>
  {
    if ws == [] then [] else Data(image, ws[0]) + Concat(image, ws[1..])
  }

  /** Reading the windows in order yields the region's bytes exactly: nothing
      skipped, nothing read twice, nothing past the end. */
  lemma {:induction false} WindowsCoverRegion(image: nat -> byte, offset: nat, remaining: int)
    ensures Concat(image, WindowsFrom(offset, remaining))
         == Bytes(image, offset, if remaining > 0 then remaining else 0)
    decreases if remaining <= 0 then 0 else remaining
  {
    if remaining > 0 {
      var n := if remaining > WindowSize then WindowSize else remaining;
      var ws := WindowsFrom(offset, remaining);
      assert ws[0] == Window(offset, n) && ws[1..] == WindowsFrom(offset + n, remaining - n);
      WindowsCoverRegion(image, offset + n, remaining - n);
      var rest := if remaining - n > 0 then remaining - n else 0;
      assert rest == remaining - n;
      assert Concat(image, ws) == Data(image, ws[0]) + Bytes(image, offset + n, rest);
      assert Data(image, ws[0]) + Bytes(image, offset + n, rest) == Bytes(image, offset, remaining);
    }
  }

  /** The three `CheckSumUtils` operations on a CRC-16 context of type `C`. */
  datatype Crc16<!C> = Crc16(init: C, update: (C, seq<byte>) -> C, final: C -> uint16)

  /** An update that processes its bytes one after the other, as a CRC does:
      feeding no bytes changes nothing, and feeding two pieces in turn is
      feeding them joined. */
  ghost predicate Streaming<C(!new)>(crc: Crc16<C>)
  {
    && (forall ctx: C :: crc.update(ctx, []) == ctx)
    && (forall ctx: C, a: seq<byte>, b: seq<byte> :: crc.update(crc.update(ctx, a), b) == crc.update(ctx, a + b))
  }

  /** `CRC16_Update` applied to the windows' bytes in the order given; for a
      streaming update, the same as one update with all their bytes. */
  function Feed<C(!new)>(crc: Crc16<C>, ctx: C, image: nat -> byte, ws: seq<Window>): (r: C)
    ensures Streaming(crc) ==> r == crc.update(ctx, Concat(image, ws))
  {
    if ws == [] then ctx else Feed(crc, crc.update(ctx, Data(image, ws[0])), image, ws[1..])
  }

  /** The digest `app_crc` computes for a partition of the given length; for a
      streaming update it is the CRC of the partition's first `flash_len`
      bytes, so the windowing does not show in it. */
  function AppDigest<C(!new)>(crc: Crc16<C>, image: nat -> byte, partitionLength: uint32): (d: uint16)
    ensures var n := FlashLength(partitionLength);
            Streaming(crc) ==> d == crc.final(crc.update(crc.init, Bytes(image, 0, if n > 0 then n else 0)))
  {
    WindowsCoverRegion(image, 0, FlashLength(partitionLength));
    crc.final(Feed(crc, crc.init, image, WindowsFrom(0, FlashLength(partitionLength))))
  }

  /** The bytes `snprintf (str, size, "%s", s)` stores: at most `size - 1`
      characters of `s` and a NUL, or nothing when `size` is 0. */
  function Snprintf(s: seq<byte>, size: nat): (w: seq<byte>)
    ensures |w| <= size
    ensures size > 0 ==> |w| > 0 && w[|w| - 1] == NUL
    ensures size > |s| ==> w == s + [NUL]
  {
    if size == 0 then []
    else if |s| < size then s + [NUL]
    else s[..size - 1] + [NUL]
  }

  /** `MicoFlashRead` of `len` bytes into `buf` from `flashAddr`, which it advances. */
  method FlashRead(image: nat -> byte, flashAddr: nat, buf: array<byte>, len: nat) returns (next: nat)
    requires len <= buf.Length
    modifies buf
    ensures buf[..len] == Data(image, Window(flashAddr, len))
    ensures buf[len..] == old(buf[len..])
    ensures next == flashAddr + len
  {
    forall k | 0 <= k < len {
      buf[k] := image(flashAddr + k);
    }
    next := flashAddr + len;
  }

  /** `app_crc (str, len)`: issues exactly the windows of the partition, feeds
      them to the CRC in read order, and stores the `%04X` digest in `str`. */
  method AppCrc<C(!new)>(partitionLength: uint32, image: nat -> byte, crc: Crc16<C>, str: array<byte>, len: nat)
    returns (ghost issued: seq<Window>)
    requires len <= str.Length
    modifies str
    ensures issued == WindowsFrom(0, FlashLength(partitionLength))
    ensures var w := Snprintf(Hex.Hex4(AppDigest(crc, image, partitionLength)), len);
            str[..|w|] == w && str[|w|..] == old(str[|w|..])
  {
    var digest;
    digest, issued := Digest(partitionLength, image, crc);
    Store(str, Snprintf(Hex.Hex4(digest), len));
  }

  /** The read loop of `app_crc` and `CRC16_Final`: the windows it reads, in
      order, are those of the partition, and the digest is theirs. */
  method Digest<C(!new)>(partitionLength: uint32, image: nat -> byte, crc: Crc16<C>)
    returns (digest: uint16, ghost issued: seq<Window>)
    ensures issued == WindowsFrom(0, FlashLength(partitionLength))
    ensures digest == AppDigest(crc, image, partitionLength)
  {
    var mfgbuf := new byte[WindowSize];
    var flashLen := FlashLength(partitionLength);
    var flashAddr: nat := 0;
    var ctx := crc.init;
    ghost var all := WindowsFrom(0, flashLen);
    issued := [];
    while flashLen > 0
      invariant Feeding(crc, image, ctx, issued, WindowsFrom(flashAddr, flashLen), all)
      decreases flashLen
    {
      var bufLen := if flashLen > WindowSize then WindowSize else flashLen;
      NextWindow(crc, image, ctx, issued, flashAddr, flashLen, all);
      issued := issued + [Window(flashAddr, bufLen)];
      flashLen := flashLen - bufLen;
      flashAddr, ctx := ReadAndUpdate(image, crc, ctx, flashAddr, mfgbuf, bufLen);
    }
    digest := crc.final(ctx);
    assert WindowsFrom(flashAddr, flashLen) == [];
    assert issued + [] == issued;
  }

  /** One pass of the loop body: `MicoFlashRead` into `buf`, then
      `CRC16_Update` with the bytes read. */
  method ReadAndUpdate<C>(image: nat -> byte, crc: Crc16<C>, ctx: C, flashAddr: nat, buf: array<byte>, len: nat)
    returns (next: nat, ctx': C)
    requires len <= buf.Length
    modifies buf
    ensures next == flashAddr + len
    ensures ctx' == crc.update(ctx, Data(image, Window(flashAddr, len)))
  {
    next := FlashRead(image, flashAddr, buf, len);
    ctx' := crc.update(ctx, buf[..len]);
  }

  /** Loop invariant of `app_crc`: `issued` were read and fed into `ctx`,
      `todo` are still to come, and together they are `all` the windows. */
  ghost predicate Feeding<C(!new)>(crc: Crc16<C>, image: nat -> byte, ctx: C, issued: seq<Window>, todo: seq<Window>, all: seq<Window>)
  {
    && issued + todo == all
    && Feed(crc, ctx, image, todo) == Feed(crc, crc.init, image, all)
  }

  /** Reading the next window moves it from the windows still to come to
      those issued, and feeds its bytes to the CRC. */
  lemma NextWindow<C(!new)>(crc: Crc16<C>, image: nat -> byte, ctx: C, issued: seq<Window>, offset: nat, remaining: int, all: seq<Window>)
    requires remaining > 0
    requires Feeding(crc, image, ctx, issued, WindowsFrom(offset, remaining), all)
    ensures var n := if remaining > WindowSize then WindowSize else remaining;
            var w := Window(offset, n);
            Feeding(crc, image, crc.update(ctx, Data(image, w)), issued + [w], WindowsFrom(offset + n, remaining - n), all)
  {
    var n := if remaining > WindowSize then WindowSize else remaining;
    var later := WindowsFrom(offset + n, remaining - n);
    assert WindowsFrom(offset, remaining) == [Window(offset, n)] + later;
    Regroup(issued, [Window(offset, n)], later);
  }

  /** Copies `w` to the front of `str`, leaving the rest alone. */
  method Store(str: array<byte>, w: seq<byte>)
    requires |w| <= str.Length
    modifies str
    ensures str[..|w|] == w && str[|w|..] == old(str[|w|..])
  {
    forall k | 0 <= k < |w| {
      str[k] := w[k];
    }
  }

  /** The scenario of a 2050-byte partition: reads of 1024, 1024 and 2 bytes,
      at offsets 0, 1024 and 2048. */
  lemma Windows2050()
    ensures WindowsFrom(0, 2050) == [Window(0, 1024), Window(1024, 1024), Window(2048, 2)]
  {
  }
}
