# MiCO factory-test console, modelled in Dafny

This project models the manufacturing-test console of the MiCO SDK
(`MiCO/system/system_factory_test.c`). Production-line tooling drives this
console over the MFG_TEST UART before the end-user application runs. The
model covers these parts of the console:

- **Mode flags.** `is_mfg_mode` / `init_mfg_mode` read and set the
  manufacturing-mode flag. `mfg_test_for_app` sets `test_for_app` when its
  one 3-byte receive delivers `###`.
- **Line reader.** `get_line` fills the 64-byte `cmd_str` one byte at a time.
  It retries on timeout and echoes every byte it receives. Backspace and DEL
  erase the last character and never go below empty. CR or LF ends the line.
  Too many characters trigger the overflow exit.
- **Command loop.** `ssid_get` prompts, reads a line and classifies it by the
  prefixes `tcp `, `udp ` and `ssid `, in that order. A zero address from
  `inet_addr` becomes broadcast. The loop reports the target of a `tcp`/`udp`
  line, prints a usage hint for any other line, and returns the name after
  `ssid `.
- **App CRC.** `app_crc` streams the application partition through the
  CRC-16 engine in windows of at most 1024 bytes, then formats the digest
  with `%04X` through `snprintf`.
- **Orchestration.** The part of `mxchip_mfg_test` that involves the pieces
  above: the allocation guard, the "App CRC" line, and the `test_for_app`
  gate in front of the command loop.

The files:

- `wire.dfy` defines bytes, fixed-width integers, `Option` and C-string
  reading.
- `hex.dfy` defines `%X` and `%04X` rendering, with a digit-string parser as
  their partner.
- `line_editing.dfy` holds `get_line` as pure functions. `ReadFrom` is the
  step-by-step behaviour. `Edited`, `FirstEnd` and `Fits` state the same
  behaviour independently: backspace works as a stack pop, the line ends at
  the first CR/LF, and the line must fit.
- `commands.dfy` holds command classification and the whole `ssid_get`
  dialogue (`Dialogue`) as functions of the received bytes.
- `image_crc.dfy` holds the window schedule of `app_crc` and the digest it
  computes, plus the imperative `app_crc` with its loop.
- `factory_test.dfy` holds the class `FactoryConsole`. Its fields are the
  file's static state: `cmd_str` as a 64-byte array, the two flags, and the
  UART's pending input and sent output as sequences. Its methods are the C
  functions with their loops. Each method is proved against the functions
  above.

The CRC-16 engine, `inet_addr` and `MicoShouldEnterMFGMode` are code outside
this file, so they enter the model as parameters. CRC-16 is a record of
init/update/final functions. The flash partition is a function from offset to
byte.

In three places the code does less than a reader might expect. The model
follows the code each time:

- A reader might expect a failed flash read to abort the checksum. `app_crc`
  ignores the return value of `MicoFlashRead`, so the model's flash read
  always delivers the partition's bytes.
- A reader might expect the line reader to stop before the buffer overflows.
  The test at line 114 lets it write one byte past `cmd_str`; see
  "## Findings". The model keeps the as-written behaviour as its own member
  and uses the corrected bound everywhere else.
- A reader might expect the caller never to read past the buffer after an
  overflow. `ssid_get` ignores `get_line`'s return value and reads `cmd_str`
  as a C string, whose terminator an overflowing line does not write. The
  model reads that string only up to the end of the 64-byte buffer.

## Model

| member | source | states |
|---|---|---|
| `FactoryTest.FactoryConsole.constructor` | SDK_MiCO_V2.5.0/SDK_MiCO_V2.5.0/MiCO/system/system_factory_test.c:50-53 | `cmd_str` is 64 zero bytes, both flags are 0, no output has been sent yet |
| `FactoryTest.FactoryConsole.IsMfgMode` | SDK_MiCO_V2.5.0/SDK_MiCO_V2.5.0/MiCO/system/system_factory_test.c:55-58 | returns 1 exactly when the last `init_mfg_mode` saw the enter-MFG signal, and 0 otherwise |
| `FactoryTest.FactoryConsole.InitMfgMode` | SDK_MiCO_V2.5.0/SDK_MiCO_V2.5.0/MiCO/system/system_factory_test.c:60-66 | the mode flag becomes 1 if the signal is present and 0 if not; nothing else changes |
| `FactoryTest.FactoryConsole.MfgTestForApp` | SDK_MiCO_V2.5.0/SDK_MiCO_V2.5.0/MiCO/system/system_factory_test.c:160-190 | returns true iff the allocation succeeded, the 3-byte receive succeeded and all three bytes are `#`; only then is `test_for_app` set to 1; a successful receive puts the three bytes into `cmd_str[0..3]` and leaves the rest alone |
| `LineEditing.ReadFrom` | SDK_MiCO_V2.5.0/SDK_MiCO_V2.5.0/MiCO/system/system_factory_test.c:92-118 | a finished read consumes at least one input event; running out of input consumes everything; a line keeps at most `limit` characters; an overflow holds exactly `limit + 1` |
| `LineEditing.ReadsEditedLine` | SDK_MiCO_V2.5.0/SDK_MiCO_V2.5.0/MiCO/system/system_factory_test.c:78-119 | the reader returns a line iff the received bytes contain CR/LF and every prefix before it fits; it overflows iff some prefix does not fit; the line is the bytes before the first CR/LF with backspace/DEL applied as a pop that never underflows |
| `LineEditing.TimeoutsChangeNothing` | SDK_MiCO_V2.5.0/SDK_MiCO_V2.5.0/MiCO/system/system_factory_test.c:93-94 | removing every timed-out receive leaves the outcome, the echo and the buffer writes unchanged |
| `LineEditing.EchoesConsumedBytes` | SDK_MiCO_V2.5.0/SDK_MiCO_V2.5.0/MiCO/system/system_factory_test.c:96-101 | everything sent is the consumed bytes, each echoed once and in arrival order; an erase byte is followed by a space and the erase byte again exactly when the line typed so far, after editing, is non-empty, and by nothing otherwise |
| `LineEditing.RestIsSuffix` | SDK_MiCO_V2.5.0/SDK_MiCO_V2.5.0/MiCO/system/system_factory_test.c:92-118 | the input left after a read is a suffix of the input before it, so bytes after the line's end stay for the next read |
| `LineEditing.WritesBounded` | SDK_MiCO_V2.5.0/SDK_MiCO_V2.5.0/MiCO/system/system_factory_test.c:96-114 | no buffer index written during a read exceeds the kept-character limit |
| `LineEditing.EditedNoLonger` | SDK_MiCO_V2.5.0/SDK_MiCO_V2.5.0/MiCO/system/system_factory_test.c:97-106 | applying backspace/DEL never makes a line longer than the bytes typed |
| `LineEditing.TypedLine` | SDK_MiCO_V2.5.0/SDK_MiCO_V2.5.0/MiCO/system/system_factory_test.c:107-113 | up to 63 ordinary characters followed by CR read back as exactly those characters, echoed with the CR, and the input after the CR is left over |
| `LineEditing.BackspaceScenario` | SDK_MiCO_V2.5.0/SDK_MiCO_V2.5.0/MiCO/system/system_factory_test.c:93-110 | `b`, `a`, a timeout, `d`, backspace, `c`, CR reads as the line `bac`, and `get_line` returns 3 |
| `LineEditing.AsWrittenStoresPastBuffer` | SDK_MiCO_V2.5.0/SDK_MiCO_V2.5.0/MiCO/system/system_factory_test.c:112-115 | with the test as written, 64 characters then CR store the terminator at index 64, and a 65th character is stored at index 64 |
| `LineEditing.FullThenEnd` | SDK_MiCO_V2.5.0/SDK_MiCO_V2.5.0/MiCO/system/system_factory_test.c:107-114 | when the limit is `n`, a full line of `n` characters then CR is accepted and writes index `n` |
| `LineEditing.FullThenByte` | SDK_MiCO_V2.5.0/SDK_MiCO_V2.5.0/MiCO/system/system_factory_test.c:112-115 | when the limit is `n`, an `n+1`-th ordinary character overflows after being written at index `n` |
| `LineEditing.ReturnValue` | SDK_MiCO_V2.5.0/SDK_MiCO_V2.5.0/MiCO/system/system_factory_test.c:107-118 | `get_line` returns a count that is never negative, and 0 exactly when the read did not end in a line or the line is empty |
| `LineEditing.CorrectedStaysInBuffer` | SDK_MiCO_V2.5.0/SDK_MiCO_V2.5.0/MiCO/system/system_factory_test.c:114 | with the corrected test every write index is below 64; input with a CR/LF and at most 63 bytes before it always reads as a line |
| `FactoryTest.FactoryConsole.GetLine` | SDK_MiCO_V2.5.0/SDK_MiCO_V2.5.0/MiCO/system/system_factory_test.c:78-119 | the loop over the UART and `cmd_str` does what `ReadFrom` says: same return value, same echo, same remaining input, same write indices; a line leaves its text then NUL in `cmd_str`, and an overflow leaves 64 kept bytes |
| `FactoryTest.FactoryConsole.Accept` | SDK_MiCO_V2.5.0/SDK_MiCO_V2.5.0/MiCO/system/system_factory_test.c:96-115 | one received byte: the loop ends iff the byte is CR/LF or a character that does not fit; otherwise the echo and the kept prefix of `cmd_str` advance as `EchoOf`/`KeptAfter` say |
| `Commands.Classify` | SDK_MiCO_V2.5.0/SDK_MiCO_V2.5.0/MiCO/system/system_factory_test.c:136-156 | `tcp ` wins; `udp ` only without `tcp `; `ssid ` only without either; the recognised command formats back to the line |
| `Commands.PrefixesExclusive` | SDK_MiCO_V2.5.0/SDK_MiCO_V2.5.0/MiCO/system/system_factory_test.c:136-150 | no line starts with two of the three command prefixes, so the order of the tests does not matter |
| `Commands.SsidExactlyOnPrefix` | SDK_MiCO_V2.5.0/SDK_MiCO_V2.5.0/MiCO/system/system_factory_test.c:150-152 | a line is an `ssid` command iff it starts with `ssid `, and the name is everything after those five bytes |
| `Commands.ClassifyFormat` | SDK_MiCO_V2.5.0/SDK_MiCO_V2.5.0/MiCO/system/system_factory_test.c:136-152 | formatting a recognised command and classifying the result gives the command back |
| `Commands.Target` | SDK_MiCO_V2.5.0/SDK_MiCO_V2.5.0/MiCO/system/system_factory_test.c:138-140 | a parsed address of 0 becomes broadcast 0xFFFFFFFF; any other address is kept; the result is never 0 |
| `Commands.Report` | SDK_MiCO_V2.5.0/SDK_MiCO_V2.5.0/MiCO/system/system_factory_test.c:141-148 | the `Use TCP/UDP send packet to 0x%X\r\n` report and its terminator fit in the 64-byte `cmd_str` for every address, and the report holds no NUL, so `mf_printf` sends all of it |
| `Commands.Reply` | SDK_MiCO_V2.5.0/SDK_MiCO_V2.5.0/MiCO/system/system_factory_test.c:137-155 | the reply holds no NUL, and it starts with CRLF exactly when the line is a `tcp`, `udp` or `ssid` command |
| `Commands.Dialogue` | SDK_MiCO_V2.5.0/SDK_MiCO_V2.5.0/MiCO/system/system_factory_test.c:132-157 | the dialogue ends without a name only when the input runs out, and never uses more input than it is given |
| `Commands.FirstSsidLine` | SDK_MiCO_V2.5.0/SDK_MiCO_V2.5.0/MiCO/system/system_factory_test.c:150-152 | finds the first line with the `ssid ` prefix, or reports that no line has it |
| `Commands.DialogueReturnsFirstSsid` | SDK_MiCO_V2.5.0/SDK_MiCO_V2.5.0/MiCO/system/system_factory_test.c:132-157 | the dialogue returns a name iff some read line starts with `ssid `, and the name is the rest of the first such line |
| `Commands.TypedRound` | SDK_MiCO_V2.5.0/SDK_MiCO_V2.5.0/MiCO/system/system_factory_test.c:133-156 | one typed line: prompt, echo and reply are sent; an `ssid` line ends the dialogue with its name, and any other line continues on the remaining input |
| `Commands.UdpZeroThenSsid` | SDK_MiCO_V2.5.0/SDK_MiCO_V2.5.0/MiCO/system/system_factory_test.c:143-152 | `udp <a>` with `inet_addr(a) == 0` reports broadcast; a following `ssid <n>` returns `n`; the exact output is stated |
| `Commands.ContinueOther` | SDK_MiCO_V2.5.0/SDK_MiCO_V2.5.0/MiCO/system/system_factory_test.c:136-156 | after a round whose line is not an `ssid` command, the dialogue continues from the remaining input with that round's output already sent |
| `Commands.ContinueSsid` | SDK_MiCO_V2.5.0/SDK_MiCO_V2.5.0/MiCO/system/system_factory_test.c:150-152 | a round whose line is an `ssid` command ends the dialogue with that name and that round's output |
| `FactoryTest.FactoryConsole.SsidGet` | SDK_MiCO_V2.5.0/SDK_MiCO_V2.5.0/MiCO/system/system_factory_test.c:127-158 | the loop over prompt, `get_line` and the reply returns what `Dialogue` says, sends its output and leaves its remaining input |
| `FactoryTest.FactoryConsole.Answer` | SDK_MiCO_V2.5.0/SDK_MiCO_V2.5.0/MiCO/system/system_factory_test.c:136-156 | the reply to one classified line is sent exactly as `Reply` states: CRLF plus report for tcp/udp, CRLF for ssid, the usage hint otherwise |
| `FactoryTest.FactoryConsole.Report` | SDK_MiCO_V2.5.0/SDK_MiCO_V2.5.0/MiCO/system/system_factory_test.c:141-142 | the report is formatted into `cmd_str` and sent up to its terminator, i.e. exactly the report text |
| `FactoryTest.FactoryConsole.FormatIntoCmd` | SDK_MiCO_V2.5.0/SDK_MiCO_V2.5.0/MiCO/system/system_factory_test.c:141 | `sprintf` into `cmd_str` writes the text and a NUL and leaves the bytes after them alone |
| `Hex.Unpadded` | SDK_MiCO_V2.5.0/SDK_MiCO_V2.5.0/MiCO/system/system_factory_test.c:141 | `%X` gives upper-case hex digits that parse back to the number, with no leading zero |
| `Hex.UnpaddedWidth` | SDK_MiCO_V2.5.0/SDK_MiCO_V2.5.0/MiCO/system/system_factory_test.c:148 | `%X` of a value below 16^w takes at most w digits, so a 32-bit address takes at most 8 |
| `Hex.Hex4` | SDK_MiCO_V2.5.0/SDK_MiCO_V2.5.0/MiCO/system/system_factory_test.c:379 | `%04X` of a 16-bit CRC is exactly four upper-case hex digits that parse back to it |
| `Hex.Hex4Injective` | SDK_MiCO_V2.5.0/SDK_MiCO_V2.5.0/MiCO/system/system_factory_test.c:379 | different CRCs print differently |
| `ImageCrc.FlashLength` | SDK_MiCO_V2.5.0/SDK_MiCO_V2.5.0/MiCO/system/system_factory_test.c:362 | storing the 32-bit partition length in an `int` keeps it below 2^31 and makes it negative from 2^31 up |
| `ImageCrc.WindowsFrom` | SDK_MiCO_V2.5.0/SDK_MiCO_V2.5.0/MiCO/system/system_factory_test.c:365-372 | the reads are empty exactly when `flash_len` is 0 or less; each read holds 1 to 1024 bytes and starts at or after the start offset |
| `ImageCrc.WindowsPartition` | SDK_MiCO_V2.5.0/SDK_MiCO_V2.5.0/MiCO/system/system_factory_test.c:365-372 | no read for a length of 0 or less; otherwise the reads cover exactly the length, each holds 1 to 1024 bytes, all but the last hold 1024, and each starts where the previous ended |
| `ImageCrc.WindowsIncreasing` | SDK_MiCO_V2.5.0/SDK_MiCO_V2.5.0/MiCO/system/system_factory_test.c:373 | reads are issued at strictly increasing, non-overlapping offsets |
| `ImageCrc.WindowsCoverRegion` | SDK_MiCO_V2.5.0/SDK_MiCO_V2.5.0/MiCO/system/system_factory_test.c:365-375 | the bytes of the reads, in order, are exactly the partition's first `flash_len` bytes |
| `ImageCrc.Windows2050` | SDK_MiCO_V2.5.0/SDK_MiCO_V2.5.0/MiCO/system/system_factory_test.c:365-372 | a 2050-byte partition is read as 1024, 1024 and 2 bytes at offsets 0, 1024 and 2048 |
| `ImageCrc.Feed` | SDK_MiCO_V2.5.0/SDK_MiCO_V2.5.0/MiCO/system/system_factory_test.c:373-374 | when `CRC16_Update` streams, feeding the windows one by one gives the same context as one update over all their bytes in order |
| `ImageCrc.AppDigest` | SDK_MiCO_V2.5.0/SDK_MiCO_V2.5.0/MiCO/system/system_factory_test.c:363-377 | when `CRC16_Update` streams, the digest is the CRC of the partition's first `flash_len` bytes in one update, so the 1024-byte windowing is invisible |
| `ImageCrc.Snprintf` | SDK_MiCO_V2.5.0/SDK_MiCO_V2.5.0/MiCO/system/system_factory_test.c:379 | `snprintf` writes at most `len` bytes, ends with NUL when `len > 0`, and writes the whole text and NUL when they fit |
| `ImageCrc.FlashRead` | SDK_MiCO_V2.5.0/SDK_MiCO_V2.5.0/MiCO/system/system_factory_test.c:373 | reading fills the first `len` bytes of the buffer from the partition, leaves the rest, and advances the address by `len` |
| `ImageCrc.ReadAndUpdate` | SDK_MiCO_V2.5.0/SDK_MiCO_V2.5.0/MiCO/system/system_factory_test.c:373-374 | one window is read and fed to `CRC16_Update`, and the address advances past it |
| `ImageCrc.Digest` | SDK_MiCO_V2.5.0/SDK_MiCO_V2.5.0/MiCO/system/system_factory_test.c:358-377 | the loop issues exactly the windows of `WindowsFrom(0, flash_len)`, in order, and finalises to the CRC of those windows' bytes |
| `ImageCrc.Store` | SDK_MiCO_V2.5.0/SDK_MiCO_V2.5.0/MiCO/system/system_factory_test.c:379 | copying the formatted text into `str` sets its first bytes to that text and leaves the rest of `str` as it was |
| `ImageCrc.AppCrc` | SDK_MiCO_V2.5.0/SDK_MiCO_V2.5.0/MiCO/system/system_factory_test.c:352-381 | `str` receives `snprintf(str, len, "%04X", crc)` of the partition's digest, and bytes past it are untouched |
| `FactoryTest.CrcBanner` | SDK_MiCO_V2.5.0/SDK_MiCO_V2.5.0/MiCO/system/system_factory_test.c:305-309 | the CRC line is 15 bytes: `App CRC: `, four hex digits that parse back to the digest, then CRLF |
| `FactoryTest.FactoryConsole.PrintAppCrc` | SDK_MiCO_V2.5.0/SDK_MiCO_V2.5.0/MiCO/system/system_factory_test.c:305-309 | sends `App CRC: `, the four hex digits of the digest and CRLF |
| `FactoryTest.FactoryConsole.MxchipMfgTest` | SDK_MiCO_V2.5.0/SDK_MiCO_V2.5.0/MiCO/system/system_factory_test.c:276-350 | a failed allocation sends nothing and returns no network; otherwise the CRC line is sent, and the command dialogue runs and its name is returned only when `test_for_app` is 0 |
| `Wire.CString` | SDK_MiCO_V2.5.0/SDK_MiCO_V2.5.0/MiCO/system/system_factory_test.c:68-71 | `mf_printf` sends the bytes before the first NUL: a prefix with no NUL, stopped by a NUL when shorter than the buffer |
| `Wire.CStringAtTerminator` | SDK_MiCO_V2.5.0/SDK_MiCO_V2.5.0/MiCO/system/system_factory_test.c:108 | a buffer holding some text then a NUL reads as a C string exactly as that text does, whatever follows the NUL |

## Left out

- The UART set-up (ring buffer, baud rate, `MicoUartInitialize`) is not modelled. The UART is a sequence of receive events, where `None` is a timeout, plus a sequence of sent bytes.
- The model assumes a timed-out receive writes nothing into `cmd_str`.
- The input is finite. When it runs out, `GetLine` reports `starved` and `SsidGet` returns no name. On the device both loops would keep polling forever.
- `inet_addr`, `MicoShouldEnterMFGMode` and the CRC-16 engine (`CRC16_Init/Update/Final`) are code outside this file. They are parameters of the model, not definitions.
- ImageCrc.AppDigest and ImageCrc.Feed: the whole-region property holds only under the hypothesis that `CRC16_Update` streams (an empty update changes nothing, and two updates equal one over the joined bytes), because the CRC-16 code is not part of this model.
- The two `malloc(50)` results are a boolean parameter (`memoryOk`). The `malloc(1024)` in `app_crc` is unchecked in the source; the model's buffer always exists.
- The return values of `MicoFlashRead` and `MicoFlashGetInfo` are ignored, as in the source. The model's flash read always delivers the partition's bytes.
- The other output of `mxchip_mfg_test` is not modelled: header, serial number, bootloader, library, app and driver versions, MAC, `mfg_scan`, the Bluetooth block, `mico_debug_enabled`, and the final sleep. The prints among them append to the sent output through `mf_printf`; they are left out of `MxchipMfgTest`'s postcondition, and nothing else they do touches the modelled state.
- `mfg_connect` is not modelled. `MxchipMfgTest` returns the name it would be given.
- The `MFG_MODE_AUTO` thread and the Bluetooth scan code are not modelled. They are outside the functions modelled here.
- FactoryTest.FactoryConsole.MxchipMfgTest: its postcondition gives only the App CRC line and the dialogue as the sent output. The prints listed above are left out of it.
- FactoryTest.FactoryConsole.GetLine: does not state the bytes of `cmd_str` after the terminator. Those are zero from the `memset`, or stale erase bytes that a later byte did not overwrite, and no caller reads them.
- FactoryTest.FactoryConsole.MfgTestForApp: its 3-byte receive is a separate parameter (`recv`), not taken from the pending input `rx`, which it leaves untouched; the model does not relate that receive to the bytes `get_line` later reads. A failed receive is modelled as leaving `cmd_str` unchanged. A partial receive is not modelled.
- Commands.Dialogue: after an overflow, the C string read from `cmd_str` is bounded by the end of the 64-byte buffer. The source has no terminator there and would read on into neighbouring memory.

## Findings

| source | as written | input that shows it | evidently intended | confidence | as-written member | corrected member |
|---|---|---|---|---|---|---|
| SDK_MiCO_V2.5.0/SDK_MiCO_V2.5.0/MiCO/system/system_factory_test.c:114 | `if (i>sizeof(cmd_str)) break;` lets `i` reach 64 before the loop stops | 64 ordinary characters then CR: the terminator is stored at `cmd_str[64]`. Or 65 ordinary characters: the 65th is stored at `cmd_str[64]`. Both are one past the 64-byte buffer | `i >= sizeof(cmd_str)`: at most 63 kept characters, and the terminator always inside the buffer | high; not executed | `LineEditing.AsWrittenStoresPastBuffer` | `LineEditing.CorrectedStaysInBuffer` |
