/** Machine-level values shared by the factory-test console: bytes, fixed-width
    unsigned integers, an Option for the UART's "timed out" answer, and the
    C-string view of a byte buffer. */
module Wire {

  newtype byte = b: int | 0 <= b < 0x100
  newtype uint16 = x: int | 0 <= x < 0x1_0000
  newtype uint32 = x: int | 0 <= x < 0x1_0000_0000

  datatype Option<+T> = None | Some(value: T)

  const NUL: byte := 0x00

  /** The bytes of an ASCII text (every message the console prints is ASCII). */
  function Ascii(s: string): seq<byte>
    requires forall k :: 0 <= k < |s| ==> s[k] as int < 0x80
  {
    seq(|s|, k requires 0 <= k < |s| => s[k] as int as byte)
  }

  /** What C's string functions see in a buffer: the bytes before the first NUL,
      or (in this model) the whole buffer when it holds no NUL. */
  function CString(s: seq<byte>): (r: seq<byte>)
    ensures r <= s
    ensures NUL !in r
    ensures |r| < |s| ==> s[|r|] == NUL
  {
    if s == [] || s[0] == NUL then [] else [s[0]] + CString(s[1..])
  }

  /** A buffer holding `t` followed by a NUL reads as the C string of `t`,
      whatever follows the terminator. */
  lemma {:induction false} CStringAtTerminator(s: seq<byte>, t: seq<byte>)
    requires |t| < |s| && s[..|t|] == t && s[|t|] == NUL
    ensures CString(s) == CString(t)
  {
    if t != [] && t[0] != NUL {
      assert s[0] == t[0];
      assert s[1..][..|t[1..]|] == t[1..];
      CStringAtTerminator(s[1..], t[1..]);
    }
  }

  /** A buffer with no NUL in it reads whole as a C string. */
  lemma {:induction false} CStringWhole(s: seq<byte>)
    requires NUL !in s
    ensures CString(s) == s
  {
    if s != [] {
      assert NUL !in s[1..];
      CStringWhole(s[1..]);
    }
  }

  /** A buffer that starts with a NUL-free `t` and its terminator reads as `t`. */
  lemma CStringOfTerminated(s: seq<byte>, t: seq<byte>)
    requires NUL !in t && |t| < |s| && s[..|t| + 1] == t + [NUL]
    ensures CString(s) == t
  {
    assert s[..|t|] == s[..|t| + 1][..|t|];
    assert s[|t|] == s[..|t| + 1][|t|];
    CStringAtTerminator(s, t);
    CStringWhole(t);
  }

  /** Re-associates a concatenation of three sequences. */
  lemma Regroup<T>(a: seq<T>, b: seq<T>, c: seq<T>)
    ensures a + (b + c) == (a + b) + c
  {
  }
}
