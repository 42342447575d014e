/** Byte strings. A Rust `String` or `&str` is a buffer of UTF-8 bytes, and
    `push_str` appends bytes, so every text of the model is a `seq<byte>`. */
module Bytes {

  type byte = b: int | 0 <= b < 256

  const NEWLINE: byte := 0x0A
  const SPACE: byte := 0x20
  const QUOTE: byte := 0x22
  const LPAREN: byte := 0x28
  const RPAREN: byte := 0x29
  const COMMA: byte := 0x2C
  const DASH: byte := 0x2D
  const DIGIT_ZERO: byte := 0x30
  const DIGIT_NINE: byte := 0x39
  const LBRACKET: byte := 0x5B
  const RBRACKET: byte := 0x5D

  /** The number of occurrences of `b` in `s`. */
  function Count(b: byte, s: seq<byte>): (c: nat)
    ensures c <= |s|
    ensures c == 0 <==> b !in s
  {
    if s == [] then 0
    else
      assert s == s[..|s| - 1] + [s[|s| - 1]];
      Count(b, s[..|s| - 1]) + (if s[|s| - 1] == b then 1 else 0)
  }

  lemma {:induction false} CountConcat(b: byte, s: seq<byte>, t: seq<byte>)
    ensures Count(b, s + t) == Count(b, s) + Count(b, t)
    decreases |t|
  {
    if t == [] {
      assert s + t == s;
    } else {
      CountConcat(b, s, t[..|t| - 1]);
      assert (s + t)[..|s + t| - 1] == s + t[..|t| - 1];
    }
  }

  lemma AppendAssoc(a: seq<byte>, b: seq<byte>, c: seq<byte>)
    ensures (a + b) + c == a + (b + c)
  {
  }

  /** `t` occurs as a contiguous run inside `s`. */
  ghost predicate IsInfix(t: seq<byte>, s: seq<byte>)
  {
    exists i, j :: 0 <= i <= j <= |s| && s[i..j] == t
  }

  lemma InfixWitness(a: seq<byte>, b: seq<byte>, c: seq<byte>)
    ensures IsInfix(b, a + b + c)
  {
    assert (a + b + c)[|a|..|a| + |b|] == b;
  }

  /** `k` dash characters: the indentation the renderer writes one `-` at a time. */
  function Dashes(k: nat): (r: seq<byte>)
    ensures |r| == k
    ensures forall i :: 0 <= i < k ==> r[i] == DASH
  {
    if k == 0 then [] else Dashes(k - 1) + [DASH]
  }

  /** The length of the run of `b` bytes that `s` starts with. */
  function LeadingCount(b: byte, s: seq<byte>): nat
  {
    if s != [] && s[0] == b then 1 + LeadingCount(b, s[1..]) else 0
  }

  /** A run of `k` dashes followed by text that does not start with a dash
      starts with exactly `k` dashes. */
  lemma {:induction false} LeadingDashesOfRun(k: nat, t: seq<byte>)
    requires t == [] || t[0] != DASH
    ensures LeadingCount(DASH, Dashes(k) + t) == k
  {
    if k == 0 {
      assert Dashes(k) + t == t;
    } else {
      assert Dashes(k)[1..] == Dashes(k - 1);
      assert (Dashes(k) + t)[1..] == Dashes(k - 1) + t;
      LeadingDashesOfRun(k - 1, t);
    }
  }

  /** A byte 10xxxxxx, which continues a multi-byte UTF-8 sequence. */
  predicate IsContinuationByte(b: byte)
  {
    0x80 <= b < 0xC0
  }

  /** Offset `i` of the UTF-8 text `s` lies between two characters. */
  predicate IsCharBoundary(s: seq<byte>, i: nat)
  {
    i == |s| || (i < |s| && !IsContinuationByte(s[i]))
  }
}
