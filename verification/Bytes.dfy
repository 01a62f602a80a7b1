/** Bytes of a client stream and the character classes of the command language. */
module Bytes {

  type byte = b: int | 0 <= b < 256

  /** The width of the C types `uint32_t` and `unsigned int`. */
  const TWO_32: int := 0x1_0000_0000
  type uint32 = n: int | 0 <= n < 0x1_0000_0000

  const TAB: byte := 9
  const LF: byte := 10
  const CR: byte := 13
  const SPACE: byte := 32

  predicate IsNewline(c: byte) {
    c == CR || c == LF
  }

  predicate IsWhitespace(c: byte) {
    c == SPACE || c == LF || c == CR || c == TAB
  }

  /** A `char` read as a number; `char` is signed on the platforms the server targets. */
  function Signed(c: byte): int {
    if c < 128 then c else c - 256
  }

  /** The end of the whitespace run that starts at `i`. */
  function WsEnd(s: seq<byte>, i: nat): (j: nat)
    requires i <= |s|
    ensures i <= j <= |s|
    ensures forall k :: i <= k < j ==> IsWhitespace(s[k])
    ensures j < |s| ==> !IsWhitespace(s[j])
    decreases |s| - i
  {
    if i == |s| || !IsWhitespace(s[i]) then i else WsEnd(s, i + 1)
  }

  /** The end of the token (run of bytes that are not whitespace) that starts at `i`. */
  function TokEnd(s: seq<byte>, i: nat): (j: nat)
    requires i <= |s|
    ensures i <= j <= |s|
    ensures forall k :: i <= k < j ==> !IsWhitespace(s[k])
    ensures j < |s| ==> IsWhitespace(s[j])
    decreases |s| - i
  {
    if i == |s| || IsWhitespace(s[i]) then i else TokEnd(s, i + 1)
  }

  /** `s` and `t` have the same first `n` bytes. */
  ghost predicate Agree(s: seq<byte>, t: seq<byte>, n: nat) {
    n <= |s| && n <= |t| && forall k :: 0 <= k < n ==> s[k] == t[k]
  }

  /** A whitespace run that is closed within the common part ends at the same place. */
  lemma {:induction false} WsEndAgree(s: seq<byte>, t: seq<byte>, n: nat, i: nat)
    requires Agree(s, t, n) && i <= n
    requires WsEnd(s, i) < n
    ensures WsEnd(t, i) == WsEnd(s, i)
    decreases n - i
  {
    if IsWhitespace(s[i]) {
      WsEndAgree(s, t, n, i + 1);
    }
  }

  /** A token that is closed within the common part ends at the same place. */
  lemma {:induction false} TokEndAgree(s: seq<byte>, t: seq<byte>, n: nat, i: nat)
    requires Agree(s, t, n) && i <= n
    requires TokEnd(s, i) < n
    ensures TokEnd(t, i) == TokEnd(s, i)
    decreases n - i
  {
    if !IsWhitespace(s[i]) {
      TokEndAgree(s, t, n, i + 1);
    }
  }

  /** A whitespace run can be measured in two parts. */
  lemma {:induction false} WsEndFrom(s: seq<byte>, i: nat, j: nat)
    requires i <= j <= |s|
    requires forall k :: i <= k < j ==> IsWhitespace(s[k])
    ensures WsEnd(s, i) == WsEnd(s, j)
    decreases j - i
  {
    if i < j {
      WsEndFrom(s, i + 1, j);
    }
  }

  /** Dropping a prefix shifts the end of a whitespace run. */
  lemma {:induction false} WsEndDrop(s: seq<byte>, n: nat, i: nat)
    requires n + i <= |s|
    ensures WsEnd(s[n..], i) + n == WsEnd(s, n + i)
    decreases |s| - i
  {
    if n + i < |s| && IsWhitespace(s[n + i]) {
      WsEndDrop(s, n, i + 1);
    }
  }

  /** Cutting off the end of a stream never lengthens a whitespace run. */
  lemma {:induction false} WsEndTake(s: seq<byte>, n: nat, i: nat)
    requires i <= n <= |s|
    ensures WsEnd(s[..n], i) <= WsEnd(s, i)
    decreases n - i
  {
    if i < n && IsWhitespace(s[i]) {
      WsEndTake(s, n, i + 1);
    }
  }
}
