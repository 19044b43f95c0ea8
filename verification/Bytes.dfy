/** Bytes, and the decimal numerals that framed streams use for lengths. */
module Bytes {

  type Byte = x: int | 0 <= x < 256

  const NUL: Byte := 0
  const LF: Byte := 10
  const SPACE: Byte := 32
  const ZERO: Byte := 48

  /** The first position of `b` at or after `from`, or -1. */
  function IndexOf(data: seq<Byte>, b: Byte, from: nat): (at: int)
    ensures at == -1 || from <= at < |data|
    ensures at != -1 ==> data[at] == b && forall k :: from <= k < at ==> data[k] != b
    ensures at == -1 ==> forall k :: from <= k < |data| ==> data[k] != b
    decreases |data| - from
  {
    if from >= |data| then -1 else if data[from] == b then from else IndexOf(data, b, from + 1)
  }

  /** The numeral of `n` without leading zeros. */
  function Decimal(n: nat): (digits: seq<Byte>)
    ensures digits != [] && forall d :: d in digits ==> ZERO <= d <= ZERO + 9
  {
    if n < 10 then [ZERO + n] else Decimal(n / 10) + [ZERO + n % 10]
  }

  function Numeral(digits: seq<Byte>): int {
    if digits == [] then 0
    else Numeral(digits[..|digits| - 1]) * 10 + (digits[|digits| - 1] as int - ZERO as int)
  }

  lemma {:induction false} DecimalRoundTrip(n: nat)
    ensures Numeral(Decimal(n)) == n
  {
    if n < 10 {
      assert Decimal(n)[..0] == [];
    } else {
      DecimalRoundTrip(n / 10);
      assert Decimal(n)[..|Decimal(n)| - 1] == Decimal(n / 10);
    }
  }

  /** In `before + [b] + after`, the first `b` is the one after `before`. */
  lemma FirstOccurrence(data: seq<Byte>, from: nat, before: seq<Byte>, b: Byte)
    requires b !in before && from + |before| < |data|
    requires data[from..from + |before|] == before && data[from + |before|] == b
    ensures IndexOf(data, b, from) == from + |before|
  {
    forall k | from <= k < from + |before| ensures data[k] != b {
      assert data[k] == before[k - from];
      assert before[k - from] in before;
    }
  }

  /** A part of `data` that is laid out in pieces can be read piece by piece. */
  lemma Piece(data: seq<Byte>, at: nat, before: seq<Byte>, piece: seq<Byte>, after: seq<Byte>)
    requires at + |before| + |piece| + |after| <= |data|
    requires data[at..at + |before| + |piece| + |after|] == before + piece + after
    ensures data[at + |before|..at + |before| + |piece|] == piece
  {
    var whole := before + piece + after;
    forall k | 0 <= k < |piece| ensures data[at + |before| + k] == piece[k] {
      assert data[at..at + |whole|][|before| + k] == whole[|before| + k];
    }
  }

  /** What follows `start` begins with `a`, and what follows that with `b`. */
  lemma PrefixParts(data: seq<Byte>, start: nat, a: seq<Byte>, b: seq<Byte>)
    requires start <= |data| && a + b <= data[start..]
    ensures a <= data[start..] && start + |a| <= |data| && b <= data[start + |a|..]
  {
    assert data[start..][..|a + b|] == a + b;
    assert data[start..][..|a|] == (a + b)[..|a|];
    assert data[start + |a|..][..|b|] == (a + b)[|a|..];
  }
}
