/** The bit codec: characters to 8-bit groups, most significant bit first,
    and 8-bit groups back to characters (Steganography.py, string_to_binary,
    binary_to_string and check_string). */
module Codec {
  import opened Results

  /** One binary digit, as the source stores it in its bit lists. */
  type Bit = b: int | 0 <= b <= 1

  /** A character of a Python string, identified by its code point (`ord`). */
  type CodePoint = c: int | 0 <= c < 0x11_0000

  function Min(a: int, b: int): (m: int) {
    if a <= b then a else b
  }

  function Pow2(n: nat): (r: nat)
    ensures r >= 1
  {
    if n == 0 then 1 else 2 * Pow2(n - 1)
  }

  lemma Pow2Byte()
    ensures Pow2(8) == 256
  {
    assert Pow2(1) == 2 && Pow2(2) == 4 && Pow2(3) == 8 && Pow2(4) == 16;
  }

  /** Digit `j` of the 8-bit value `c`, counting from the most significant
      (j = 0) to the least significant (j = 7): bit 7 - j in the usual sense. */
  function BitOf(c: nat, j: nat): (b: Bit)
    requires j < 8
  {
    (c / Pow2(7 - j)) % 2
  }

  /** A message the codec can carry: every code point fits in one byte. */
  predicate Encodable(s: seq<CodePoint>) {
    forall k :: 0 <= k < |s| ==> s[k] < 256
  }

  /** check_string: scans left to right and answers false at the first
      character whose code point is 256 or more. */
  method CheckString(s: seq<CodePoint>) returns (ok: bool)
    ensures ok <==> Encodable(s)
  {
    for k := 0 to |s|
      invariant forall i :: 0 <= i < k ==> s[i] < 256
    {
      if s[k] >= 256 {
        return false;
      }
    }
    return true;
  }

  // ---------------------------------------------------------------------
  // string_to_binary
  // ---------------------------------------------------------------------

  /** The digit loop of string_to_binary with `n` digits still to emit
      (n = 8 - i for the source's loop index i) and `rem` what is left of
      the code point: the next digit is 1, and 2^(n-1) is taken off,
      exactly when `rem` has reached 2^(n-1). */
  function Greedy(rem: int, n: nat): (r: seq<Bit>)
    ensures |r| == n
  {
    if n == 0 then []
    else if rem >= Pow2(n - 1) then [1] + Greedy(rem - Pow2(n - 1), n - 1)
    else [0] + Greedy(rem, n - 1)
  }

  /** The eight digits string_to_binary emits for one character. */
  function CharToBinary(c: CodePoint): (r: seq<Bit>)
    ensures |r| == 8
  {
    Greedy(c, 8)
  }

  /** string_to_binary: the characters' digit groups, concatenated in order. */
  function StringToBinary(s: seq<CodePoint>): (r: seq<Bit>)
    ensures |r| == 8 * |s|
  {
    if s == [] then [] else CharToBinary(s[0]) + StringToBinary(s[1..])
  }

  // ---------------------------------------------------------------------
  // binary_to_string
  // ---------------------------------------------------------------------

  /** The value binary_to_string rebuilds from a group of digits: the sum of
      2^(n-1-j) over the digits j that are set, n the group's length. */
  function Weigh(g: seq<Bit>): (v: nat)
    ensures v < Pow2(|g|)
  {
    if g == [] then 0
    else (if g[0] == 1 then Pow2(|g| - 1) else 0) + Weigh(g[1..])
  }

  /** One character per complete group of eight digits, front to back;
      digits after the last complete group are dropped. */
  function DecodeGroups(bits: seq<Bit>): (s: seq<CodePoint>)
    ensures |s| == |bits| / 8
    ensures Encodable(s)
    ensures StringToBinary(s) == bits[..8 * (|bits| / 8)]
    decreases |bits|
  {
    if |bits| < 8 then []
    else
      Pow2Byte();
      var c: CodePoint := Weigh(bits[..8]);
      WeighGreedy(bits[..8]);
      assert bits[..8 * (|bits| / 8)] == bits[..8] + bits[8..][..8 * (|bits[8..]| / 8)];
      [c] + DecodeGroups(bits[8..])
  }

  /** binary_to_string as written: it reads `binary[i + j]` for every j < 8
      without a bounds check, so a list whose length is not a multiple of 8
      ends in an IndexError instead of a string. */
  function BinaryToString(bits: seq<Bit>): (r: Result<seq<CodePoint>, Error>)
    ensures r.Success? <==> |bits| % 8 == 0
    ensures r.Failure? ==> r.error == IndexError
    ensures r.Success? ==> 8 * |r.value| == |bits| && Encodable(r.value)
    ensures r.Success? ==> StringToBinary(r.value) == bits
  {
    if |bits| % 8 == 0 then
      assert bits[..8 * (|bits| / 8)] == bits;
      Success(DecodeGroups(bits))
    else Failure(IndexError)
  }

  // ---------------------------------------------------------------------
  // Arithmetic helpers
  // ---------------------------------------------------------------------

  /** With P > 0, c mod 2P splits into the parity of c / P, scaled by P,
      plus c mod P. */
  lemma ModDouble(c: nat, p: nat)
    requires p > 0
    ensures c % (2 * p) == ((c / p) % 2) * p + c % p
  {
    var q, r := c / p, c % p;
    var b := q % 2;
    assert c == q * p + r;
    assert q == 2 * (q / 2) + b;
    assert c == (q / 2) * (2 * p) + (b * p + r) by {
      assert q * p == (2 * (q / 2) + b) * p;
    }
    DivModUnique(c, 2 * p, q / 2, b * p + r);
  }

  lemma DivModUnique(c: int, d: int, q: int, r: int)
    requires d > 0 && 0 <= r < d && c == q * d + r
    ensures c / d == q && c % d == r
  {
    var q', r' := c / d, c % d;
    assert c == q' * d + r';
    if q > q' {
      MulAtLeast(q - q', d);
      assert false;
    } else if q < q' {
      MulAtLeast(q' - q, d);
      assert false;
    }
  }

  lemma {:induction false} MulAtLeast(m: int, d: int)
    requires m >= 1 && d > 0
    ensures m * d >= d
    decreases m
  {
    if m > 1 {
      MulAtLeast(m - 1, d);
      assert m * d == (m - 1) * d + d;
    }
  }

  // ---------------------------------------------------------------------
  // Lemmas: the digits of one character
  // ---------------------------------------------------------------------

  /** The last n digits of c, most significant first. */
  function Digits(c: nat, n: nat): (r: seq<Bit>)
    ensures |r| == n
  {
    if n == 0 then [] else [(c / Pow2(n - 1)) % 2] + Digits(c, n - 1)
  }

  lemma {:induction false} DigitsAt(c: nat, n: nat, k: nat)
    requires k < n
    ensures Digits(c, n)[k] == (c / Pow2(n - 1 - k)) % 2
    decreases n
  {
    if k > 0 {
      DigitsAt(c, n - 1, k - 1);
      assert Digits(c, n)[k] == Digits(c, n - 1)[k - 1];
    }
  }

  /** Reducing modulo 2^n instead of 2^(n-1) keeps digit n-1 in addition:
      2^(n-1) when it is set, nothing when it is not. */
  lemma ModSplit(c: nat, n: nat)
    requires n >= 1
    ensures c % Pow2(n) == (if (c / Pow2(n - 1)) % 2 == 1 then Pow2(n - 1) else 0) + c % Pow2(n - 1)
  {
    ModDouble(c, Pow2(n - 1));
  }

  /** The greedy digit loop, started on c reduced modulo 2^n, produces the
      last n digits of c. */
  lemma {:induction false} GreedyReadsDigits(c: nat, n: nat)
    ensures Greedy(c % Pow2(n), n) == Digits(c, n)
  {
    if n > 0 {
      ModSplit(c, n);
      GreedyReadsDigits(c, n - 1);
    }
  }

  /** Each character below 256 becomes its own eight bits, most significant
      first. */
  lemma CharToBinaryMsbFirst(c: CodePoint)
    requires c < 256
    ensures forall j :: 0 <= j < 8 ==> CharToBinary(c)[j] == BitOf(c, j)
  {
    Pow2Byte();
    assert c % Pow2(8) == c;
    GreedyReadsDigits(c, 8);
    forall j | 0 <= j < 8
      ensures CharToBinary(c)[j] == BitOf(c, j)
    {
      DigitsAt(c, 8, j);
    }
  }

  /** Weight of a group with one more leading digit. */
  lemma WeighCons(b: Bit, t: seq<Bit>)
    ensures Weigh([b] + t) == (if b == 1 then Pow2(|t|) else 0) + Weigh(t)
  {
    assert ([b] + t)[1..] == t;
  }

  /** Weighing the greedy digits gives back what the loop started from. */
  lemma {:induction false} GreedyWeigh(rem: int, n: nat)
    requires 0 <= rem < Pow2(n)
    ensures Weigh(Greedy(rem, n)) == rem
  {
    if n > 0 {
      var p := Pow2(n - 1);
      if rem >= p {
        GreedyWeigh(rem - p, n - 1);
        WeighCons(1, Greedy(rem - p, n - 1));
      } else {
        GreedyWeigh(rem, n - 1);
        WeighCons(0, Greedy(rem, n - 1));
      }
    }
  }

  /** Running the greedy loop on the weight of a digit group gives back the
      group. */
  lemma {:induction false} WeighGreedy(g: seq<Bit>)
    ensures Greedy(Weigh(g), |g|) == g
  {
    if g != [] {
      WeighGreedy(g[1..]);
      assert g == [g[0]] + g[1..];
    }
  }

  // ---------------------------------------------------------------------
  // Lemmas: whole strings
  // ---------------------------------------------------------------------

  lemma SliceOfAppend<T>(a: seq<T>, b: seq<T>, m: int, n: int)
    requires |a| <= m <= n <= |a| + |b|
    ensures (a + b)[m..n] == b[m - |a|..n - |a|]
  {
  }

  /** Group k of string_to_binary(s) is the digit group of character k. */
  lemma {:induction false} StringToBinaryChunk(s: seq<CodePoint>, k: nat)
    requires k < |s|
    ensures StringToBinary(s)[8 * k..8 * k + 8] == CharToBinary(s[k])
  {
    var head, tail := CharToBinary(s[0]), StringToBinary(s[1..]);
    assert StringToBinary(s) == head + tail;
    if k == 0 {
      assert (head + tail)[..8] == head;
    } else {
      StringToBinaryChunk(s[1..], k - 1);
      SliceOfAppend(head, tail, 8 * k, 8 * k + 8);
      assert s[1..][k - 1] == s[k];
    }
  }

  /** Bit 8k + j of string_to_binary(s) is digit j of character k. */
  lemma StringToBinaryMsbFirst(s: seq<CodePoint>)
    requires Encodable(s)
    ensures forall k, j :: 0 <= k < |s| && 0 <= j < 8 ==> StringToBinary(s)[8 * k + j] == BitOf(s[k], j)
  {
    var r := StringToBinary(s);
    forall k, j | 0 <= k < |s| && 0 <= j < 8
      ensures r[8 * k + j] == BitOf(s[k], j)
    {
      StringToBinaryChunk(s, k);
      CharToBinaryMsbFirst(s[k]);
      assert r[8 * k + j] == r[8 * k..8 * k + 8][j];
    }
  }

  /** Decoding the digits of a byte string gives back the string. */
  lemma {:induction false} DecodeGroupsInverse(s: seq<CodePoint>)
    requires Encodable(s)
    ensures DecodeGroups(StringToBinary(s)) == s
  {
    if s != [] {
      var bits := StringToBinary(s);
      Pow2Byte();
      assert bits[..8] == CharToBinary(s[0]);
      assert bits[8..] == StringToBinary(s[1..]);
      GreedyWeigh(s[0], 8);
      DecodeGroupsInverse(s[1..]);
      assert s == [s[0]] + s[1..];
    }
  }

  /** Round trip of the codec: binary_to_string(string_to_binary(s)) == s
      for every string whose code points are all below 256. */
  lemma BinaryStringRoundTrip(s: seq<CodePoint>)
    requires Encodable(s)
    ensures BinaryToString(StringToBinary(s)) == Success(s)
  {
    DecodeGroupsInverse(s);
  }

  /** Decoding a concatenation whose first part is whole groups decodes the
      parts separately. */
  lemma {:induction false} DecodeGroupsAppend(a: seq<Bit>, b: seq<Bit>)
    requires |a| % 8 == 0
    ensures DecodeGroups(a + b) == DecodeGroups(a) + DecodeGroups(b)
    decreases |a|
  {
    if |a| > 0 {
      assert (a + b)[..8] == a[..8];
      assert (a + b)[8..] == a[8..] + b;
      DecodeGroupsAppend(a[8..], b);
    } else {
      assert a + b == b;
    }
  }
}
