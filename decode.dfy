/** Response decoding: `convert_hex_to_int`, `convert_hex_to_bin_str`, and
    the string helpers `get_relay_positions` and `get_temperature` apply to a
    response (`zfill`, `reverse`, `int(bit)`, `rstrip`). */
module Decode {
  import opened Results

  /** A byte as it travels on the serial line or the socket. */
  type byte = x: int | 0 <= x < 256

  /** What `__send_relay_command__` hands back: its boolean outcome, or the
      response bytes when a response was asked for and nothing failed. */
  datatype Payload = Flag(ok: bool) | Data(bytes: seq<byte>)

  /** Python truthiness of a payload: a flag is its value, bytes are truthy when non-empty. */
  predicate Truthy(p: Payload)
  {
    match p
    case Flag(b) => b
    case Data(d) => |d| > 0
  }

  function Max(a: int, b: int): int { if a < b then b else a }

  function Pow2(n: nat): (p: nat)
    ensures p >= 1
  {
    if n == 0 then 1 else 2 * Pow2(n - 1)
  }

  /** `convert_hex_to_int`: the integer value of every byte, in order. A flag
      cannot be iterated, so the `TypeError` branch gives the empty list. */
  function ToInts(p: Payload): (ints: seq<int>)
    ensures p.Flag? ==> ints == []
    ensures p.Data? ==> |ints| == |p.bytes| && forall i :: 0 <= i < |ints| ==> ints[i] == p.bytes[i]
    ensures forall i :: 0 <= i < |ints| ==> 0 <= ints[i] < 256
  {
    match p
    case Flag(_) => []
    case Data(d) => d
  }

  // ---------------------------------------------------------------------------
  // Binary rendering, as Python's bin(v) without its "0b" prefix
  // ---------------------------------------------------------------------------

  function Digit(b: int): char
    requires 0 <= b <= 1
  {
    if b == 0 then '0' else '1'
  }

  /** `int(c)` for a binary digit. */
  function DigitValue(c: char): int
  {
    if c == '1' then 1 else 0
  }

  predicate IsBinaryDigits(s: string)
  {
    forall i :: 0 <= i < |s| ==> s[i] == '0' || s[i] == '1'
  }

  /** The binary digits of v, most significant first, with no leading zeros. */
  function Binary(v: nat): string
    decreases v
  {
    if v < 2 then [Digit(v)] else Binary(v / 2) + [Digit(v % 2)]
  }

  /** The number a string of binary digits denotes, most significant first. */
  function ValueOf(s: string): nat
  {
    if s == [] then 0 else 2 * ValueOf(s[..|s| - 1]) + DigitValue(s[|s| - 1])
  }

  /** Bit k of v, counting from the least significant bit (bit 0). */
  function Bit(v: nat, k: nat): (b: int)
    ensures 0 <= b <= 1
  {
    if k == 0 then v % 2 else Bit(v / 2, k - 1)
  }

  /** bin(v)[2:] is a non-empty string of binary digits that denotes v, starts
      with '1' unless it is exactly "0", and is "0" only for v = 0. */
  lemma {:induction false} BinaryDenotes(v: nat)
    ensures |Binary(v)| >= 1 && IsBinaryDigits(Binary(v))
    ensures ValueOf(Binary(v)) == v
    ensures Binary(v) == "0" || Binary(v)[0] == '1'
    ensures Binary(v) == "0" <==> v == 0
  {
    if v >= 2 {
      BinaryDenotes(v / 2);
      var front := Binary(v / 2);
      assert (front + [Digit(v % 2)])[..|front|] == front;
    }
  }

  /** v fits in n bits exactly when its rendering has at most n digits. */
  lemma {:induction false} BinaryWidth(v: nat, n: nat)
    requires n >= 1
    ensures |Binary(v)| <= n <==> v < Pow2(n)
  {
    if v >= 2 {
      if n == 1 {
        BinaryDenotes(v / 2);
      } else {
        BinaryWidth(v / 2, n - 1);
      }
    }
  }

  /** The rendering of a byte has between 1 and 8 digits. */
  lemma ByteBinaryWidth(v: byte)
    ensures 1 <= |Binary(v)| <= 8
  {
    BinaryDenotes(v);
    assert Pow2(8) == 256;
    BinaryWidth(v, 8);
  }

  /** Read from the right, digit j of bin(v) is bit j of v. */
  lemma {:induction false} BinaryDigitAt(v: nat, j: nat)
    requires j < |Binary(v)|
    ensures Binary(v)[|Binary(v)| - 1 - j] == Digit(Bit(v, j))
  {
    if v >= 2 && j > 0 {
      BinaryDigitAt(v / 2, j - 1);
    }
  }

  lemma {:induction false} BitOfZero(k: nat)
    ensures Bit(0, k) == 0
  {
    if k > 0 { BitOfZero(k - 1); }
  }

  /** Every bit above the rendering's most significant digit is 0. */
  lemma {:induction false} BitBeyondBinary(v: nat, k: nat)
    requires k >= |Binary(v)|
    ensures Bit(v, k) == 0
  {
    if v < 2 {
      BitOfZero(k - 1);
    } else {
      BitBeyondBinary(v / 2, k - 1);
    }
  }

  /** `convert_hex_to_bin_str`: bin() of the first response byte; indexing the
      first element of an empty list raises `IndexError`, given here as None. */
  function BinaryString(p: Payload): (r: Option<string>)
    ensures r.None? <==> ToInts(p) == []
    ensures r.Some? ==> IsBinaryDigits(r.value) && ValueOf(r.value) == ToInts(p)[0]
    ensures r.Some? ==> 1 <= |r.value| <= 8 && (r.value == "0" || r.value[0] == '1')
  {
    var ints := ToInts(p);
    if ints == [] then None
    else
      BinaryDenotes(ints[0]);
      ByteBinaryWidth(ints[0]);
      Some(Binary(ints[0]))
  }

  // ---------------------------------------------------------------------------
  // String helpers
  // ---------------------------------------------------------------------------

  function Zeros(n: nat): (z: string)
    ensures |z| == n && forall i :: 0 <= i < n ==> z[i] == '0'
  {
    seq(n, _ => '0')
  }

  /** `s.zfill(width)`: left-pad with '0' up to width; a longer s is kept whole. */
  function ZFill(s: string, width: int): (r: string)
    ensures |r| == Max(|s|, width)
    ensures r[|r| - |s|..] == s
    ensures forall i :: 0 <= i < |r| - |s| ==> r[i] == '0'
  {
    if width <= |s| then s else Zeros(width - |s|) + s
  }

  /** `list.reverse()`. */
  function Reverse<T>(s: seq<T>): (r: seq<T>)
    ensures |r| == |s|
    ensures forall i :: 0 <= i < |s| ==> r[i] == s[|s| - 1 - i]
  {
    if s == [] then [] else Reverse(s[1..]) + [s[0]]
  }

  /** Digit k, counted from the right, of bin(v) padded to width is bit k of
      v: inside bin(v) by BinaryDigitAt, in the padding because the bits above
      bin(v)'s top digit are zero. */
  lemma PaddedBitAt(v: byte, width: int, k: nat)
    requires k < |ZFill(Binary(v), width)|
    ensures ZFill(Binary(v), width)[|ZFill(Binary(v), width)| - 1 - k] == Digit(Bit(v, k))
  {
    var b := Binary(v);
    var z := ZFill(b, width);
    if k < |b| {
      BinaryDigitAt(v, k);
      assert z[|z| - |b|..][|b| - 1 - k] == b[|b| - 1 - k];
    } else {
      BitBeyondBinary(v, k);
    }
  }

  /** The bit string `get_relay_positions` walks: bin(v), padded to width,
      reversed. Its length is max(width, digits of v) and its digit k is bit k
      of v, so the padding stands for the zero bits bin() dropped. */
  lemma PaddedBits(v: byte, width: int, bits: string)
    requires bits == Reverse(ZFill(Binary(v), width))
    ensures |bits| == Max(width, |Binary(v)|)
    ensures forall k :: 0 <= k < |bits| ==> bits[k] == Digit(Bit(v, k))
  {
    forall k | 0 <= k < |bits|
      ensures bits[k] == Digit(Bit(v, k))
    {
      PaddedBitAt(v, width, k);
    }
  }

  /** Whitespace as Python's `rstrip()` sees it on bytes: space, \t, \n, \v, \f, \r. */
  predicate IsSpace(b: byte)
  {
    b == 32 || 9 <= b <= 13
  }

  /** `rstrip()`: the longest prefix of s that does not end in whitespace. */
  function RStrip(s: seq<byte>): (r: seq<byte>)
    ensures r <= s
    ensures forall i :: |r| <= i < |s| ==> IsSpace(s[i])
    ensures r == [] || !IsSpace(r[|r| - 1])
  {
    if s == [] || !IsSpace(s[|s| - 1]) then s else RStrip(s[..|s| - 1])
  }
}
