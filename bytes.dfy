// Byte strings as Node's Buffer handles them: the byte order used by
// Buffer.compare, and the lowercase hexadecimal text form of
// Buffer.toString('hex') together with its parser.

module Options {
  datatype Option<+T> = None | Some(value: T)
}

module Bytes {
  import opened Options

  type Byte = b: int | 0 <= b < 256

  /** Width in bytes of a Keccak-256 digest. */
  const DIGEST_WIDTH: nat := 32

  type Digest = s: seq<Byte> | |s| == DIGEST_WIDTH witness seq(DIGEST_WIDTH, _ => 0)

  /** Buffer.compare(a, b) <= 0: byte by byte, and a proper prefix first. */
  predicate LexLe(a: seq<Byte>, b: seq<Byte>)
    ensures a <= b ==> LexLe(a, b)
    decreases |a|
  {
    |a| == 0 || (|b| > 0 && (a[0] < b[0] || (a[0] == b[0] && LexLe(a[1..], b[1..]))))
  }

  /** Buffer.compare(a, b) == -1: exactly when Buffer.compare(b, a) > 0. */
  predicate LexLt(a: seq<Byte>, b: seq<Byte>)
    ensures LexLt(a, b) <==> !LexLe(b, a)
  {
    LexLeReflexive(a);
    LexLeTotal(a, b);
    LexLeAntisymmetric(a, b);
    LexLe(a, b) && a != b
  }

  lemma {:induction false} LexLeReflexive(a: seq<Byte>)
    ensures LexLe(a, a)
    decreases |a|
  {
    if |a| > 0 {
      LexLeReflexive(a[1..]);
    }
  }

  lemma {:induction false} LexLeTotal(a: seq<Byte>, b: seq<Byte>)
    ensures LexLe(a, b) || LexLe(b, a)
    decreases |a|
  {
    if |a| > 0 && |b| > 0 && a[0] == b[0] {
      LexLeTotal(a[1..], b[1..]);
    }
  }

  lemma {:induction false} LexLeAntisymmetric(a: seq<Byte>, b: seq<Byte>)
    ensures LexLe(a, b) && LexLe(b, a) ==> a == b
    decreases |a|
  {
    if |a| > 0 && LexLe(a, b) && LexLe(b, a) {
      LexLeAntisymmetric(a[1..], b[1..]);
      assert a == [a[0]] + a[1..];
      assert b == [b[0]] + b[1..];
    }
  }

  lemma {:induction false} LexLeTransitive(a: seq<Byte>, b: seq<Byte>, c: seq<Byte>)
    requires LexLe(a, b) && LexLe(b, c)
    ensures LexLe(a, c)
    decreases |a|
  {
    if |a| > 0 && a[0] == b[0] && b[0] == c[0] {
      LexLeTransitive(a[1..], b[1..], c[1..]);
    }
  }

  /** The lowercase hexadecimal digit of a nibble. */
  function HexDigit(n: int): (c: char)
    requires 0 <= n < 16
    ensures '0' <= c <= '9' || 'a' <= c <= 'f'
  {
    if n < 10 then ('0' as int + n) as char else ('a' as int + n - 10) as char
  }

  /** The nibble a hexadecimal digit stands for; Buffer.from(_, 'hex') accepts both cases. */
  function HexValue(c: char): Option<int> {
    if '0' <= c <= '9' then Some(c as int - '0' as int)
    else if 'a' <= c <= 'f' then Some(c as int - 'a' as int + 10)
    else if 'A' <= c <= 'F' then Some(c as int - 'A' as int + 10)
    else None
  }

  /** Buffer.toString('hex'): two lowercase hexadecimal digits per byte, high nibble first. */
  function ToHex(bs: seq<Byte>): (s: string)
    ensures |s| == 2 * |bs|
    ensures forall k :: 0 <= k < |s| ==> '0' <= s[k] <= '9' || 'a' <= s[k] <= 'f'
  {
    if bs == [] then "" else [HexDigit(bs[0] / 16), HexDigit(bs[0] % 16)] + ToHex(bs[1..])
  }

  /** Decodes a string of hexadecimal digit pairs; None when it is not one. */
  function FromHex(s: string): (r: Option<seq<Byte>>)
    ensures r.Some? ==> |s| == 2 * |r.value|
    decreases |s|
  {
    if |s| == 0 then Some([])
    else if |s| == 1 then None
    else match (HexValue(s[0]), HexValue(s[1]), FromHex(s[2..]))
      case (Some(hi), Some(lo), Some(rest)) =>
        if 0 <= hi < 16 && 0 <= lo < 16 then Some([hi * 16 + lo] + rest) else None
      case _ => None
  }

  lemma {:induction false} FromHexToHex(bs: seq<Byte>)
    ensures FromHex(ToHex(bs)) == Some(bs)
    decreases |bs|
  {
    if bs != [] {
      var s := ToHex(bs);
      assert s[2..] == ToHex(bs[1..]);
      FromHexToHex(bs[1..]);
      assert bs == [bs[0] / 16 * 16 + bs[0] % 16] + bs[1..];
    }
  }

  /** The "0x"-prefixed hexadecimal text of a byte string. */
  function HexString(bs: seq<Byte>): (s: string)
    ensures |s| == 2 + 2 * |bs| && s[..2] == "0x"
  {
    "0x" + ToHex(bs)
  }

  /**
   * How merkletreejs turns a hexadecimal string back into a buffer
   * (MerkleTree.bufferify): an optional "0x" prefix, then digit pairs.
   */
  function ParseHexString(s: string): (r: Option<seq<Byte>>)
    ensures r.Some? ==> |s| == 2 * |r.value| || |s| == 2 + 2 * |r.value|
  {
    if |s| >= 2 && s[..2] == "0x" then FromHex(s[2..]) else FromHex(s)
  }

  lemma ParseHexStringRoundTrip(bs: seq<Byte>)
    ensures ParseHexString(HexString(bs)) == Some(bs)
  {
    assert HexString(bs)[2..] == ToHex(bs);
    FromHexToHex(bs);
  }
}
