/** Octets, Python-style clamped slicing and big-endian integers. */
module Bytes {

  /** One octet of a Python `bytes` object. */
  type byte = x: int | 0 <= x < 256

  type Bytes = seq<byte>

  datatype Option<T> = None | Some(value: T)

  function Min(a: int, b: int): int { if a <= b then a else b }

  /** Python's `s[i:j]` for non-negative bounds: both are clamped to `len(s)`,
      and an empty slice results when the lower bound passes the upper one. */
  function Slice(s: Bytes, i: nat, j: nat): (r: Bytes)
    ensures |r| == (if i <= Min(j, |s|) then Min(j, |s|) - i else 0)
    ensures forall k :: 0 <= k < |r| ==> r[k] == s[i + k]
  {
    var hi := Min(j, |s|);
    var lo := if i <= hi then i else hi;
    s[lo..hi]
  }

  lemma SliceExact(s: Bytes, i: nat, j: nat)
    requires i <= j <= |s|
    ensures Slice(s, i, j) == s[i..j]
  {
  }

  /** Dropping a prefix of the first part of a concatenation. */
  lemma DropAppend(a: Bytes, b: Bytes, k: nat)
    requires k <= |a|
    ensures (a + b)[k..] == a[k..] + b
  {
  }

  lemma AfterPrefix(a: Bytes, b: Bytes)
    ensures (a + b)[|a|..] == b
  {
  }

  /** Python's `s[:-k]` for `k > 0`: everything but the last `k` bytes. */
  function DropLast(s: Bytes, k: nat): (r: Bytes)
    ensures |s| >= k ==> r == s[..|s| - k]
    ensures |s| < k ==> r == []
  {
    if |s| >= k then s[..|s| - k] else []
  }

  /** Python's `s[-k:]` for `k > 0`: the last `k` bytes, or all of a shorter `s`. */
  function TakeLast(s: Bytes, k: nat): (r: Bytes)
    ensures |s| >= k ==> r == s[|s| - k..]
    ensures |s| < k ==> r == s
  {
    if |s| >= k then s[|s| - k..] else s
  }

  /** `int.from_bytes(s, "big")`. */
  function Be(s: Bytes): nat
    decreases |s|
  {
    if s == [] then 0 else Be(s[..|s| - 1]) * 256 + s[|s| - 1]
  }

  lemma BeTwo(s: Bytes)
    requires |s| == 2
    ensures Be(s) == (s[0] as int) * 256 + s[1]
  {
    assert s[..1][..0] == [];
    assert Be(s[..1]) == s[0];
  }

  lemma BeThree(s: Bytes)
    requires |s| == 3
    ensures Be(s) == (s[0] as int) * 65536 + (s[1] as int) * 256 + s[2]
  {
    BeTwo(s[..2]);
    assert s[..2] == s[..|s| - 1];
  }

  lemma {:induction false} BeAppendTwo(a: Bytes, b: Bytes)
    requires |b| == 2
    ensures Be(a + b) == Be(a) * 65536 + Be(b)
  {
    var ab := a + b;
    assert ab[..|ab| - 1] == a + [b[0]];
    assert (a + [b[0]])[..|a|] == a;
    BeTwo(b);
  }

  /** `n.to_bytes(2, "big")`, also `struct.pack(">H", n)`. */
  function Be16(n: nat): (r: Bytes)
    requires n < 0x1_0000
    ensures |r| == 2 && Be(r) == n
  {
    var r := [n / 256, n % 256];
    BeTwo(r);
    r
  }

  /** `n.to_bytes(4, "big")`. */
  function Be32(n: nat): (r: Bytes)
    requires n < 0x1_0000_0000
    ensures |r| == 4 && Be(r) == n
    ensures n < 0x100_0000 ==> r[0] == 0
  {
    var r := Be16(n / 0x1_0000) + Be16(n % 0x1_0000);
    BeAppendTwo(Be16(n / 0x1_0000), Be16(n % 0x1_0000));
    r
  }

  /** A 24-bit big-endian length as in section 7.4 of RFC 5246: a zero byte and
      then the 16-bit encoding, for lengths below 2^16. */
  function Be24Short(n: nat): (r: Bytes)
    requires n < 0x1_0000
    ensures |r| == 3 && Be(r) == n && r[0] == 0
  {
    var r := [0] + Be16(n);
    BeTwo(Be16(n));
    BeThree(r);
    r
  }
}
