/** The length-prefix serialisers `pack_uint16` and `sni`. */
module Framing {
  import opened Bytes

  /** `pack_uint16(s)`: the length of `s` as two big-endian bytes, then `s`.
      `int.to_bytes(2, "big")` raises for lengths of 2^16 and more. */
  function PackUint16(s: Bytes): (r: Bytes)
    requires |s| < 0x1_0000
    ensures |r| == |s| + 2 && Be(r[..2]) == |s| && r[2..] == s
  {
    Be16(|s|) + s
  }

  /** A length-prefixed field after a fixed prefix `a`. */
  lemma PackedAfter(a: Bytes, s: Bytes)
    requires |s| < 0x1_0000
    ensures var r := a + PackUint16(s);
      && |r| == |a| + 2 + |s|
      && r[..|a|] == a
      && Be(r[|a|..|a| + 2]) == |s|
      && r[|a| + 2..] == s
  {
    var r := a + PackUint16(s);
    assert r[|a|..|a| + 2] == PackUint16(s)[..2];
    assert r[|a| + 2..] == PackUint16(s)[2..];
  }

  /** Reads one field with a 16-bit big-endian length prefix off the front of
      `b`, giving the field and what follows it. */
  function UnpackUint16(b: Bytes): Option<(Bytes, Bytes)>
  {
    if |b| < 2 then None
    else
      var n := Be(b[..2]);
      if |b| < 2 + n then None else Some((b[2..2 + n], b[2 + n..]))
  }

  lemma PackUint16RoundTrip(s: Bytes, rest: Bytes)
    requires |s| < 0x1_0000
    ensures UnpackUint16(PackUint16(s) + rest) == Some((s, rest))
  {
    var b := PackUint16(s) + rest;
    assert b[..2] == PackUint16(s)[..2];
    assert b[2..2 + |s|] == s;
    assert b[2 + |s|..] == rest;
  }

  /** Every field that `UnpackUint16` reads was written by `PackUint16`. */
  lemma UnpackUint16Inverse(b: Bytes)
    requires UnpackUint16(b).Some?
    ensures |UnpackUint16(b).value.0| < 0x1_0000
    ensures b == PackUint16(UnpackUint16(b).value.0) + UnpackUint16(b).value.1
  {
    var n := Be(b[..2]);
    BeTwo(b[..2]);
    var field := b[2..2 + n];
    assert PackUint16(field)[..2] == Be16(n);
    assert Be16(n) == b[..2] by {
      BeTwo(Be16(n));
    }
    assert b == b[..2] + field + b[2 + n..];
  }

  /** `sni(host)` as written: the extension type 00 00, then three nested
      16-bit length prefixes around `00 ++ host`. */
  function Sni(host: Bytes): Bytes
    requires |host| + 5 < 0x1_0000
  {
    [0, 0] + PackUint16(PackUint16(PackUint16([0] + host)))
  }

  lemma SniLayout(host: Bytes)
    requires |host| + 5 < 0x1_0000
    ensures var r := Sni(host);
      && |r| == |host| + 9
      && r[..2] == [0, 0]
      && Be(r[2..4]) == |host| + 5
      && Be(r[4..6]) == |host| + 3
      && Be(r[6..8]) == |host| + 1
      && r[|r| - |host| - 1..] == [0] + host
  {
    SniFlat(host);
    FieldsAt([0, 0], Be16(|host| + 5), Be16(|host| + 3), Be16(|host| + 1), [0] + host);
  }

  lemma SniFlat(host: Bytes)
    requires |host| + 5 < 0x1_0000
    ensures Sni(host) == [0, 0] + Be16(|host| + 5) + Be16(|host| + 3) + Be16(|host| + 1) + ([0] + host)
  {
  }

  /** The slices of a concatenation of two 2-byte fields and a third field
      between a 2-byte head and a tail. */
  lemma FieldsAt(head: Bytes, x: Bytes, y: Bytes, z: Bytes, tail: Bytes)
    requires |head| == |x| == |y| == 2
    ensures var r := head + x + y + z + tail;
      && |r| == 6 + |z| + |tail|
      && r[..2] == head && r[2..4] == x && r[4..6] == y && r[6..6 + |z|] == z
      && r[6 + |z|..] == tail
  {
  }

  /** The server_name extension of section 3 of RFC 6066 holding one
      host_name entry: type 00 00, extension length, list length, name_type 0,
      host name length, host name. */
  function SniExtension(host: Bytes): Bytes
    requires |host| + 5 < 0x1_0000
  {
    [0, 0] + PackUint16(PackUint16([0] + PackUint16(host)))
  }

  lemma SniExtensionLayout(host: Bytes)
    requires |host| + 5 < 0x1_0000
    ensures var r := SniExtension(host);
      && |r| == |host| + 9
      && r[..2] == [0, 0]
      && Be(r[2..4]) == |r| - 4
      && Be(r[4..6]) == |r| - 6
      && r[6] == 0
      && Be(r[7..9]) == |host|
      && r[9..] == host
  {
    SniExtensionFlat(host);
    FieldsAt([0, 0], Be16(|host| + 5), Be16(|host| + 3), [0] + Be16(|host|), host);
    var r := SniExtension(host);
    assert r[7..9] == r[6..9][1..];
  }

  lemma SniExtensionFlat(host: Bytes)
    requires |host| + 5 < 0x1_0000
    ensures SniExtension(host) == [0, 0] + Be16(|host| + 5) + Be16(|host| + 3) + ([0] + Be16(|host|)) + host
  {
  }

  /** `sni` places the 16-bit length before the name_type byte instead of
      after it: the two encodings agree on every byte except offsets 6 to 8,
      and there they always differ. */
  lemma SniMisplacesNameType(host: Bytes)
    requires |host| + 5 < 0x1_0000
    ensures var r := Sni(host); var e := SniExtension(host);
      && |r| == |e|
      && r[..6] == e[..6]
      && r[9..] == e[9..] == host
      && r[6..9] == Be16(|host| + 1) + [0]
      && e[6..9] == [0] + Be16(|host|)
      && r != e
  {
    var n := |host|;
    SniFlat(host);
    SniExtensionFlat(host);
    FieldsAt([0, 0], Be16(n + 5), Be16(n + 3), Be16(n + 1), [0] + host);
    FieldsAt([0, 0], Be16(n + 5), Be16(n + 3), [0] + Be16(n), host);
    SplitAtSix([0, 0], Be16(n + 5), Be16(n + 3), Be16(n + 1), [0] + host);
    SplitAtSix([0, 0], Be16(n + 5), Be16(n + 3), [0] + Be16(n), host);
    assert Sni(host)[6..9] == Be16(n + 1) + [0] by {
      TwoThenOne(Sni(host)[6..], Be16(n + 1), [0] + host);
    }
    assert SniExtension(host)[6..9] == [0] + Be16(n) by {
      FirstThree(SniExtension(host)[6..], [0] + Be16(n), host);
    }
    MisplacedDiffers(n);
  }

  lemma SplitAtSix(head: Bytes, x: Bytes, y: Bytes, z: Bytes, tail: Bytes)
    requires |head| == |x| == |y| == 2
    ensures var r := head + x + y + z + tail;
      r[..6] == head + x + y && r[6..] == z + tail
  {
  }

  lemma TwoThenOne(q: Bytes, z: Bytes, b: Bytes)
    requires |z| == 2 && |b| >= 1 && q == z + b
    ensures q[..3] == z + [b[0]] && |q| >= 3
  {
  }

  lemma FirstThree(q: Bytes, a: Bytes, b: Bytes)
    requires |a| == 3 && q == a + b
    ensures q[..3] == a && |q| >= 3
  {
  }

  /** A length field followed by the name_type byte never matches the
      name_type byte followed by a length field. */
  lemma MisplacedDiffers(n: nat)
    requires n + 1 < 0x1_0000
    ensures Be16(n + 1) + [0] != [0] + Be16(n)
  {
    var a := Be16(n + 1) + [0];
    var b := [0] + Be16(n);
    if a == b {
      assert a[0] == b[0] && a[1] == b[1] && a[2] == b[2];
      BeTwo(Be16(n + 1));
      BeTwo(Be16(n));
      assert false;
    }
  }

  /** The as-written encoding for the one-byte host name "a". */
  lemma SniExample()
    ensures Sni([0x61]) == [0, 0, 0, 6, 0, 4, 0, 2, 0, 0x61]
    ensures SniExtension([0x61]) == [0, 0, 0, 6, 0, 4, 0, 0, 1, 0x61]
  {
  }
}
