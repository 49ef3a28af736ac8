/** Nibble paths and the hex-prefix encoding of Appendix C of the Yellow Paper,
    with the nibble routines the proof verifier reads them by. */
module HexPrefix {
  import opened Rlp

  type Nibble = x: int | 0 <= x < 16

  type Path = seq<Nibble>

  function GetNibble(path: Bytes, offset: nat): Nibble
    requires offset < 2 * |path|
  {
    if offset % 2 == 0 then path[offset / 2] / 16 else path[offset / 2] % 16
  }

  function Nibbles(b: Bytes): (p: Path)
    ensures |p| == 2 * |b|
  {
    seq(2 * |b|, i requires 0 <= i < 2 * |b| => GetNibble(b, i))
  }

  /** The number of leading nibbles of a node path that hold its flag. */
  function SkipLength(node: Bytes): (n: nat)
    ensures n <= 2 * |node|
  {
    if node == [] then 0
    else
      match GetNibble(node, 0)
      case 0 => 2
      case 1 => 1
      case 2 => 2
      case 3 => 1
      case _ => 0
  }

  /** The nibbles a node path stands for, its flag removed. */
  function DecodedPath(node: Bytes): Path {
    Nibbles(node)[SkipLength(node)..]
  }

  /** Does the flag of a node path mark an extension rather than a leaf? */
  predicate MarksExtension(node: Bytes) {
    node != [] && GetNibble(node, 0) < 2
  }

  /*** Appendix C ***/

  function Join(high: Nibble, low: Nibble): Byte {
    (high as int) * 16 + low as int
  }

  function Pack(p: Path): Bytes
    requires |p| % 2 == 0
  {
    seq(|p| / 2, i requires 0 <= i < |p| / 2 => Join(p[2 * i], p[2 * i + 1]))
  }

  function HexPrefixEncode(p: Path, leaf: bool): Bytes {
    var flag := if leaf then 2 else 0;
    if |p| % 2 == 0 then [16 * flag] + Pack(p)
    else [Join(flag + 1, p[0])] + Pack(p[1..])
  }

  /** Skipping the flag and reading nibbles recovers exactly the encoded path,
      and the flag recovers the node kind. */
  lemma HexPrefixRoundTrip(p: Path, leaf: bool)
    ensures DecodedPath(HexPrefixEncode(p, leaf)) == p
    ensures MarksExtension(HexPrefixEncode(p, leaf)) <==> !leaf
  {
    var b := HexPrefixEncode(p, leaf);
    var flag := if leaf then 2 else 0;
    if |p| % 2 == 0 {
      assert GetNibble(b, 0) == flag;
      PackedNibbles([16 * flag], p);
    } else {
      assert GetNibble(b, 0) == flag + 1;
      PackedNibbles([Join(flag + 1, p[0])], p[1..]);
      assert p == [p[0]] + p[1..];
      assert Nibbles(b)[1..] == [p[0]] + Nibbles(b)[2..];
    }
  }

  /** Packing nibbles after a first byte and reading them back. */
  lemma PackedNibbles(first: Bytes, p: Path)
    requires |first| == 1 && |p| % 2 == 0
    ensures Nibbles(first + Pack(p))[2..] == p
  {
    forall i | 0 <= i < |p|
      ensures Nibbles(first + Pack(p))[2..][i] == p[i]
    {
      PackedAt(first, p, i);
    }
  }

  lemma PackedAt(first: Bytes, p: Path, i: nat)
    requires |first| == 1 && |p| % 2 == 0 && i < |p|
    ensures Nibbles(first + Pack(p))[2 + i] == p[i]
  {
    var b := (first + Pack(p))[1 + i / 2];
    assert b == Join(p[2 * (i / 2)], p[2 * (i / 2) + 1]);
    assert (2 + i) / 2 == 1 + i / 2 && (2 + i) % 2 == i % 2;
    assert i == 2 * (i / 2) + i % 2;
  }

  /** An example for both flags and both parities. */
  lemma KnownPaths()
    ensures HexPrefixEncode([1, 2, 3], false) == [0x11, 0x23]
    ensures HexPrefixEncode([0, 1, 2, 3], false) == [0x00, 0x01, 0x23]
    ensures HexPrefixEncode([15, 1], true) == [0x20, 0xf1]
    ensures HexPrefixEncode([15, 1, 12], true) == [0x3f, 0x1c]
  {
  }

  /** Nothing is skipped of a node path whose first nibble is no flag. */
  lemma UnknownFlag(b: Bytes)
    requires b != [] && b[0] >= 0x40
    ensures DecodedPath(b) == Nibbles(b)
  {
  }

  /*** The loops of the verifier ***/

  method PathsMatch(p1: Bytes, s1: nat, p2: Bytes, s2: nat) returns (same: bool)
    requires s1 <= 2 * |p1| && s2 <= 2 * |p2|
    ensures same <==> Nibbles(p1)[s1..] == Nibbles(p2)[s2..]
  {
    var len1 := 2 * |p1| - s1;
    var len2 := 2 * |p2| - s2;
    if len1 != len2 {
      return false;
    }
    for offset := 0 to len1
      invariant Nibbles(p1)[s1..][..offset] == Nibbles(p2)[s2..][..offset]
    {
      var n1 := GetNibble(p1, s1 + offset);
      var n2 := GetNibble(p2, s2 + offset);
      assert n1 == Nibbles(p1)[s1..][offset] && n2 == Nibbles(p2)[s2..][offset];
      if n1 != n2 {
        return false;
      }
    }
    return true;
  }

  /** `n` is the length of the longest common prefix of `a` and `b`. */
  predicate IsSharedPrefix(a: Path, b: Path, n: nat) {
    && n <= |a| && n <= |b|
    && a[..n] == b[..n]
    && (n < |a| && n < |b| ==> a[n] != b[n])
  }

  method SharedPrefixLength(path: Bytes, pathOffset: nat, nodePath: Bytes) returns (prefixLen: nat)
    requires pathOffset <= 2 * |path|
    ensures IsSharedPrefix(Nibbles(path)[pathOffset..], DecodedPath(nodePath), prefixLen)
  {
    var skip := SkipLength(nodePath);
    var nodeLen, restLen := 2 * |nodePath| - skip, 2 * |path| - pathOffset;
    var len := if nodeLen <= restLen then nodeLen else restLen;
    prefixLen := 0;
    for i := 0 to len
      invariant prefixLen == i
      invariant Nibbles(path)[pathOffset..][..i] == DecodedPath(nodePath)[..i]
    {
      var pathNibble := GetNibble(path, i + pathOffset);
      var nodePathNibble := GetNibble(nodePath, i + skip);
      assert pathNibble == Nibbles(path)[pathOffset..][i];
      assert nodePathNibble == DecodedPath(nodePath)[i];
      if pathNibble == nodePathNibble {
        prefixLen := prefixLen + 1;
      } else {
        break;
      }
    }
  }
}
