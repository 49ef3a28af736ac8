/** The Merkle-Patricia proof verifier of the execution client. */
module Proof {
  import opened Rlp
  import opened HexPrefix
  import opened Trie

  /** `Aborted` stands for the inputs on which the verifier returns no answer: a
      nibble is read past the end of the path, or a node whose hash was expected
      is not an RLP list of byte strings. */
  datatype Verdict = Accepted | Rejected | Aborted

  /*** Empty values ***/

  /** The digest of the empty trie. */
  const EMPTY_STORAGE_HASH: Bytes := [
    0x56, 0xe8, 0x1f, 0x17, 0x1b, 0xcc, 0x55, 0xa6, 0xff, 0x83, 0x45, 0xe6, 0x92, 0xc0, 0xf8, 0x6e,
    0x5b, 0x48, 0xe0, 0x1b, 0x99, 0x6c, 0xad, 0xc0, 0x01, 0x62, 0x2f, 0xb5, 0xe3, 0x63, 0xb4, 0x21]

  /** The digest of the empty byte string. */
  const EMPTY_CODE_HASH: Bytes := [
    0xc5, 0xd2, 0x46, 0x01, 0x86, 0xf7, 0x23, 0x3c, 0x92, 0x7e, 0x7d, 0xb2, 0xdc, 0xc7, 0x03, 0xc0,
    0xe5, 0x00, 0xb6, 0x53, 0xca, 0x82, 0x27, 0x3b, 0x7b, 0xfa, 0xd8, 0x04, 0x5d, 0x85, 0xa4, 0x70]

  /** The RLP of a four-item account. Numbers are big-endian without leading
      zeros. */
  function EncodeAccount(nonce: nat, balance: nat, storageHash: Bytes, codeHash: Bytes): Bytes {
    Encode(AccountItem(nonce, balance, storageHash, codeHash))
  }

  function AccountItem(nonce: nat, balance: nat, storageHash: Bytes, codeHash: Bytes): Item {
    List([Str(ToBigEndian(nonce)), Str(ToBigEndian(balance)), Str(storageHash), Str(codeHash)])
  }

  predicate IsEmptyValue(value: Bytes) {
    var isEmptySlot := |value| == 1 && value[0] == 0x80;
    var isEmptyAccount := value == EncodeAccount(0, 0, EMPTY_STORAGE_HASH, EMPTY_CODE_HASH);
    isEmptySlot || isEmptyAccount
  }

  /*** Verdicts ***/

  /** The verdict on `proof`, read against the digest `expected` and the nibbles
      `rest` of the key that are still to be matched. */
  function Check(keccak: Digest, proof: seq<Bytes>, expected: Bytes, rest: Path, value: Bytes): Verdict {
    if proof == [] || expected != keccak(proof[0]) then Rejected
    else
      match DecodeList(proof[0])
      case None => Aborted
      case Some(items) =>
        if |items| == 17 then
          if rest == [] then Aborted
          else if |proof| > 1 then Check(keccak, proof[1..], items[rest[0]], rest[1..], value)
          else if items[rest[0]] == [] && IsEmptyValue(value) then Accepted
          else Rejected
        else if |items| == 2 then
          var path := DecodedPath(items[0]);
          if |proof| > 1 then
            if path <= rest then Check(keccak, proof[1..], items[1], rest[|path|..], value) else Rejected
          else if path != rest && IsEmptyValue(value) then Accepted
          else if items[1] == value && path == rest then Accepted
          else Rejected
        else Rejected
  }

  /** The verifier's loop. Its running digest and path offset always leave the
      verdict of the remaining nodes equal to the verdict of the whole proof. */
  method VerifyProof(keccak: Digest, proof: seq<Bytes>, root: Bytes, path: Bytes, value: Bytes)
    returns (verdict: Verdict)
    ensures verdict == Check(keccak, proof, root, Nibbles(path), value)
  {
    var expectedHash := root;
    var pathOffset := 0;
    for i := 0 to |proof|
      invariant pathOffset <= 2 * |path|
      invariant Check(keccak, proof, root, Nibbles(path), value)
             == Check(keccak, proof[i..], expectedHash, Nibbles(path)[pathOffset..], value)
    {
      var node := proof[i];
      ghost var rest := Nibbles(path)[pathOffset..];
      assert proof[i..][1..] == proof[i + 1..];
      if expectedHash != keccak(node) {
        return Rejected;
      }
      var decoded := DecodeList(node);
      if decoded.None? {
        return Aborted;
      }
      var nodeList := decoded.value;
      if |nodeList| == 17 {
        if pathOffset == 2 * |path| {
          return Aborted;
        }
        var nibble := GetNibble(path, pathOffset);
        assert nibble == rest[0];
        if i == |proof| - 1 {
          if nodeList[nibble] == [] && IsEmptyValue(value) {
            return Accepted;
          }
        } else {
          expectedHash := nodeList[nibble];
          pathOffset := pathOffset + 1;
          assert rest[1..] == Nibbles(path)[pathOffset..];
        }
      } else if |nodeList| == 2 {
        ghost var nodePath := DecodedPath(nodeList[0]);
        if i == |proof| - 1 {
          var same := PathsMatch(nodeList[0], SkipLength(nodeList[0]), path, pathOffset);
          if !same && IsEmptyValue(value) {
            return Accepted;
          }
          if nodeList[1] == value {
            same := PathsMatch(nodeList[0], SkipLength(nodeList[0]), path, pathOffset);
            return if same then Accepted else Rejected;
          }
        } else {
          var prefixLength := SharedPrefixLength(path, pathOffset, nodeList[0]);
          if prefixLength < 2 * |nodeList[0]| - SkipLength(nodeList[0]) {
            assert !(nodePath <= rest);
            return Rejected;
          }
          assert prefixLength == |nodePath| && nodePath == rest[..prefixLength];
          pathOffset := pathOffset + prefixLength;
          expectedHash := nodeList[1];
          assert rest[prefixLength..] == Nibbles(path)[pathOffset..];
        }
      } else {
        return Rejected;
      }
    }
    return Rejected;
  }
}
