/** What the verdicts of the proof verifier mean for the trie behind the root. */
module ProofTheorems {
  import opened Results
  import opened Rlp
  import opened HexPrefix
  import opened Trie
  import opened Proof

  /** Does `proof` stop at an extension whose path is a prefix of what is left
      of the key? This reads nothing but the proof and the key. */
  predicate EndsOpen(proof: seq<Bytes>, rest: Path) {
    if proof == [] then false
    else
      match DecodeList(proof[0])
      case None => false
      case Some(items) =>
        if |items| == 17 then
          rest != [] && EndsOpen(proof[1..], rest[1..])
        else if |items| == 2 then
          var path := DecodedPath(items[0]);
          && path <= rest
          && if |proof| == 1 then MarksExtension(items[0]) else EndsOpen(proof[1..], rest[|path|..])
        else false
  }

  /** How many nibbles of the key the verifier compares. */
  function Examined(proof: seq<Bytes>, rest: Path): (n: nat)
    ensures n <= |rest|
  {
    if proof == [] then 0
    else
      match DecodeList(proof[0])
      case None => 0
      case Some(items) =>
        if |items| == 17 then
          if rest == [] then 0 else 1 + Examined(proof[1..], rest[1..])
        else if |items| == 2 then
          var path := DecodedPath(items[0]);
          if |path| > |rest| then |rest| else |path| + Examined(proof[1..], rest[|path|..])
        else 0
  }

  /** The full meaning of acceptance. A proof of a key is accepted for a value
      when it is the complete walk to the key and the value is what is stored
      there, or stands for nothing and nothing is stored there. The one other
      case is a walk broken off at an extension, accepted for an empty value
      whatever lies below. */
  ghost predicate Justified(keccak: Digest, t: Trie, proof: seq<Bytes>, key: Path, value: Bytes) {
    || (proof == Walk(keccak, t, key)
        && (Lookup(t, key) == Some(value) || (Lookup(t, key) == None && IsEmptyValue(value))))
    || (proof < Walk(keccak, t, key) && EndsOpen(proof, key) && IsEmptyValue(value))
  }

  /** The verifier accepts exactly the justified proofs, and against the root of
      a non-empty trie it always gives an answer: no nibble is read out of range
      and no undecodable node is reached. */
  lemma {:induction false} VerdictExact(keccak: Digest, t: Trie, proof: seq<Bytes>, key: Path, value: Bytes)
    requires Digests32(keccak) && !t.Empty?
    requires WellFormed(keccak, t, |key|) && BindsAll(keccak, t, proof)
    ensures Check(keccak, proof, RootHash(keccak, t), key, value)
         == if Justified(keccak, t, proof, key, value) then Accepted else Rejected
    ensures proof == Walk(keccak, t, key) ==> !EndsOpen(proof, key)
    decreases t, 1
  {
    if proof == [] || RootHash(keccak, t) != keccak(proof[0]) {
      assert Walk(keccak, t, key)[0] == EncodeNode(keccak, t);
    } else {
      assert Binds(keccak, t, proof[0]);
      DecodeNode(keccak, t, |key|);
      match t
      case Leaf(path, stored) => LeafVerdict(keccak, t, proof, key, value);
      case Extension(path, child) => ExtensionVerdict(keccak, t, proof, key, value);
      case Branch(children) => BranchVerdict(keccak, t, proof, key, value);
    }
  }

  /** The situation of VerdictExact once the first node's hash has matched. */
  ghost predicate AtNode(keccak: Digest, t: Trie, proof: seq<Bytes>, key: Path) {
    && Digests32(keccak) && !t.Empty?
    && WellFormed(keccak, t, |key|) && BindsAll(keccak, t, proof)
    && proof != [] && proof[0] == EncodeNode(keccak, t)
    && DecodeList(proof[0]) == Some(NodeItems(keccak, t))
  }

  lemma LeafVerdict(keccak: Digest, t: Trie, proof: seq<Bytes>, key: Path, value: Bytes)
    requires AtNode(keccak, t, proof, key) && t.Leaf?
    ensures Check(keccak, proof, RootHash(keccak, t), key, value)
         == if Justified(keccak, t, proof, key, value) then Accepted else Rejected
    ensures proof == Walk(keccak, t, key) ==> !EndsOpen(proof, key)
  {
    HexPrefixRoundTrip(t.path, true);
    if |proof| > 1 {
      assert Binds(keccak, t, proof[1]);
    } else {
      assert proof == [proof[0]];
    }
  }

  lemma {:induction false} ExtensionVerdict(keccak: Digest, t: Trie, proof: seq<Bytes>, key: Path, value: Bytes)
    requires AtNode(keccak, t, proof, key) && t.Extension?
    ensures Check(keccak, proof, RootHash(keccak, t), key, value)
         == if Justified(keccak, t, proof, key, value) then Accepted else Rejected
    ensures proof == Walk(keccak, t, key) ==> !EndsOpen(proof, key)
    decreases t, 0
  {
    var child := t.child;
    if !(t.path <= key) {
      DivergingExtension(keccak, t, proof, key, value);
    } else {
      var rest := key[|t.path|..];
      if |proof| > 1 {
        ExtensionStep(keccak, t, proof, key, value);
        JustifiedStep(keccak, t, child, proof, key, rest, value);
        ChildBinds(keccak, t, child, proof);
        VerdictExact(keccak, child, proof[1..], rest, value);
      } else {
        BrokenOff(keccak, t, proof, key, value);
      }
    }
  }

  lemma BrokenOff(keccak: Digest, t: Trie, proof: seq<Bytes>, key: Path, value: Bytes)
    requires AtNode(keccak, t, proof, key) && t.Extension? && t.path <= key && |proof| == 1
    ensures Check(keccak, proof, RootHash(keccak, t), key, value)
         == if Justified(keccak, t, proof, key, value) then Accepted else Rejected
    ensures proof != Walk(keccak, t, key)
  {
    ExtensionStep(keccak, t, proof, key, value);
    assert proof == [proof[0]];
    assert Walk(keccak, t.child, key[|t.path|..]) != [];
  }

  lemma DivergingExtension(keccak: Digest, t: Trie, proof: seq<Bytes>, key: Path, value: Bytes)
    requires AtNode(keccak, t, proof, key) && t.Extension? && !(t.path <= key)
    ensures Check(keccak, proof, RootHash(keccak, t), key, value)
         == if Justified(keccak, t, proof, key, value) then Accepted else Rejected
    ensures !EndsOpen(proof, key)
  {
    HexPrefixRoundTrip(t.path, false);
    assert |proof| == 1 ==> proof == [proof[0]];
  }

  /** What an extension the key follows contributes to verdict, walk, lookup and
      openness. */
  lemma ExtensionStep(keccak: Digest, t: Trie, proof: seq<Bytes>, key: Path, value: Bytes)
    requires AtNode(keccak, t, proof, key) && t.Extension? && t.path <= key
    ensures
      var child, rest := t.child, key[|t.path|..];
      && Check(keccak, proof, RootHash(keccak, t), key, value)
         == (if |proof| > 1 then Check(keccak, proof[1..], RootHash(keccak, child), rest, value)
             else if IsEmptyValue(value) then Accepted else Rejected)
      && Walk(keccak, t, key) == [proof[0]] + Walk(keccak, child, rest)
      && Lookup(t, key) == Lookup(child, rest)
      && EndsOpen(proof, key) == (|proof| == 1 || EndsOpen(proof[1..], rest))
  {
    HexPrefixRoundTrip(t.path, false);
  }

  lemma {:induction false} BranchVerdict(keccak: Digest, t: Trie, proof: seq<Bytes>, key: Path, value: Bytes)
    requires AtNode(keccak, t, proof, key) && t.Branch?
    ensures Check(keccak, proof, RootHash(keccak, t), key, value)
         == if Justified(keccak, t, proof, key, value) then Accepted else Rejected
    ensures proof == Walk(keccak, t, key) ==> !EndsOpen(proof, key)
    decreases t, 0
  {
    var child, rest := t.children[key[0]], key[1..];
    BranchStep(keccak, t, proof, key, value);
    if |proof| > 1 {
      JustifiedStep(keccak, t, child, proof, key, rest, value);
      if child.Empty? {
        assert |keccak(proof[1])| == 32;
      } else {
        ChildBinds(keccak, t, child, proof);
        VerdictExact(keccak, child, proof[1..], rest, value);
      }
    } else {
      assert proof == [proof[0]];
      assert |RootHash(keccak, child)| == 32;
    }
  }

  /** What one branch contributes to verdict, walk, lookup and openness. */
  lemma BranchStep(keccak: Digest, t: Trie, proof: seq<Bytes>, key: Path, value: Bytes)
    requires AtNode(keccak, t, proof, key) && t.Branch?
    ensures key != [] && key[0] < |t.children|
    ensures
      var child, rest := t.children[key[0]], key[1..];
      var link := if child.Empty? then [] else RootHash(keccak, child);
      && WellFormed(keccak, child, |rest|)
      && Check(keccak, proof, RootHash(keccak, t), key, value)
         == (if |proof| > 1 then Check(keccak, proof[1..], link, rest, value)
             else if link == [] && IsEmptyValue(value) then Accepted else Rejected)
      && Walk(keccak, t, key) == [proof[0]] + Walk(keccak, child, rest)
      && Lookup(t, key) == Lookup(child, rest)
      && EndsOpen(proof, key) == EndsOpen(proof[1..], rest)
  {
  }

  /** Justification of a proof through one node is justification below it. */
  lemma JustifiedStep(keccak: Digest, t: Trie, child: Trie, proof: seq<Bytes>, key: Path, rest: Path, value: Bytes)
    requires |proof| > 1
    requires Walk(keccak, t, key) == [proof[0]] + Walk(keccak, child, rest)
    requires Lookup(t, key) == Lookup(child, rest)
    requires EndsOpen(proof, key) == EndsOpen(proof[1..], rest)
    ensures Justified(keccak, t, proof, key, value) == Justified(keccak, child, proof[1..], rest, value)
    ensures proof == Walk(keccak, t, key) <==> proof[1..] == Walk(keccak, child, rest)
  {
    assert proof == [proof[0]] + proof[1..];
    assert Walk(keccak, t, key)[1..] == Walk(keccak, child, rest);
  }

  predicate IsChild(c: Trie, t: Trie) {
    match t
    case Extension(_, child) => c == child
    case Branch(children) => c in children
    case _ => false
  }

  lemma ChildBinds(keccak: Digest, t: Trie, child: Trie, proof: seq<Bytes>)
    requires BindsAll(keccak, t, proof) && proof != [] && IsChild(child, t)
    ensures BindsAll(keccak, child, proof[1..])
  {
    forall i | 0 <= i < |proof[1..]|
      ensures Binds(keccak, child, proof[1..][i])
    {
      assert Binds(keccak, t, proof[i + 1]);
    }
  }

  /*** Inclusion, exclusion, completeness ***/

  /** A non-empty value is accepted only if the trie binds exactly this key to
      exactly this value. */
  lemma InclusionSound(keccak: Digest, t: Trie, proof: seq<Bytes>, key: Path, value: Bytes)
    requires Digests32(keccak) && !t.Empty?
    requires WellFormed(keccak, t, |key|) && BindsAll(keccak, t, proof)
    requires Check(keccak, proof, RootHash(keccak, t), key, value) == Accepted
    requires !IsEmptyValue(value)
    ensures Lookup(t, key) == Some(value)
  {
    VerdictExact(keccak, t, proof, key, value);
  }

  /** An empty value is accepted only if the key is absent or bound to that very
      encoding, unless the proof stops at an open extension. */
  lemma ExclusionSound(keccak: Digest, t: Trie, proof: seq<Bytes>, key: Path, value: Bytes)
    requires Digests32(keccak) && !t.Empty?
    requires WellFormed(keccak, t, |key|) && BindsAll(keccak, t, proof)
    requires Check(keccak, proof, RootHash(keccak, t), key, value) == Accepted
    requires IsEmptyValue(value) && !EndsOpen(proof, key)
    ensures Lookup(t, key) == None || Lookup(t, key) == Some(value)
  {
    VerdictExact(keccak, t, proof, key, value);
  }

  /** The walk to a key is accepted for what is stored there, and for an empty
      value when nothing is. */
  lemma Completeness(keccak: Digest, t: Trie, key: Path, value: Bytes)
    requires Digests32(keccak) && !t.Empty?
    requires WellFormed(keccak, t, |key|) && BindsAll(keccak, t, Walk(keccak, t, key))
    ensures Check(keccak, Walk(keccak, t, key), RootHash(keccak, t), key, value) == Accepted
      <==> (Lookup(t, key) == Some(value) || (Lookup(t, key) == None && IsEmptyValue(value)))
  {
    VerdictExact(keccak, t, Walk(keccak, t, key), key, value);
  }

  /** Nothing can be proved against the root of the empty trie, not even that a
      key is absent: completeness holds exactly for the non-empty tries. */
  lemma EmptyTrieProvesNothing(keccak: Digest, proof: seq<Bytes>, key: Path, value: Bytes)
    requires BindsAll(keccak, Empty, proof)
    ensures Check(keccak, proof, RootHash(keccak, Empty), key, value) != Accepted
  {
    if proof != [] && keccak(proof[0]) == RootHash(keccak, Empty) {
      assert Binds(keccak, Empty, proof[0]);
      DecodeEncode(Str([]), []);
      assert EncodeNode(keccak, Empty) + [] == EncodeNode(keccak, Empty);
    }
  }

  /*** When exclusion is sound ***/

  /** No stored value reads as empty: zero slots and empty accounts are deleted
      from a state trie. */
  ghost predicate StoresNoEmptyValue(t: Trie) {
    match t
    case Empty => true
    case Leaf(_, value) => !IsEmptyValue(value)
    case Extension(_, child) => StoresNoEmptyValue(child)
    case Branch(children) => forall i :: 0 <= i < |children| ==> StoresNoEmptyValue(children[i])
  }

  /** The verdict depends only on the nibbles the verifier has examined. */
  lemma {:induction false} VerdictLocal(keccak: Digest, proof: seq<Bytes>, expected: Bytes,
                                        key: Path, other: Path, value: Bytes)
    requires |key| == |other|
    requires key[..Examined(proof, key)] == other[..Examined(proof, key)]
    ensures Check(keccak, proof, expected, other, value) == Check(keccak, proof, expected, key, value)
    ensures EndsOpen(proof, other) == EndsOpen(proof, key)
  {
    if proof != [] {
      match DecodeList(proof[0])
      case None =>
      case Some(items) =>
        if |items| == 17 && key != [] {
          assert key[0] == key[..Examined(proof, key)][0] == other[0];
          RestAgrees(proof[1..], key, other, 1);
          VerdictLocal(keccak, proof[1..], items[key[0]], key[1..], other[1..], value);
        } else if |items| == 2 {
          var path := DecodedPath(items[0]);
          if |path| > |key| {
          } else {
            RestAgrees(proof[1..], key, other, |path|);
            assert path <= key <==> path <= other;
            VerdictLocal(keccak, proof[1..], items[1], key[|path|..], other[|path|..], value);
          }
        }
    }
  }

  lemma RestAgrees(proof: seq<Bytes>, key: Path, other: Path, k: nat)
    requires |key| == |other| && k <= |key|
    requires
      var n := k + Examined(proof, key[k..]);
      key[..n] == other[..n]
    ensures key[..k] == other[..k]
    ensures key[k..][..Examined(proof, key[k..])] == other[k..][..Examined(proof, key[k..])]
  {
    var n := k + Examined(proof, key[k..]);
    assert key[..k] == key[..n][..k] && other[..k] == other[..n][..k];
    assert key[k..][..n - k] == key[..n][k..] && other[k..][..n - k] == other[..n][k..];
  }

  lemma {:induction false} StoredIsNotEmpty(t: Trie, key: Path)
    requires StoresNoEmptyValue(t) && Lookup(t, key).Some?
    ensures !IsEmptyValue(Lookup(t, key).value)
  {
    match t
    case Leaf(_, _) =>
    case Extension(path, child) => StoredIsNotEmpty(child, key[|path|..]);
    case Branch(children) => StoredIsNotEmpty(children[key[0]], key[1..]);
  }

  /** The walk to `key` reaches a node after `steps` steps. */
  predicate Goes(t: Trie, key: Path, steps: nat) {
    if steps == 0 then !t.Empty?
    else
      match t
      case Extension(path, child) => path <= key && Goes(child, key[|path|..], steps - 1)
      case Branch(children) =>
        key != [] && key[0] < |children| && Goes(children[key[0]], key[1..], steps - 1)
      case _ => false
  }

  /** How many nibbles those steps consume. */
  function Consumed(t: Trie, key: Path, steps: nat): (n: nat)
    requires Goes(t, key, steps)
    ensures n <= |key|
  {
    if steps == 0 then 0
    else if t.Extension? then |t.path| + Consumed(t.child, key[|t.path|..], steps - 1)
    else 1 + Consumed(t.children[key[0]], key[1..], steps - 1)
  }

  /** Some stored key shares with `key` all the nibbles consumed so far. */
  lemma {:induction false} StoredBelow(t: Trie, key: Path, steps: nat) returns (other: Path)
    requires Shape(t, |key|) && Goes(t, key, steps)
    ensures |other| == |key| && Lookup(t, other).Some?
    ensures other[..Consumed(t, key, steps)] == key[..Consumed(t, key, steps)]
    decreases t
  {
    if steps == 0 {
      other := SomeKey(t, |key|);
    } else {
      var k := if t.Extension? then |t.path| else 1;
      var child := if t.Extension? then t.child else t.children[key[0]];
      var below := StoredBelow(child, key[k..], steps - 1);
      other := key[..k] + below;
      StepBelow(t, key, child, k, below);
      Graft(key, below, k, Consumed(child, key[k..], steps - 1));
    }
  }

  /** A lookup goes through the node above. */
  lemma StepBelow(t: Trie, key: Path, child: Trie, k: nat, below: Path)
    requires k <= |key| && |below| == |key| - k
    requires
      || (t.Extension? && child == t.child && k == |t.path| && t.path <= key)
      || (t.Branch? && key != [] && key[0] < |t.children| && child == t.children[key[0]] && k == 1)
    ensures Lookup(t, key[..k] + below) == Lookup(child, below)
  {
    assert (key[..k] + below)[k..] == below;
  }

  lemma Graft(key: Path, below: Path, k: nat, n: nat)
    requires k + n <= |key| && |below| == |key| - k
    requires below[..n] == key[k..][..n]
    ensures (key[..k] + below)[..k + n] == key[..k + n]
  {
    assert (key[..k] + below)[..k + n] == key[..k] + below[..n];
    assert key[..k + n] == key[..k] + key[k..][..n];
  }

  lemma {:induction false} WalkGoes(keccak: Digest, t: Trie, key: Path, steps: nat)
    requires steps < |Walk(keccak, t, key)|
    ensures Goes(t, key, steps)
    decreases t
  {
    if steps != 0 {
      if t.Extension? {
        WalkGoes(keccak, t.child, key[|t.path|..], steps - 1);
      } else {
        WalkGoes(keccak, t.children[key[0]], key[1..], steps - 1);
      }
    }
  }

  /** A proof that breaks a walk off has examined what its steps consumed. */
  lemma {:induction false} BrokenWalk(keccak: Digest, t: Trie, proof: seq<Bytes>, key: Path)
    requires WellFormed(keccak, t, |key|) && Goes(t, key, |proof|) && proof < Walk(keccak, t, key)
    ensures Examined(proof, key) == Consumed(t, key, |proof|)
    decreases t
  {
    if proof != [] {
      PrefixTail(proof, Walk(keccak, t, key));
      DecodeNode(keccak, t, |key|);
      ExaminedStep(keccak, t, proof, key);
      if t.Extension? {
        BrokenWalk(keccak, t.child, proof[1..], key[|t.path|..]);
      } else {
        BrokenWalk(keccak, t.children[key[0]], proof[1..], key[1..]);
      }
    }
  }

  lemma ExaminedStep(keccak: Digest, t: Trie, proof: seq<Bytes>, key: Path)
    requires proof != [] && Goes(t, key, |proof|)
    requires DecodeList(proof[0]) == Some(NodeItems(keccak, t)) && (t.Branch? ==> |t.children| == 16)
    ensures
      var k := if t.Extension? then |t.path| else 1;
      k <= |key| && Examined(proof, key) == k + Examined(proof[1..], key[k..])
  {
    if t.Extension? {
      HexPrefixRoundTrip(t.path, false);
    }
  }

  lemma PrefixTail(p: seq<Bytes>, walk: seq<Bytes>)
    requires p != [] && p < walk
    ensures p[0] == walk[0] && |walk| > 1 && p[1..] < walk[1..]
  {
  }

  /** Exactly when an accepted exclusion is one: the proof shows that every key
      it cannot tell apart from the given one is absent if and only if it does
      not stop at an open extension. */
  lemma ExclusionExact(keccak: Digest, t: Trie, proof: seq<Bytes>, key: Path, value: Bytes)
    requires Digests32(keccak) && !t.Empty?
    requires WellFormed(keccak, t, |key|) && BindsAll(keccak, t, proof)
    requires StoresNoEmptyValue(t) && IsEmptyValue(value)
    requires Check(keccak, proof, RootHash(keccak, t), key, value) == Accepted
    ensures !EndsOpen(proof, key) <==>
            forall other: Path | |other| == |key| && other[..Examined(proof, key)] == key[..Examined(proof, key)]
              :: Lookup(t, other) == None
  {
    VerdictExact(keccak, t, proof, key, value);
    if EndsOpen(proof, key) {
      WalkGoes(keccak, t, key, |proof|);
      BrokenWalk(keccak, t, proof, key);
      var other := StoredBelow(t, key, |proof|);
    } else {
      forall other: Path | |other| == |key| && other[..Examined(proof, key)] == key[..Examined(proof, key)]
        ensures Lookup(t, other) == None
      {
        VerdictLocal(keccak, proof, RootHash(keccak, t), key, other, value);
        ExclusionSound(keccak, t, proof, other, value);
        if Lookup(t, other).Some? {
          StoredIsNotEmpty(t, other);
        }
      }
    }
  }

  /** An extension node alone is accepted for an empty value, for every longer key,
      and is open for every key below it. */
  lemma LoneExtension(keccak: Digest, t: Trie, key: Path, value: Bytes)
    requires WellFormed(keccak, t, |key|) && t.Extension? && IsEmptyValue(value)
    ensures t.path <= key <==> EndsOpen([EncodeNode(keccak, t)], key)
    ensures Check(keccak, [EncodeNode(keccak, t)], RootHash(keccak, t), key, value) == Accepted
  {
    DecodeNode(keccak, t, |key|);
    HexPrefixRoundTrip(t.path, false);
    LoneNode(keccak, EncodeNode(keccak, t), NodeItems(keccak, t), key, value);
  }

  /** A proof of one two-item node, for an empty value. */
  lemma LoneNode(keccak: Digest, node: Bytes, items: seq<Bytes>, key: Path, value: Bytes)
    requires DecodeList(node) == Some(items) && |items| == 2 && IsEmptyValue(value)
    requires |DecodedPath(items[0])| < |key|
    ensures Check(keccak, [node], keccak(node), key, value) == Accepted
    ensures EndsOpen([node], key) <==> DecodedPath(items[0]) <= key && MarksExtension(items[0])
  {
  }
}
