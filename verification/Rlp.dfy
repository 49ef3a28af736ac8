/** Bytes, big-endian numbers and the recursive length prefix encoding of
    Appendix B of the Yellow Paper. */
module Rlp {
  import opened Results

  type Byte = x: int | 0 <= x < 256

  type Bytes = seq<Byte>

  /** The payload length at which Appendix B stops defining an encoding. */
  const LENGTH_LIMIT: nat := 0x1_0000_0000_0000_0000

  /*** Big-endian numbers ***/

  function ToBigEndian(n: nat): (b: Bytes)
    ensures n == 0 <==> b == []
    ensures b != [] ==> b[0] != 0
  {
    if n == 0 then [] else ToBigEndian(n / 256) + [n % 256]
  }

  function FromBigEndian(b: Bytes): nat {
    if b == [] then 0 else FromBigEndian(b[..|b| - 1]) * 256 + b[|b| - 1]
  }

  lemma {:induction false} BigEndianRoundTrip(n: nat)
    ensures FromBigEndian(ToBigEndian(n)) == n
  {
    if n != 0 {
      BigEndianRoundTrip(n / 256);
      var b := ToBigEndian(n);
      assert b[..|b| - 1] == ToBigEndian(n / 256);
    }
  }

  function Pow256(k: nat): (n: nat)
    ensures n > 0
  {
    if k == 0 then 1 else 256 * Pow256(k - 1)
  }

  lemma {:induction false} BigEndianLength(n: nat, k: nat)
    requires n < Pow256(k)
    ensures |ToBigEndian(n)| <= k
  {
    if n != 0 {
      BigEndianLength(n / 256, k - 1);
    }
  }

  lemma LengthOfLength(n: nat)
    requires n < LENGTH_LIMIT
    ensures |ToBigEndian(n)| <= 8
  {
    assert Pow256(8) == 256 * (256 * (256 * (256 * (256 * (256 * (256 * (256 * Pow256(0))))))));
    BigEndianLength(n, 8);
  }

  /*** Encoding ***/

  datatype Item = Str(bytes: Bytes) | List(items: seq<Item>)

  /** The length prefix of a payload. `base` is 0x80 for strings and 0xc0 for
      lists. Payloads of LENGTH_LIMIT bytes or more have no encoding; the value
      given to them here is never relied on. */
  function Header(base: Byte, len: nat): Bytes
    requires base == 0x80 || base == 0xc0
  {
    if len <= 55 then [base + len]
    else
      var be := ToBigEndian(len);
      if |be| <= 8 then [base + 55 + |be|] + be else []
  }

  function Encode(x: Item): Bytes {
    match x
    case Str(b) => if |b| == 1 && b[0] < 0x80 then b else Header(0x80, |b|) + b
    case List(items) =>
      var payload := EncodeAll(items);
      Header(0xc0, |payload|) + payload
  }

  function EncodeAll(items: seq<Item>): Bytes {
    if items == [] then [] else Encode(items[0]) + EncodeAll(items[1..])
  }

  /** Every string and every list payload inside `x` is below the length limit. */
  predicate Encodable(x: Item) {
    match x
    case Str(b) => |b| < LENGTH_LIMIT
    case List(items) => AllEncodable(items) && |EncodeAll(items)| < LENGTH_LIMIT
  }

  predicate AllEncodable(items: seq<Item>) {
    items == [] || (Encodable(items[0]) && AllEncodable(items[1..]))
  }

  /*** Decoding ***/

  /** Where the payload of the first item of a byte string lies. */
  datatype Span = Span(isList: bool, offset: nat, len: nat)

  /** The long form of a length: `n` big-endian bytes without a leading zero,
      giving a length that the short form could not carry. */
  function LongSpan(b: Bytes, isList: bool, n: nat): Option<Span>
    requires b != []
  {
    if |b| < 1 + n || n == 0 || b[1] == 0 then None
    else
      var len := FromBigEndian(b[1..1 + n]);
      if len <= 55 then None else Some(Span(isList, 1 + n, len))
  }

  function Prefix(b: Bytes): Option<Span> {
    if b == [] then None
    else if b[0] < 0x80 then Some(Span(false, 0, 1))
    else if b[0] <= 0xb7 then
      if b[0] == 0x81 && |b| > 1 && b[1] < 0x80 then None
      else Some(Span(false, 1, b[0] - 0x80))
    else if b[0] <= 0xbf then LongSpan(b, false, b[0] - 0xb7)
    else if b[0] <= 0xf7 then Some(Span(true, 1, b[0] - 0xc0))
    else LongSpan(b, true, b[0] - 0xf7)
  }

  datatype Parsed = Parsed(item: Item, rest: Bytes)

  /** The first item of `b`, with what follows it. */
  function DecodeItem(b: Bytes): (p: Option<Parsed>)
    ensures p.Some? ==> |p.value.rest| < |b|
    decreases |b|, 0
  {
    match Prefix(b)
    case None => None
    case Some(Span(isList, offset, len)) =>
      if offset + len > |b| || offset + len == 0 then None
      else
        var payload, rest := b[offset..offset + len], b[offset + len..];
        if !isList then Some(Parsed(Str(payload), rest))
        else if offset == 0 then None
        else
          match DecodeAll(payload)
          case None => None
          case Some(items) => Some(Parsed(List(items), rest))
  }

  function DecodeAll(b: Bytes): Option<seq<Item>>
    decreases |b|, 1
  {
    if b == [] then Some([])
    else
      match DecodeItem(b)
      case None => None
      case Some(Parsed(item, rest)) =>
        match DecodeAll(rest)
        case None => None
        case Some(items) => Some([item] + items)
  }

  /** A list of byte strings, as the proof verifier reads its nodes. Bytes after
      the list are ignored. */
  function DecodeList(b: Bytes): Option<seq<Bytes>> {
    match DecodeItem(b)
    case Some(Parsed(List(items), _)) => Strings(items)
    case _ => None
  }

  function Strings(items: seq<Item>): Option<seq<Bytes>> {
    if items == [] then Some([])
    else if items[0].List? then None
    else
      match Strings(items[1..])
      case None => None
      case Some(rest) => Some([items[0].bytes] + rest)
  }

  /*** Round trip ***/

  lemma PrefixOfHeader(base: Byte, payload: Bytes, tail: Bytes)
    requires base == 0x80 || base == 0xc0
    requires |payload| < LENGTH_LIMIT
    requires base == 0x80 && |payload| == 1 ==> payload[0] >= 0x80
    ensures Header(base, |payload|) != []
    ensures Prefix(Header(base, |payload|) + payload + tail)
         == Some(Span(base == 0xc0, |Header(base, |payload|)|, |payload|))
  {
    var len := |payload|;
    var b := Header(base, len) + payload + tail;
    if len <= 55 {
      assert b[0] == base + len;
      if len == 1 { assert b[1] == payload[0]; }
    } else {
      LengthOfLength(len);
      var be := ToBigEndian(len);
      assert b[0] == base + 55 + |be|;
      assert b == [b[0]] + be + (payload + tail);
      LongSpanOfHeader(b, be, payload + tail, base == 0xc0, len);
    }
  }

  lemma LongSpanOfHeader(b: Bytes, be: Bytes, tail: Bytes, isList: bool, len: nat)
    requires b != [] && b == [b[0]] + be + tail
    requires len > 55 && be == ToBigEndian(len)
    ensures LongSpan(b, isList, |be|) == Some(Span(isList, 1 + |be|, len))
  {
    assert b[1..1 + |be|] == be;
    BigEndianRoundTrip(len);
  }

  lemma {:induction false} DecodeEncode(x: Item, tail: Bytes)
    requires Encodable(x)
    ensures Encode(x) != []
    ensures DecodeItem(Encode(x) + tail) == Some(Parsed(x, tail))
    decreases x, 0
  {
    match x
    case Str(s) =>
      if |s| == 1 && s[0] < 0x80 {
        var b := s + tail;
        assert b[0..1] == s && b[1..] == tail;
      } else {
        SplitEncoding(0x80, s, tail);
      }
    case List(items) =>
      var payload := EncodeAll(items);
      SplitEncoding(0xc0, payload, tail);
      DecodeEncodeAll(items);
  }

  lemma SplitEncoding(base: Byte, payload: Bytes, tail: Bytes)
    requires base == 0x80 || base == 0xc0
    requires |payload| < LENGTH_LIMIT
    requires base == 0x80 && |payload| == 1 ==> payload[0] >= 0x80
    ensures
      var h := Header(base, |payload|);
      var b := h + payload + tail;
      && h != []
      && Prefix(b) == Some(Span(base == 0xc0, |h|, |payload|))
      && b[|h|..|h| + |payload|] == payload && b[|h| + |payload|..] == tail
  {
    PrefixOfHeader(base, payload, tail);
  }

  lemma {:induction false} DecodeEncodeAll(items: seq<Item>)
    requires AllEncodable(items)
    ensures DecodeAll(EncodeAll(items)) == Some(items)
    decreases items, 1
  {
    if items != [] {
      DecodeEncode(items[0], EncodeAll(items[1..]));
      DecodeEncodeAll(items[1..]);
      assert [items[0]] + items[1..] == items;
    }
  }

  /** Equal encodings come from equal items. */
  lemma EncodeInjective(x: Item, y: Item)
    requires Encodable(x) && Encodable(y)
    requires Encode(x) == Encode(y)
    ensures x == y
  {
    DecodeEncode(x, []);
    DecodeEncode(y, []);
  }

  /** The bytes of a list of strings. */
  function StringItems(strings: seq<Bytes>): seq<Item> {
    seq(|strings|, i requires 0 <= i < |strings| => Str(strings[i]))
  }

  lemma {:induction false} StringsOfItems(strings: seq<Bytes>)
    ensures Strings(StringItems(strings)) == Some(strings)
  {
    if strings != [] {
      StringsOfItems(strings[1..]);
      assert StringItems(strings)[1..] == StringItems(strings[1..]);
      assert [strings[0]] + strings[1..] == strings;
    }
  }

  /** Reading back a list of strings returns those strings. */
  lemma DecodeListRoundTrip(strings: seq<Bytes>)
    requires Encodable(List(StringItems(strings)))
    ensures DecodeList(Encode(List(StringItems(strings)))) == Some(strings)
  {
    var x := List(StringItems(strings));
    DecodeEncode(x, []);
    assert Encode(x) + [] == Encode(x);
    StringsOfItems(strings);
  }

  /** A list starts with a byte that no string and no transaction type starts with. */
  lemma ListStart(items: seq<Item>)
    requires Encodable(List(items))
    ensures Encode(List(items)) != [] && Encode(List(items))[0] >= 0xc0
  {
    LengthOfLength(|EncodeAll(items)|);
  }

  /** A few short strings can be encoded, and how long the encoding gets. */
  lemma StringsEncodable(strings: seq<Bytes>)
    requires |strings| <= 17
    requires forall i :: 0 <= i < |strings| ==> |strings[i]| <= 200
    ensures Encodable(List(StringItems(strings)))
    ensures |EncodeAll(StringItems(strings))| <= 209 * |strings|
  {
    StringsLength(strings, 200);
  }

  lemma StringLength(s: Bytes)
    requires |s| < LENGTH_LIMIT
    ensures |Encode(Str(s))| <= |s| + 9
  {
    LengthOfLength(|s|);
  }

  lemma {:induction false} StringsLength(strings: seq<Bytes>, m: nat)
    requires m < LENGTH_LIMIT && forall i :: 0 <= i < |strings| ==> |strings[i]| <= m
    ensures AllEncodable(StringItems(strings))
    ensures |EncodeAll(StringItems(strings))| <= (m + 9) * |strings|
  {
    if strings != [] {
      assert StringItems(strings)[1..] == StringItems(strings[1..]);
      StringsLength(strings[1..], m);
      StringLength(strings[0]);
      OneMore(m + 9, |strings|);
    }
  }

  lemma OneMore(a: nat, n: nat)
    requires n > 0
    ensures a * n == a * (n - 1) + a
  {
  }

  /** A list is at least as long as the encoding of any of its strings. */
  lemma {:induction false} StringInside(strings: seq<Bytes>, i: nat)
    requires i < |strings|
    ensures |Encode(Str(strings[i]))| <= |EncodeAll(StringItems(strings))| <= |Encode(List(StringItems(strings)))|
  {
    assert StringItems(strings)[1..] == StringItems(strings[1..]);
    if i > 0 {
      StringInside(strings[1..], i - 1);
    }
  }

  /** Encodings that the definition fixes: short and long strings and lists, single
      bytes and numbers. */
  lemma KnownEncodings()
    ensures Encode(Str([])) == [0x80] && Encode(Str([0x7f])) == [0x7f] && Encode(Str([0x80])) == [0x81, 0x80]
    ensures Encode(Str([100, 111, 103])) == [0x83, 100, 111, 103]
    ensures Encode(List([])) == [0xc0]
    ensures Encode(List([Str([99]), Str([1, 2])])) == [0xc4, 99, 0x82, 1, 2]
    ensures ToBigEndian(0) == [] && ToBigEndian(15) == [15] && ToBigEndian(1024) == [4, 0]
  {
    assert EncodeAll([]) == [];
    assert [Str([99]), Str([1, 2])][1..] == [Str([1, 2])] && [Str([1, 2])][1..] == [];
    assert EncodeAll([Str([1, 2])]) == [0x82, 1, 2];
    assert ToBigEndian(4) == [4];
  }

  lemma KnownHeaders(base: Byte)
    requires base == 0x80 || base == 0xc0
    ensures Header(base, 55) == [base + 55]
    ensures Header(base, 56) == [base + 56, 56]
    ensures Header(base, 1024) == [base + 57, 4, 0]
  {
    assert ToBigEndian(56) == [56] && ToBigEndian(4) == [4];
  }
}
