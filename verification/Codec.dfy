/** The binary form of grammar samples (mutators/grammar/grammar.cpp, BinaryRW,
    EncodeTree, DecodeTree).  A byte is a `char` whose code is below 256, and a size is
    the 64-bit little-endian number that `memcpy` of a `uint64_t` gives. */
module Codec {
  import opened Wrappers
  import opened Trees
  import opened Grammars

  const SIZE_LIMIT: nat := 0x1_0000_0000_0000_0000

  ghost predicate IsBytes(s: string) {
    forall i :: 0 <= i < |s| ==> s[i] as int < 256
  }

  // ---------- Sizes ----------

  function LittleEndian(n: nat, width: nat): (s: string)
    ensures |s| == width
  {
    if width == 0 then "" else [(n % 256) as char] + LittleEndian(n / 256, width - 1)
  }

  function FromLittleEndian(s: string): nat {
    if s == "" then 0 else s[0] as int + 256 * FromLittleEndian(s[1..])
  }

  function Pow256(width: nat): (p: nat)
    ensures p > 0
  {
    if width == 0 then 1 else 256 * Pow256(width - 1)
  }

  lemma {:induction false} ReadsBackSize(n: nat, width: nat)
    requires n < Pow256(width)
    ensures FromLittleEndian(LittleEndian(n, width)) == n
  {
    if width > 0 {
      ReadsBackSize(n / 256, width - 1);
      assert LittleEndian(n, width)[1..] == LittleEndian(n / 256, width - 1);
    }
  }

  lemma DivMod256(low: nat, high: nat)
    requires low < 256
    ensures (low + 256 * high) % 256 == low && (low + 256 * high) / 256 == high
  {
  }

  lemma {:induction false} WritesBackSize(s: string)
    requires IsBytes(s)
    ensures LittleEndian(FromLittleEndian(s), |s|) == s
    ensures FromLittleEndian(s) < Pow256(|s|)
  {
    if s != "" {
      assert forall i :: 0 <= i < |s[1..]| ==> s[1..][i] == s[i + 1];
      WritesBackSize(s[1..]);
      DivMod256(s[0] as int, FromLittleEndian(s[1..]));
      assert s == [s[0]] + s[1..];
    }
  }

  /** The bytes of a number are its digits to base 256, the lowest first. */
  lemma {:induction false} LittleEndianDigit(n: nat, width: nat, k: nat)
    requires k < width
    ensures LittleEndian(n, width)[k] as int == (n / Pow256(k)) % 256
  {
    if k > 0 {
      LittleEndianDigit(n / 256, width - 1, k - 1);
      DivTwice(n, Pow256(k - 1));
    }
  }

  lemma DivTwice(n: nat, m: nat)
    requires m > 0
    ensures n / 256 / m == n / (256 * m)
  {
    var q, r := n / 256, n % 256;
    var a, b := q / m, q % m;
    assert n == 256 * (m * a + b) + r;
    assert n == (256 * m) * a + (256 * b + r) && 0 <= 256 * b + r < 256 * m;
    QuotientIs(n, 256 * m, a, 256 * b + r);
  }

  lemma QuotientIs(n: nat, m: nat, a: nat, rest: nat)
    requires n == m * a + rest && rest < m
    ensures n / m == a
  {
    var q := n / m;
    assert n == m * q + n % m;
    if q < a {
      NextMultiple(m, q, a);
    } else if a < q {
      NextMultiple(m, a, q);
    }
  }

  lemma NextMultiple(m: nat, x: nat, y: nat)
    requires x < y
    ensures m * y >= m * x + m
    decreases y
  {
    OneMore(m, y - 1);
    if x < y - 1 {
      NextMultiple(m, x, y - 1);
    }
  }

  lemma OneMore(m: nat, y: nat)
    ensures m * (y + 1) == m * y + m
  {
  }

  function U64(n: nat): (s: string)
    ensures |s| == 8
  {
    LittleEndian(n, 8)
  }

  lemma Pow256Of8()
    ensures Pow256(8) == SIZE_LIMIT
  {
    assert Pow256(4) == 0x1_0000_0000;
    assert Pow256(8) == 256 * (256 * (256 * (256 * Pow256(4))));
  }

  function EncodeString(s: string): string {
    U64(|s|) + s
  }

  /** The string a buffer starts with, and what follows it. */
  function DecodeString(b: string): Option<(string, string)> {
    if |b| < 8 then None
    else
      var size := FromLittleEndian(b[..8]);
      if 8 + size > |b| then None else Some((b[8..8 + size], b[8 + size..]))
  }

  lemma DecodeEncodedString(s: string, rest: string)
    requires |s| < SIZE_LIMIT
    ensures DecodeString(EncodeString(s) + rest) == Some((s, rest))
  {
    Pow256Of8();
    ReadsBackSize(|s|, 8);
    var b := EncodeString(s) + rest;
    assert b[..8] == U64(|s|);
    assert b[8..8 + |s|] == s;
    assert b[8 + |s|..] == rest;
  }

  lemma EncodeDecodedString(b: string, s: string, rest: string)
    requires IsBytes(b) && DecodeString(b) == Some((s, rest))
    ensures |s| < SIZE_LIMIT && b == EncodeString(s) + rest
  {
    Pow256Of8();
    WritesBackSize(b[..8]);
    assert b == b[..8] + s + rest;
  }

  // ---------- Trees ----------

  /** The part of a node before its children: type byte, text, number of children. */
  datatype Header = Header(tag: char, text: string, nkids: nat)

  function EncodeHeader(h: Header): string {
    [h.tag] + EncodeString(h.text) + U64(h.nkids)
  }

  function HeaderOf<Id>(t: Tree<Id>): Header {
    Header(t.tag, t.text, |t.kids|)
  }

  function Encode<Id>(f: seq<Tree<Id>>): string {
    if f == [] then "" else EncodeHeader(HeaderOf(f[0])) + Encode(f[0].kids) + Encode(f[1..])
  }

  /** A symbol that the grammar does not know is an error. */
  function DecodeHeader(g: Grammar, b: string): (r: Option<(Header, string)>)
    ensures r.Some? ==> |r.value.1| < |b|
  {
    if |b| < 1 then None
    else match DecodeString(b[1..])
      case None => None
      case Some((text, rest)) =>
        if b[0] != STRING && text !in g then None
        else if |rest| < 8 then None
        else Some((Header(b[0], text, FromLittleEndian(rest[..8])), rest[8..]))
  }

  /** `n` trees read off the front of `b`, and what follows them. */
  function Decode(g: Grammar, b: string, n: nat): (r: Option<(seq<Value>, string)>)
    ensures r.Some? ==> |r.value.1| <= |b| && |r.value.0| == n
    decreases |b|
  {
    if n == 0 then Some(([], b))
    else match DecodeHeader(g, b)
      case None => None
      case Some((h, b1)) =>
        match Decode(g, b1, h.nkids)
        case None => None
        case Some((kids, b2)) =>
          match Decode(g, b2, n - 1)
          case None => None
          case Some((more, b3)) => Some(([Node((), h.tag, h.text, kids)] + more, b3))
  }

  /** Trees whose symbols the grammar knows and whose sizes fit 64 bits. */
  predicate Encodable<Id>(g: Grammar, f: seq<Tree<Id>>) {
    f == [] ||
    (&& (f[0].tag != STRING ==> f[0].text in g)
     && |f[0].text| < SIZE_LIMIT && |f[0].kids| < SIZE_LIMIT
     && Encodable(g, f[0].kids) && Encodable(g, f[1..]))
  }

  /** The eight bytes of `b` from `at` on are this number, lowest byte first. */
  ghost predicate HasSizeAt(b: string, at: nat, n: nat) {
    at + 8 <= |b| && forall k :: 0 <= k < 8 ==> b[at + k] as int == (n / Pow256(k)) % 256
  }

  lemma SizeAt(before: string, n: nat, after: string)
    ensures HasSizeAt(before + U64(n) + after, |before|, n)
  {
    hide Pow256, LittleEndian;
    var b := before + U64(n) + after;
    forall k | 0 <= k < 8
      ensures b[|before| + k] as int == (n / Pow256(k)) % 256
    {
      LittleEndianDigit(n, 8, k);
    }
  }

  /** The layout of a node: its type byte, 0 for text and 1 for a symbol; the size of its text
      or name, and the text; the number of its children; then the children. */
  lemma EncodedLayout<Id>(t: Tree<Id>)
    ensures var b, n := Encode([t]), |t.text|;
            && |b| >= 17 + n && b[0] == t.tag
            && HasSizeAt(b, 1, n) && b[9..9 + n] == t.text
            && HasSizeAt(b, 9 + n, |t.kids|) && b[17 + n..] == Encode(t.kids)
    ensures STRING as int == 0 && SYMBOL as int == 1
  {
    var tag, size, kids := [t.tag], U64(|t.text|), U64(|t.kids|);
    EncodedParts(t);
    hide Encode, U64, LittleEndian, HasSizeAt;
    SlicesAt(tag, size, t.text, kids, Encode(t.kids));
    SizeAt(tag, |t.text|, t.text + kids + Encode(t.kids));
    SizeAt(tag + size + t.text, |t.kids|, Encode(t.kids));
  }

  lemma EncodedParts<Id>(t: Tree<Id>)
    ensures Encode([t]) == [t.tag] + U64(|t.text|) + t.text + U64(|t.kids|) + Encode(t.kids)
  {
    hide U64;
    assert [t][1..] == [];
    assert Encode([t]) == EncodeHeader(HeaderOf(t)) + Encode(t.kids) + Encode<Id>([]);
    Regrouped([t.tag], U64(|t.text|), t.text, U64(|t.kids|), Encode(t.kids));
  }

  lemma Regrouped(a: string, b: string, c: string, d: string, e: string)
    ensures a + (b + c) + d + e + "" == a + b + c + d + e
  {
  }

  lemma SlicesAt(tag: string, size: string, text: string, kids: string, rest: string)
    requires |tag| == 1 && |size| == 8 && |kids| == 8
    ensures var b := tag + size + text + kids + rest;
            && b == tag + size + (text + kids + rest) && b[0] == tag[0]
            && b[9..9 + |text|] == text && b[17 + |text|..] == rest
  {
  }

  /** And of a sample: the size of its text, the text, then the tree. */
  lemma SampleLayout<Id>(t: Tree<Id>)
    ensures var b, n := EncodeSample(t), |Yield([t])|;
            && |b| >= 8 + n && HasSizeAt(b, 0, n) && b[8..8 + n] == Yield([t]) && b[8 + n..] == Encode([t])
  {
    hide Encode, Yield, U64, LittleEndian, HasSizeAt;
    var text, tree := Yield([t]), Encode([t]);
    assert EncodeSample(t) == "" + U64(|text|) + (text + tree);
    SizeAt("", |text|, text + tree);
  }

  lemma Regroup<T>(a: seq<T>, b: seq<T>, c: seq<T>, d: seq<T>)
    ensures (a + b + c) + d == a + (b + (c + d))
  {
  }

  lemma DecodeEncodedHeader<Id>(g: Grammar, t: Tree<Id>, rest: string)
    requires Encodable(g, [t])
    ensures DecodeHeader(g, EncodeHeader(HeaderOf(t)) + rest) == Some((HeaderOf(t), rest))
  {
    var b := EncodeHeader(HeaderOf(t)) + rest;
    var tail := U64(|t.kids|) + rest;
    DecodeEncodedString(t.text, tail);
    assert b[1..] == EncodeString(t.text) + tail;
    assert tail[..8] == U64(|t.kids|) && tail[8..] == rest;
    Pow256Of8();
    ReadsBackSize(|t.kids|, 8);
  }

  lemma EncodeStep(b: string, h: Header, b1: string, kids: seq<Value>, b2: string, more: seq<Value>, b3: string)
    requires h.nkids == |kids|
    requires b == EncodeHeader(h) + b1 && b1 == Encode(kids) + b2 && b2 == Encode(more) + b3
    ensures b == Encode([Node((), h.tag, h.text, kids)] + more) + b3
  {
    var f := [Node((), h.tag, h.text, kids)] + more;
    assert f[1..] == more;
    assert HeaderOf(f[0]) == h;
    Regroup(EncodeHeader(h), Encode(kids), Encode(more), b3);
  }

  lemma EncodableCons(g: Grammar, h: Header, kids: seq<Value>, more: seq<Value>)
    requires (h.tag != STRING ==> h.text in g) && |h.text| < SIZE_LIMIT && |kids| < SIZE_LIMIT
    requires Encodable(g, kids) && Encodable(g, more)
    ensures Encodable(g, [Node((), h.tag, h.text, kids)] + more)
  {
    assert ([Node((), h.tag, h.text, kids)] + more)[1..] == more;
  }

  lemma DecodeStep(g: Grammar, b: string, n: nat, h: Header, b1: string,
                   kids: seq<Value>, b2: string, more: seq<Value>, b3: string)
    requires DecodeHeader(g, b) == Some((h, b1))
    requires Decode(g, b1, h.nkids) == Some((kids, b2))
    requires Decode(g, b2, n) == Some((more, b3))
    ensures Decode(g, b, n + 1) == Some(([Node((), h.tag, h.text, kids)] + more, b3))
  {
  }

  /** Round trip: decoding an encoding, whatever follows it, gives the trees back and
      stops exactly where the encoding ends. */
  lemma {:induction false} DecodeInvertsEncode<Id>(g: Grammar, f: seq<Tree<Id>>, rest: string)
    requires Encodable(g, f)
    ensures Decode(g, Encode(f) + rest, |f|) == Some((EraseAll(f), rest))
  {
    if f == [] {
      assert Encode(f) + rest == rest && EraseAll(f) == [];
    } else {
      var t := f[0];
      var b2 := Encode(f[1..]) + rest;
      var b1 := Encode(t.kids) + b2;
      var b := EncodeHeader(HeaderOf(t)) + b1;
      assert Encode(f) + rest == b by {
        Regroup(EncodeHeader(HeaderOf(t)), Encode(t.kids), Encode(f[1..]), rest);
      }
      assert DecodeHeader(g, b) == Some((HeaderOf(t), b1)) by {
        assert [t][1..] == [];
        DecodeEncodedHeader(g, t, b1);
      }
      DecodeInvertsEncode(g, t.kids, b2);
      DecodeInvertsEncode(g, f[1..], rest);
      DecodeStep(g, b, |f| - 1, HeaderOf(t), b1, EraseAll(t.kids), b2, EraseAll(f[1..]), rest);
      EraseCons(f);
    }
  }

  lemma EncodeDecodedHeader(g: Grammar, b: string, h: Header, rest: string)
    requires IsBytes(b) && DecodeHeader(g, b) == Some((h, rest))
    ensures b == EncodeHeader(h) + rest && IsBytes(rest)
    ensures h.tag != STRING ==> h.text in g
    ensures |h.text| < SIZE_LIMIT && h.nkids < SIZE_LIMIT
  {
    var (text, tail) := DecodeString(b[1..]).value;
    assert IsBytes(b[1..]);
    EncodeDecodedString(b[1..], text, tail);
    IsBytesConcat(EncodeString(text), tail);
    EncodeDecodedSize(tail);
    IsBytesConcat(U64(h.nkids), rest);
    hide LittleEndian, FromLittleEndian, DecodeString, EncodeString, U64;
    assert b == [b[0]] + b[1..];
    PartsOfHeader([b[0]], EncodeString(text), U64(h.nkids), rest);
  }

  lemma PartsOfHeader(tag: string, text: string, size: string, rest: string)
    ensures tag + (text + (size + rest)) == tag + text + size + rest
  {
  }

  lemma EncodeDecodedSize(s: string)
    requires IsBytes(s) && |s| >= 8
    ensures var n := FromLittleEndian(s[..8]); n < SIZE_LIMIT && s == U64(n) + s[8..]
  {
    Pow256Of8();
    WritesBackSize(s[..8]);
  }

  lemma IsBytesConcat(s: string, t: string)
    requires IsBytes(s + t)
    ensures IsBytes(t)
  {
    assert forall i :: 0 <= i < |t| ==> t[i] == (s + t)[|s| + i];
  }

  lemma DecodedParts(g: Grammar, b: string, n: nat)
      returns (h: Header, b1: string, kids: seq<Value>, b2: string, more: seq<Value>, b3: string)
    requires n > 0 && Decode(g, b, n).Some?
    ensures DecodeHeader(g, b) == Some((h, b1)) && |b1| < |b|
    ensures Decode(g, b1, h.nkids) == Some((kids, b2)) && |b2| <= |b1| && |kids| == h.nkids
    ensures Decode(g, b2, n - 1) == Some((more, b3))
    ensures Decode(g, b, n) == Some(([Node((), h.tag, h.text, kids)] + more, b3))
  {
    var (h', b1') := DecodeHeader(g, b).value;
    h, b1 := h', b1';
    var (kids', b2') := Decode(g, b1, h.nkids).value;
    kids, b2 := kids', b2';
    var (more', b3') := Decode(g, b2, n - 1).value;
    more, b3 := more', b3';
  }

  /** Conversely, accepted bytes are the encoding of what they decode to. */
  lemma {:induction false} EncodeInvertsDecode(g: Grammar, b: string, n: nat, f: seq<Value>, rest: string)
    requires IsBytes(b) && Decode(g, b, n) == Some((f, rest))
    ensures b == Encode(f) + rest
    ensures Encodable(g, f) && IsBytes(rest)
    decreases |b|
  {
    hide DecodeHeader;
    if n == 0 {
      assert Encode(f) + rest == rest;
    } else {
      var h, b1, kids, b2, more, b3 := DecodedParts(g, b, n);
      EncodeDecodedHeader(g, b, h, b1);
      EncodeInvertsDecode(g, b1, h.nkids, kids, b2);
      EncodeInvertsDecode(g, b2, n - 1, more, b3);
      EncodeStep(b, h, b1, kids, b2, more, b3);
      EncodableCons(g, h, kids, more);
    }
  }

  // ---------- Samples ----------

  /** A sample: the text to run the target on, then the tree it came from. */
  function EncodeSample<Id>(t: Tree<Id>): string {
    EncodeString(Yield([t])) + Encode([t])
  }

  function DecodeSample(g: Grammar, b: string): Option<Value> {
    match DecodeString(b)
    case None => None
    case Some((_, rest)) =>
      match Decode(g, rest, 1)
      case None => None
      case Some((f, _)) => Some(f[0])
  }

  lemma DecodeInvertsEncodeSample<Id>(g: Grammar, t: Tree<Id>)
    requires Encodable(g, [t]) && |Yield([t])| < SIZE_LIMIT
    ensures DecodeSample(g, EncodeSample(t)) == Some(Erase(t))
  {
    DecodeEncodedString(Yield([t]), Encode([t]));
    DecodeInvertsEncode(g, [t], "");
    assert Encode([t]) + "" == Encode([t]);
    assert EraseAll([t])[0] == Erase(t);
  }

  /** The text is never longer than the encoding, so it fits a size whenever the
      encoding does. */
  lemma {:induction false} YieldNoLongerThanEncoding<Id>(f: seq<Tree<Id>>)
    ensures |Yield(f)| <= |Encode(f)|
  {
    if f != [] {
      YieldNoLongerThanEncoding(f[0].kids);
      YieldNoLongerThanEncoding(f[1..]);
    }
  }

  /** What any decodable sample promises of its tree. */
  lemma DecodedSampleIsEncodable(g: Grammar, b: string)
    requires IsBytes(b) && |b| < SIZE_LIMIT && DecodeSample(g, b).Some?
    ensures var t := DecodeSample(g, b).value;
      Encodable(g, [t]) && |Yield([t])| < SIZE_LIMIT
  {
    var (s, rest) := DecodeString(b).value;
    EncodeDecodedString(b, s, rest);
    IsBytesConcat(EncodeString(s), rest);
    var (f, tail) := Decode(g, rest, 1).value;
    EncodeInvertsDecode(g, rest, 1, f, tail);
    assert f == [f[0]];
    YieldNoLongerThanEncoding(f);
  }

  lemma EncodeSampleErase<Id>(t: Tree<Id>)
    ensures EncodeSample(Erase(t)) == EncodeSample(t)
  {
    assert EraseAll([t]) == [Erase(t)];
    EncodeErase([t]);
    YieldErase([t]);
  }

  lemma {:induction false} EncodeErase<Id>(f: seq<Tree<Id>>)
    ensures Encode(EraseAll(f)) == Encode(f)
  {
    if f != [] {
      EraseCons(f);
      EncodeErase(f[0].kids);
      EncodeErase(f[1..]);
      assert EraseAll(f)[1..] == EraseAll(f[1..]);
      assert HeaderOf(EraseAll(f)[0]) == HeaderOf(f[0]);
    }
  }

  // ---------- Samples that can be read back ----------

  /** The sample decodes to a tree that can be written again.  Every sample of bytes that
      decodes is one. */
  ghost predicate Readable(g: Grammar, b: string) {
    match DecodeSample(g, b)
    case None => false
    case Some(t) => Encodable(g, [t]) && |Yield([t])| < SIZE_LIMIT
  }

  lemma BytesReadable(g: Grammar, b: string)
    requires IsBytes(b) && |b| < SIZE_LIMIT && DecodeSample(g, b).Some?
    ensures Readable(g, b)
  {
    DecodedSampleIsEncodable(g, b);
  }

  /** What fits into memory when it is written has no size that does not fit. */
  lemma {:induction false} SmallIsEncodable<Id>(g: Grammar, f: seq<Tree<Id>>)
    requires Known(g, f) && |Encode(f)| < SIZE_LIMIT
    ensures Encodable(g, f) && |f| <= |Encode(f)|
  {
    if f != [] {
      SmallIsEncodable(g, f[0].kids);
      SmallIsEncodable(g, f[1..]);
    }
  }

  /** Every derivation that fits into memory is read back from its sample. */
  lemma DerivationReadBack(g: Grammar, root: string, t: Value)
    requires Derives(g, root, t) && |EncodeSample(t)| < SIZE_LIMIT
    ensures DecodeSample(g, EncodeSample(t)) == Some(t) && Readable(g, EncodeSample(t))
  {
    EraseValues([t]);
    assert EraseAll([t])[0] == Erase(t);
    SoundIsKnown(g, [t]);
    SmallIsEncodable(g, [t]);
    DecodeInvertsEncodeSample(g, t);
  }
}
