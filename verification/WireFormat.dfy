/** The presentation language of section 2.1 of RFC 9420 as a grammar of byte strings, and what the
    codec does with bytes that are cut short or carry unknown markers. */
module WireFormat {
  import opened Bytes
  import opened CodecResult
  import opened Schema
  import opened Codec
  import opened CodecLaws
  import CodecTheorems
  import Credential
  import ExtensionList
  import VarInt

  // ------------------------------------------------------------------
  // The grammar
  // ------------------------------------------------------------------

  /** A length header and the content. */
  ghost predicate Prefixed(content: bytes, bs: bytes) {
    |content| <= 0x3FFF_FFFF && bs == VarInt.Header(|content|) + content
  }

  /** An integer of `|bs|` bytes, most significant first. */
  ghost predicate BigEndian(n: nat, w: nat, bs: bytes) {
    |bs| == w && forall i :: 0 <= i < w ==> bs[i] == n / Pow256(w - 1 - i) % 256
  }

  /** `bs` spells the value `v`: integers most significant byte first, options with marker 0 or 1,
      fields in order, collections with their length in front, enums with the discriminant first. */
  ghost predicate Spelled(s: Schema, v: Value, bs: bytes)
    requires HasType(s, v)
    decreases s, 0, 0
  {
    match s
    case UInt(w) => BigEndian(v.n, w, bs)
    case Array(_) => bs == v.bytes
    case ByteVec => Prefixed(v.bytes, bs)
    case Unit => bs == []
    case Pair(a, b) => exists k: nat :: k <= |bs| && Spelled(a, v.fst, bs[..k]) && Spelled(b, v.snd, bs[k..])
    case Opt(t) => if v.VNone? then bs == [0] else bs != [] && bs[0] == 1 && Spelled(t, v.v, bs[1..])
    case Vector(e) => exists content :: Prefixed(content, bs) && SpelledItems(e, v.items, content)
    case MapOf(e) => exists content :: Prefixed(content, bs) && SpelledItems(e, v.items, content)
    case Enum(w, variants) =>
      && |bs| >= w && BigEndian(variants[v.tag].discriminant, w, bs[..w])
      && Spelled(variants[v.tag].payload, v.payload, bs[w..])
  }

  /** The items one after the other. */
  ghost predicate SpelledItems(e: Schema, items: seq<Value>, bs: bytes)
    requires HasTypes(e, items)
    decreases e, 1, |items|
  {
    if items == [] then bs == []
    else exists k: nat :: k <= |bs| && Spelled(e, items[0], bs[..k]) && SpelledItems(e, items[1..], bs[k..])
  }

  // ------------------------------------------------------------------
  // The encoder writes the grammar
  // ------------------------------------------------------------------

  lemma BigEndianIff(n: nat, w: nat, bs: bytes)
    ensures BigEndian(n, w, bs) <==> bs == ToBE(n, w)
  {
    forall i | 0 <= i < w ensures ToBE(n, w)[i] == n / Pow256(w - 1 - i) % 256 { BigEndianAt(n, w, i); }
  }

  lemma PrefixedIff(content: bytes, bs: bytes)
    ensures Prefixed(content, bs) <==> WithHeader(content) == Ok(bs)
  {
    if |content| <= 0x3FFF_FFFF { VarInt.EncodeBytes(|content|); }
  }

  /** The encoder succeeds with these bytes exactly when they spell the value. */
  lemma {:induction false} EncodesIffSpelled(s: Schema, v: Value, bs: bytes)
    requires HasType(s, v)
    ensures Encode(s, v) == Ok(bs) <==> Spelled(s, v, bs)
    decreases s, 2, 0
  {
    match s
    case UInt(w) => BigEndianIff(v.n, w, bs);
    case Array(_) =>
    case ByteVec => PrefixedIff(v.bytes, bs);
    case Unit =>
    case Pair(_, _) => PairSpelled(s, v, bs);
    case Opt(t) => if v.VSome? { OptSpelled(s, v, bs); }
    case Vector(_) => CollectionSpelled(s, v, bs);
    case MapOf(_) => CollectionSpelled(s, v, bs);
    case Enum(_, _) => EnumSpelled(s, v, bs);
  }

  lemma Rejoin(bs: bytes, k: nat)
    requires k <= |bs|
    ensures bs[..k] + bs[k..] == bs
  {
  }

  lemma Cut(x: bytes, y: bytes)
    ensures (x + y)[..|x|] == x && (x + y)[|x|..] == y
  {
  }

  lemma {:induction false} PairSpelled(s: Schema, v: Value, bs: bytes)
    requires s.Pair? && HasType(s, v)
    ensures Encode(s, v) == Ok(bs) <==> Spelled(s, v, bs)
    decreases s, 1, 0
  {
    var x, y := Encode(s.first, v.fst), Encode(s.second, v.snd);
    if Encode(s, v) == Ok(bs) {
      Cut(x.value, y.value);
      EncodesIffSpelled(s.first, v.fst, x.value);
      EncodesIffSpelled(s.second, v.snd, y.value);
      assert |x.value| <= |bs| && Spelled(s.first, v.fst, bs[..|x.value|]) && Spelled(s.second, v.snd, bs[|x.value|..]);
    }
    if Spelled(s, v, bs) {
      var k: nat :| k <= |bs| && Spelled(s.first, v.fst, bs[..k]) && Spelled(s.second, v.snd, bs[k..]);
      EncodesIffSpelled(s.first, v.fst, bs[..k]);
      EncodesIffSpelled(s.second, v.snd, bs[k..]);
      Rejoin(bs, k);
    }
  }

  lemma {:induction false} OptSpelled(s: Schema, v: Value, bs: bytes)
    requires s.Opt? && v.VSome? && HasType(s, v)
    ensures Encode(s, v) == Ok(bs) <==> Spelled(s, v, bs)
    decreases s, 1, 0
  {
    var x := Encode(s.inner, v.v);
    if x.Ok? {
      Cut([1], x.value);
      EncodesIffSpelled(s.inner, v.v, x.value);
    }
    if bs != [] {
      EncodesIffSpelled(s.inner, v.v, bs[1..]);
      Rejoin(bs, 1);
      assert bs[..1] == [bs[0]];
    }
  }

  lemma {:induction false} EnumSpelled(s: Schema, v: Value, bs: bytes)
    requires s.Enum? && HasType(s, v)
    ensures Encode(s, v) == Ok(bs) <==> Spelled(s, v, bs)
    decreases s, 1, 0
  {
    var w, variant := s.discriminantWidth, s.variants[v.tag];
    var head, x := ToBE(variant.discriminant, w), Encode(variant.payload, v.payload);
    if x.Ok? {
      Cut(head, x.value);
      EncodesIffSpelled(variant.payload, v.payload, x.value);
      BigEndianIff(variant.discriminant, w, head);
    }
    if |bs| >= w {
      EncodesIffSpelled(variant.payload, v.payload, bs[w..]);
      BigEndianIff(variant.discriminant, w, bs[..w]);
      Rejoin(bs, w);
    }
  }

  lemma {:induction false} CollectionSpelled(s: Schema, v: Value, bs: bytes)
    requires (s.Vector? || s.MapOf?) && HasType(s, v)
    ensures Encode(s, v) == Ok(bs) <==> Spelled(s, v, bs)
    decreases s, 1, 0
  {
    var e := if s.Vector? then s.elem else s.entry;
    var content := EncodeItems(e, v.items);
    if Encode(s, v) == Ok(bs) {
      PrefixedIff(content.value, bs);
      ItemsSpelled(e, v.items, content.value);
    }
    if Spelled(s, v, bs) {
      var c :| Prefixed(c, bs) && SpelledItems(e, v.items, c);
      ItemsSpelled(e, v.items, c);
      PrefixedIff(c, bs);
    }
  }

  lemma {:induction false} ItemsSpelled(e: Schema, items: seq<Value>, bs: bytes)
    requires HasTypes(e, items)
    ensures EncodeItems(e, items) == Ok(bs) <==> SpelledItems(e, items, bs)
    decreases e, 3, |items|
  {
    if items != [] {
      var x, y := Encode(e, items[0]), EncodeItems(e, items[1..]);
      if EncodeItems(e, items) == Ok(bs) {
        Cut(x.value, y.value);
        EncodesIffSpelled(e, items[0], x.value);
        ItemsSpelled(e, items[1..], y.value);
        assert |x.value| <= |bs| && Spelled(e, items[0], bs[..|x.value|]) && SpelledItems(e, items[1..], bs[|x.value|..]);
      }
      if SpelledItems(e, items, bs) {
        var k: nat :| k <= |bs| && Spelled(e, items[0], bs[..k]) && SpelledItems(e, items[1..], bs[k..]);
        EncodesIffSpelled(e, items[0], bs[..k]);
        ItemsSpelled(e, items[1..], bs[k..]);
        Rejoin(bs, k);
      }
    }
  }

  // ------------------------------------------------------------------
  // Bytes that are cut short, and unknown markers
  // ------------------------------------------------------------------

  lemma CutHeader(content: bytes, n: nat)
    requires |content| <= VarInt.VARINT_MAX && n < |WithHeader(content).value|
    ensures Split(WithHeader(content).value[..n]) == Err(UnexpectedEOF)
  {
    var len := |content|;
    var header := VarInt.Header(len);
    VarInt.EncodeBytes(len);
    VarInt.ValueOfHeader(len, content);
    var input := (header + content)[..n];
    if n >= |header| {
      var rest := content[..n - |header|];
      assert input == header + rest;
      VarInt.RoundTrip(len, rest);
    } else if n > 0 {
      assert input[0] == header[0];
      VarInt.DecodeBytes(input);
    }
  }

  /** Whatever is cut off an encoding, the rest is refused for want of bytes. */
  lemma {:induction false} TruncationIsRefused(s: Schema, v: Value, n: nat)
    requires WellFormed(s) && HasType(s, v) && Encode(s, v).Ok? && n < |Encode(s, v).value|
    ensures Decode(s, Encode(s, v).value[..n]) == Err(UnexpectedEOF)
    decreases s
  {
    match s
    case ByteVec => CutHeader(v.bytes, n);
    case Vector(e) => CutHeader(EncodeItems(e, v.items).value, n);
    case MapOf(e) => CutHeader(EncodeItems(e, v.items).value, n);
    case Pair(_, _) => PairTruncated(s, v, n);
    case Opt(t) =>
      if v.VSome? && n > 0 {
        var x := Encode(t, v.v).value;
        assert ([1] + x)[..n] == [1] + x[..n - 1] && ([1] + x[..n - 1])[1..] == x[..n - 1];
        TruncationIsRefused(t, v.v, n - 1);
      }
    case Enum(_, _) => EnumTruncated(s, v, n);
    case _ =>
  }

  lemma {:induction false} PairTruncated(s: Schema, v: Value, n: nat)
    requires s.Pair? && WellFormed(s) && HasType(s, v) && Encode(s, v).Ok? && n < |Encode(s, v).value|
    ensures Decode(s, Encode(s, v).value[..n]) == Err(UnexpectedEOF)
    decreases s, 0
  {
    var x, y := Encode(s.first, v.fst).value, Encode(s.second, v.snd).value;
    if n < |x| {
      assert (x + y)[..n] == x[..n];
      TruncationIsRefused(s.first, v.fst, n);
    } else {
      var m := n - |x|;
      assert (x + y)[..n] == x + y[..m];
      RoundTrip(s.first, v.fst, y[..m]);
      TruncationIsRefused(s.second, v.snd, m);
    }
  }

  lemma {:induction false} EnumTruncated(s: Schema, v: Value, n: nat)
    requires s.Enum? && WellFormed(s) && HasType(s, v) && Encode(s, v).Ok? && n < |Encode(s, v).value|
    ensures Decode(s, Encode(s, v).value[..n]) == Err(UnexpectedEOF)
    decreases s, 0
  {
    var w, variant := s.discriminantWidth, s.variants[v.tag];
    var head, x := ToBE(variant.discriminant, w), Encode(variant.payload, v.payload).value;
    if n >= w {
      var m := n - w;
      assert (head + x)[..n] == head + x[..m];
      TakeRoundTrip(head, x[..m]);
      FromToBE(variant.discriminant, w);
      assert FindVariant(s.variants, variant.discriminant) == v.tag;
      TruncationIsRefused(variant.payload, v.payload, m);
    }
  }

  /** An option marker other than 0 and 1 is refused, and named. */
  lemma UnknownMarker(t: Schema, input: bytes)
    requires input != [] && input[0] >= 2
    ensures Decode(Opt(t), input) == Err(OptionOutOfRange(input[0]))
  {
  }

  /** So is a discriminant that no variant has. */
  lemma UnknownDiscriminant(w: nat, variants: seq<Variant>, input: bytes)
    requires |input| >= w
    requires forall i :: 0 <= i < |variants| ==>
               !(variants[i].discriminant < Pow256(w) && BigEndian(variants[i].discriminant, w, input[..w]))
    ensures Decode(Enum(w, variants), input) == Err(UnsupportedEnumDiscriminant)
  {
    var n := FromBE(input[..w]);
    var tag := FindVariant(variants, n);
    FromBEBound(input[..w]);
    ToFromBE(input[..w]);
    BigEndianIff(n, w, input[..w]);
  }

  /** A collection that is too long for a header counts one byte for it. */
  lemma OversizeLength(n: nat)
    requires n > 0x3FFF_FFFF
    ensures CollectionSize(n) == n + 1
  {
  }

  // ------------------------------------------------------------------
  // Known bytes
  // ------------------------------------------------------------------

  /** The examples of appendix A.1 of RFC 9000, which the header format comes from. */
  lemma HeaderExamples()
    ensures VarInt.Header(37) == [0x25]
    ensures VarInt.Header(15293) == [0x7b, 0xbd]
    ensures VarInt.Header(494878333) == [0x9d, 0x7f, 0x3e, 0x7d]
  {
  }

  /** What is signed: `MLS 1.0 ` and the label, then the content, each with its length in front. */
  lemma SignInputBytes(name: bytes, content: bytes)
    requires 8 + |name| <= 0x3FFF_FFFF && |content| <= 0x3FFF_FFFF
    ensures CodecTheorems.SignInput(name, content)
            == Ok(VarInt.Header(8 + |name|) + (Ascii("MLS 1.0 ") + name) + (VarInt.Header(|content|) + content))
  {
    assert CodecTheorems.SIGN_PREFIX == Ascii("MLS 1.0 ");
    var labeled := Ascii("MLS 1.0 ") + name;
    TwoByteStrings(labeled, content);
  }

  /** What is hashed for a reference: the label, then the value, each with its length in front. */
  lemma RefHashInputBytes(name: bytes, value: bytes)
    requires |name| <= 0x3FFF_FFFF && |value| <= 0x3FFF_FFFF
    ensures CodecTheorems.RefHashInput(name, value)
            == Ok(VarInt.Header(|name|) + name + (VarInt.Header(|value|) + value))
  {
    TwoByteStrings(name, value);
  }

  lemma TwoByteStrings(name: bytes, content: bytes)
    requires |name| <= 0x3FFF_FFFF && |content| <= 0x3FFF_FFFF
    ensures CodecTheorems.RefHashInput(name, content)
            == Ok(VarInt.Header(|name|) + name + (VarInt.Header(|content|) + content))
  {
    CodecTheorems.LabeledShape(name, content);
    PrefixedIff(name, VarInt.Header(|name|) + name);
    PrefixedIff(content, VarInt.Header(|content|) + content);
    var tail: bytes := VarInt.Header(|content|) + content;
    assert tail + [] == tail;
  }

  /** A basic or custom credential: two bytes of type, most significant first, then the data with its
      length in front. */
  lemma CredentialBytes(id: bytes, t: u16)
    requires |id| <= 0x3FFF_FFFF
    ensures Credential.EncodeCredential(Credential.Basic(id)) == Ok([0, 1] + (VarInt.Header(|id|) + id))
    ensures Credential.EncodeCredential(Credential.Custom(t, id)) == Ok([t / 256, t % 256] + (VarInt.Header(|id|) + id))
  {
    PrefixedIff(id, VarInt.Header(|id|) + id);
    TwoBytes(t);
    TwoBytes(1);
    var data: bytes := VarInt.Header(|id|) + id;
    assert data + [] == data;
  }

  /** A certificate chain: type two, and the certificates, each with its length, behind their length. */
  lemma ChainBytes(certificates: seq<bytes>, bs: bytes)
    ensures Credential.EncodeCredential(Credential.Chain(certificates)) == Ok(bs)
            <==> && |bs| >= 2 && bs[..2] == [0, 2]
                 && exists content :: Prefixed(content, bs[2..]) && Listed(certificates, content)
  {
    var x := ChainPayload(certificates);
    if x.Ok? { Cut([0, 2], x.value); }
    if |bs| >= 2 {
      Rejoin(bs, 2);
      ChainSpelled(certificates, bs[2..]);
    }
  }

  lemma ChainPayload(certificates: seq<bytes>) returns (x: Result<bytes>)
    ensures HasType(Credential.CERTIFICATE_CHAIN, Credential.ChainValue(certificates))
    ensures x == Encode(Credential.CERTIFICATE_CHAIN, Credential.ChainValue(certificates))
    ensures Credential.EncodeCredential(Credential.Chain(certificates)) == if x.Ok? then Ok([0, 2] + x.value) else x
  {
    TwoBytes(2);
    Credential.ChainTyped(certificates);
    x := Encode(Credential.CERTIFICATE_CHAIN, Credential.ChainValue(certificates));
  }

  /** Byte strings one after the other, each with its length in front. */
  ghost predicate Listed(items: seq<bytes>, bs: bytes)
    decreases |items|
  {
    if items == [] then bs == []
    else exists k: nat :: k <= |bs| && Prefixed(items[0], bs[..k]) && Listed(items[1..], bs[k..])
  }

  lemma ChainSpelled(certificates: seq<bytes>, tail: bytes)
    ensures HasType(Credential.CERTIFICATE_CHAIN, Credential.ChainValue(certificates))
    ensures Encode(Credential.CERTIFICATE_CHAIN, Credential.ChainValue(certificates)) == Ok(tail)
            <==> exists content :: Prefixed(content, tail) && Listed(certificates, content)
  {
    Credential.ChainTyped(certificates);
    var v := Credential.ChainValue(certificates);
    var x := Encode(Vector(Credential.BYTE_STRUCT), v.fst);
    if x.Ok? { assert x.value + [] == x.value; }
    EncodesIffSpelled(Vector(Credential.BYTE_STRUCT), v.fst, tail);
    forall content ensures SpelledItems(Credential.BYTE_STRUCT, v.fst.items, content) <==> Listed(certificates, content) {
      ListedIff(certificates, v.fst.items, content);
    }
  }

  lemma {:induction false} ListedIff(items: seq<bytes>, values: seq<Value>, bs: bytes)
    requires |values| == |items| && forall i :: 0 <= i < |items| ==> values[i] == VPair(VBytes(items[i]), VUnit)
    ensures HasTypes(Credential.BYTE_STRUCT, values)
    ensures SpelledItems(Credential.BYTE_STRUCT, values, bs) <==> Listed(items, bs)
    decreases |items|
  {
    if items != [] {
      forall k: nat | k <= |bs|
        ensures Spelled(Credential.BYTE_STRUCT, values[0], bs[..k]) <==> Prefixed(items[0], bs[..k])
        ensures SpelledItems(Credential.BYTE_STRUCT, values[1..], bs[k..]) <==> Listed(items[1..], bs[k..])
      {
        OneSpelled(items[0], bs[..k]);
        ListedIff(items[1..], values[1..], bs[k..]);
      }
    }
  }

  lemma OneSpelled(item: bytes, bs: bytes)
    ensures Spelled(Credential.BYTE_STRUCT, VPair(VBytes(item), VUnit), bs) <==> Prefixed(item, bs)
  {
    assert bs[..|bs|] == bs && bs[|bs|..] == [];
    if Prefixed(item, bs) {
      assert Spelled(ByteVec, VBytes(item), bs[..|bs|]) && Spelled(Unit, VUnit, bs[|bs|..]);
    }
  }

  lemma TwoBytes(t: u16)
    ensures ToBE(t, 2) == [t / 256, t % 256]
  {
    OneByte(t / 256);
    assert ToBE(t, 2) == ToBE(t / 256, 1) + [t % 256];
  }

  /** One extension: two bytes of type, then the data with its length in front. */
  lemma ExtensionBytes(e: ExtensionList.Extension)
    requires |e.value| <= 0x3FFF_FFFF
    ensures HasType(ExtensionList.EXTENSION, ExtensionList.ToValue(e))
    ensures Encode(ExtensionList.EXTENSION, ExtensionList.ToValue(e))
            == Ok([e.key / 256, e.key % 256] + (VarInt.Header(|e.value|) + e.value))
  {
    ExtensionList.ExtensionSchema();
    TwoBytes(e.key);
    PrefixedIff(e.value, VarInt.Header(|e.value|) + e.value);
    var head, data: bytes := ToBE(e.key, 2), VarInt.Header(|e.value|) + e.value;
    assert head + [] == head && data + [] == data;
  }
}
