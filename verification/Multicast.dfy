/** The binary multicast format: little-endian fields behind a kind byte, and its tolerant decoder. */
module Multicast {
  import opened OrderTypes
  import opened Words
  import opened Utf8

  type Bytes = seq<Byte>
  type Text = s: Bytes | IsUtf8(s) witness []
  type U64 = n: nat | n < 0x1_0000_0000_0000_0000
  type I64 = i: int | -0x8000_0000_0000_0000 <= i < 0x8000_0000_0000_0000

  datatype Message =
    | TradeTick(symbol: Text, executedAt: U64, price: I64, quantity: U64)
    | L1QuoteUpdate(symbol: Text, seqNumber: U64, bestBid: Option<I64>, bestBidQuantity: U64,
                    bestAsk: Option<I64>, bestAskQuantity: U64, lastTrade: Option<I64>)

  // ----- little-endian numbers -----

  function ToLE(n: nat, width: nat): (b: Bytes)
    ensures |b| == width
  {
    if width == 0 then [] else [n % 256] + ToLE(n / 256, width - 1)
  }

  function FromLE(b: Bytes): nat {
    if b == [] then 0 else b[0] + 256 * FromLE(b[1..])
  }

  lemma {:induction false} LERoundTrip(n: nat, width: nat)
    ensures n < Pow2(8 * width) ==> FromLE(ToLE(n, width)) == n
  {
    if width > 0 {
      Pow2Byte(width - 1);
      LERoundTrip(n / 256, width - 1);
      assert ToLE(n, width)[1..] == ToLE(n / 256, width - 1);
    }
  }

  lemma Pow2Byte(width: nat)
    ensures Pow2(8 * (width + 1)) == 256 * Pow2(8 * width)
  {
    Pow2Splits(8, 8 * width);
    assert Pow2(4) == 16;
    Pow2Splits(4, 4);
  }

  lemma {:induction false} FromLEBound(b: Bytes)
    ensures FromLE(b) < Pow2(8 * |b|)
  {
    if b != [] {
      Pow2Byte(|b| - 1);
      FromLEBound(b[1..]);
    }
  }

  lemma WidthBounds()
    ensures Pow2(8 * 2) == 0x1_0000 && Pow2(8 * 8) == 0x1_0000_0000_0000_0000
  {
    hide Pow2;
    PowZero();
    Pow2Byte(0);
    Pow2Byte(1);
    Pow2Byte(2);
    Pow2Byte(3);
    Pow2Byte(4);
    Pow2Byte(5);
    Pow2Byte(6);
    Pow2Byte(7);
  }

  lemma PowZero()
    ensures Pow2(0) == 1
  {
  }

  function FromU64Bytes(b: Bytes): (n: U64)
    requires |b| == 8
  {
    FromLEBound(b);
    WidthBounds();
    FromLE(b)
  }

  /** Two's complement. */
  function ToTwos(i: I64): U64 {
    if i < 0 then i + 0x1_0000_0000_0000_0000 else i
  }

  function FromTwos(n: U64): I64 {
    if n >= 0x8000_0000_0000_0000 then n - 0x1_0000_0000_0000_0000 else n
  }

  // ----- fields -----

  datatype Kind = KText | KU64 | KI64 | KOptional

  datatype Field = FText(text: Text) | FU64(u: U64) | FI64(i: I64) | FOptional(o: Option<I64>)

  function KindOf(f: Field): Kind {
    match f
    case FText(_) => KText
    case FU64(_) => KU64
    case FI64(_) => KI64
    case FOptional(_) => KOptional
  }

  function EncodeField(f: Field): Bytes {
    match f
    case FText(text) => ToLE(|text| % 0x1_0000, 2) + text
    case FU64(u) => ToLE(u, 8)
    case FI64(i) => ToLE(ToTwos(i), 8)
    case FOptional(None) => [0]
    case FOptional(Some(i)) => [1] + ToLE(ToTwos(i), 8)
  }

  /** One field read off the front, and what is left. */
  function ParseField(kind: Kind, b: Bytes): (r: Option<(Field, Bytes)>)
    ensures r.Some? ==> KindOf(r.value.0) == kind
  {
    match kind
    case KText =>
      if |b| < 2 || |b| < 2 + FromLE(b[..2]) then None
      else
        var length := FromLE(b[..2]);
        if IsUtf8(b[2..2 + length]) then Some((FText(b[2..2 + length]), b[2 + length..])) else None
    case KU64 => if |b| < 8 then None else Some((FU64(FromU64Bytes(b[..8])), b[8..]))
    case KI64 => if |b| < 8 then None else Some((FI64(FromTwos(FromU64Bytes(b[..8]))), b[8..]))
    case KOptional =>
      if b == [] then None
      else if b[0] == 0 then Some((FOptional(None), b[1..]))
      else if |b| < 9 then None
      else Some((FOptional(Some(FromTwos(FromU64Bytes(b[1..9])))), b[9..]))
  }

  /** Fits the two-byte length. */
  predicate Short(f: Field) {
    f.FText? ==> |f.text| < 0x1_0000
  }

  lemma FieldRoundTrip(f: Field, junk: Bytes)
    requires Short(f)
    ensures ParseField(KindOf(f), EncodeField(f) + junk) == Some((f, junk))
  {
    hide ToLE, FromLE, Pow2, IsUtf8;
    WidthBounds();
    var b := EncodeField(f) + junk;
    match f {
      case FText(text) =>
        LERoundTrip(|text|, 2);
        assert b[..2] == ToLE(|text|, 2);
        assert b[2..2 + |text|] == text && b[2 + |text|..] == junk;
      case FU64(u) =>
        LERoundTrip(u, 8);
        assert b[..8] == ToLE(u, 8) && b[8..] == junk;
      case FI64(i) =>
        LERoundTrip(ToTwos(i), 8);
        assert b[..8] == ToLE(ToTwos(i), 8) && b[8..] == junk;
      case FOptional(None) =>
        assert b[1..] == junk;
      case FOptional(Some(i)) =>
        LERoundTrip(ToTwos(i), 8);
        assert b[1..9] == ToLE(ToTwos(i), 8) && b[9..] == junk;
    }
  }

  lemma FieldPrefix(f: Field, n: nat)
    requires Short(f) && n < |EncodeField(f)|
    ensures ParseField(KindOf(f), EncodeField(f)[..n]) == None
  {
    hide ToLE, FromLE, Pow2, IsUtf8;
    if f.FText? && n >= 2 {
      WidthBounds();
      LERoundTrip(|f.text|, 2);
      assert EncodeField(f)[..n][..2] == ToLE(|f.text|, 2);
    } else if f.FOptional? && f.o.Some? && n > 0 {
      assert EncodeField(f)[..n][0] == 1;
    }
  }

  // ----- field lists -----

  function KindsOf(fs: seq<Field>): seq<Kind> {
    if fs == [] then [] else [KindOf(fs[0])] + KindsOf(fs[1..])
  }

  lemma KindsCons(f: Field, fs: seq<Field>)
    ensures KindsOf([f] + fs) == [KindOf(f)] + KindsOf(fs)
  {
    assert ([f] + fs)[1..] == fs;
  }

  function EncodeFields(fs: seq<Field>): Bytes {
    if fs == [] then [] else EncodeField(fs[0]) + EncodeFields(fs[1..])
  }

  function ParseFields(kinds: seq<Kind>, b: Bytes): (r: Option<seq<Field>>)
    ensures r.Some? ==> KindsOf(r.value) == kinds
  {
    if kinds == [] then Some([])
    else
      var first := ParseField(kinds[0], b);
      if first.None? then None
      else
        var others := ParseFields(kinds[1..], first.value.1);
        if others.None? then None
        else
          KindsCons(first.value.0, others.value);
          assert [kinds[0]] + kinds[1..] == kinds;
          Some([first.value.0] + others.value)
  }

  lemma {:induction false} FieldsRoundTrip(fs: seq<Field>, junk: Bytes)
    requires forall i :: 0 <= i < |fs| ==> Short(fs[i])
    ensures ParseFields(KindsOf(fs), EncodeFields(fs) + junk) == Some(fs)
  {
    hide ParseField, EncodeField, KindOf;
    if fs != [] {
      FieldRoundTrip(fs[0], EncodeFields(fs[1..]) + junk);
      FieldsRoundTrip(fs[1..], junk);
      assert EncodeFields(fs) + junk == EncodeField(fs[0]) + (EncodeFields(fs[1..]) + junk);
      assert KindsOf(fs)[1..] == KindsOf(fs[1..]);
      assert [fs[0]] + fs[1..] == fs;
    }
  }

  lemma {:induction false} FieldsPrefix(fs: seq<Field>, n: nat)
    requires forall i :: 0 <= i < |fs| ==> Short(fs[i])
    requires n < |EncodeFields(fs)|
    ensures ParseFields(KindsOf(fs), EncodeFields(fs)[..n]) == None
  {
    hide ParseField, EncodeField, KindOf, Short;
    var head, tail := EncodeField(fs[0]), EncodeFields(fs[1..]);
    assert KindsOf(fs)[1..] == KindsOf(fs[1..]);
    if n < |head| {
      assert EncodeFields(fs)[..n] == head[..n];
      FieldPrefix(fs[0], n);
    } else {
      assert EncodeFields(fs)[..n] == head + tail[..n - |head|];
      FieldRoundTrip(fs[0], tail[..n - |head|]);
      FieldsPrefix(fs[1..], n - |head|);
    }
  }

  // ----- messages -----

  const TickKind: Byte := 0
  const QuoteKind: Byte := 1
  const TickLayout := [KText, KU64, KI64, KU64]
  const QuoteLayout := [KText, KU64, KOptional, KU64, KOptional, KU64, KOptional]

  function Fields(m: Message): seq<Field> {
    match m
    case TradeTick(symbol, at, price, quantity) => [FText(symbol), FU64(at), FI64(price), FU64(quantity)]
    case L1QuoteUpdate(symbol, n, bid, bidQuantity, ask, askQuantity, last) =>
      [FText(symbol), FU64(n), FOptional(bid), FU64(bidQuantity), FOptional(ask), FU64(askQuantity), FOptional(last)]
  }

  function KindByte(m: Message): Byte {
    if m.TradeTick? then TickKind else QuoteKind
  }

  function Encode(m: Message): Bytes {
    [KindByte(m)] + EncodeFields(Fields(m))
  }

  lemma TickKinds(fs: seq<Field>)
    requires KindsOf(fs) == TickLayout
    ensures |fs| == 4 && fs[0].FText? && fs[1].FU64? && fs[2].FI64? && fs[3].FU64?
  {
    KindAt(fs);
  }

  lemma QuoteKinds(fs: seq<Field>)
    requires KindsOf(fs) == QuoteLayout
    ensures |fs| == 7 && fs[0].FText? && fs[1].FU64? && fs[2].FOptional? && fs[3].FU64?
         && fs[4].FOptional? && fs[5].FU64? && fs[6].FOptional?
  {
    KindAt(fs);
  }

  lemma {:induction false} KindAt(fs: seq<Field>)
    ensures |KindsOf(fs)| == |fs| && forall i :: 0 <= i < |fs| ==> KindOf(fs[i]) == KindsOf(fs)[i]
  {
    if fs != [] { KindAt(fs[1..]); }
  }

  function TickFrom(fs: seq<Field>): Message
    requires KindsOf(fs) == TickLayout
  {
    TickKinds(fs);
    TradeTick(fs[0].text, fs[1].u, fs[2].i, fs[3].u)
  }

  function QuoteFrom(fs: seq<Field>): Message
    requires KindsOf(fs) == QuoteLayout
  {
    QuoteKinds(fs);
    L1QuoteUpdate(fs[0].text, fs[1].u, fs[2].o, fs[3].u, fs[4].o, fs[5].u, fs[6].o)
  }

  function Decode(b: Bytes): Option<Message> {
    if b == [] then None
    else if b[0] == TickKind then
      var fs := ParseFields(TickLayout, b[1..]);
      if fs.None? then None else Some(TickFrom(fs.value))
    else if b[0] == QuoteKind then
      var fs := ParseFields(QuoteLayout, b[1..]);
      if fs.None? then None else Some(QuoteFrom(fs.value))
    else None
  }

  function Layout(m: Message): seq<Kind> {
    if m.TradeTick? then TickLayout else QuoteLayout
  }

  lemma MessageFields(m: Message)
    ensures KindsOf(Fields(m)) == Layout(m)
    ensures if m.TradeTick? then TickFrom(Fields(m)) == m else QuoteFrom(Fields(m)) == m
    ensures |m.symbol| < 0x1_0000 ==> forall i :: 0 <= i < |Fields(m)| ==> Short(Fields(m)[i])
  {
    KindAt(Fields(m));
  }

  /** Whatever follows it in the datagram, a message is read back. */
  lemma DecodeEncode(m: Message, junk: Bytes)
    requires |m.symbol| < 0x1_0000
    ensures Decode(Encode(m) + junk) == Some(m)
  {
    hide ParseFields, EncodeFields;
    MessageFields(m);
    FieldsRoundTrip(Fields(m), junk);
    assert (Encode(m) + junk)[1..] == EncodeFields(Fields(m)) + junk;
  }

  /** A cut-off datagram is rejected, wherever it was cut. */
  lemma CutMessagesAreRejected(m: Message, n: nat)
    requires |m.symbol| < 0x1_0000 && n < |Encode(m)|
    ensures Decode(Encode(m)[..n]) == None
  {
    hide ParseFields, EncodeFields;
    if n > 0 {
      MessageFields(m);
      FieldsPrefix(Fields(m), n - 1);
      assert Encode(m)[..n][1..] == EncodeFields(Fields(m))[..n - 1];
    }
  }

  /** The length prefix wraps, so exactly the symbols of fewer than 65536 bytes survive the trip. */
  lemma RoundTripIffSymbolFits(m: Message)
    ensures Decode(Encode(m)) == Some(m) <==> |m.symbol| < 0x1_0000
  {
    if |m.symbol| < 0x1_0000 {
      DecodeEncode(m, []);
      assert Encode(m) + [] == Encode(m);
    } else {
      WrappedSymbol(m);
    }
  }

  lemma WrappedSymbol(m: Message)
    requires |m.symbol| >= 0x1_0000
    ensures Decode(Encode(m)) != Some(m)
  {
    hide ParseField, EncodeField, Pow2, IsUtf8, ToLE, FromLE;
    var b := Encode(m)[1..];
    assert b == EncodeFields(Fields(m)) == EncodeField(FText(m.symbol)) + EncodeFields(Fields(m)[1..]);
    WrappedText(m.symbol, EncodeFields(Fields(m)[1..]));
    assert Layout(m)[0] == KText;
    var fs := ParseFields(Layout(m), b);
    if fs.Some? { assert fs.value[0] == ParseField(KText, b).value.0; }
  }

  lemma WrappedText(text: Text, junk: Bytes)
    requires |text| >= 0x1_0000
    ensures var r := ParseField(KText, EncodeField(FText(text)) + junk);
      r.Some? ==> r.value.0 != FText(text)
  {
    hide ToLE, FromLE, Pow2, IsUtf8;
    var b, length := EncodeField(FText(text)) + junk, |text| % 0x1_0000;
    WidthBounds();
    LERoundTrip(length, 2);
    assert b[..2] == ToLE(length, 2);
  }

  /** Whatever bytes it accepts, the decoder only yields messages that survive the trip. */
  lemma AcceptedMessagesSurvive(b: Bytes)
    ensures Decode(b).Some? ==> Decode(Encode(Decode(b).value)) == Decode(b)
  {
    hide ParseField, Pow2, EncodeFields, EncodeField;
    if Decode(b).Some? {
      var m := Decode(b).value;
      TextFits(b[1..]);
      assert Layout(m)[0] == KText;
      RoundTripIffSymbolFits(m);
    }
  }

  lemma TextFits(b: Bytes)
    ensures var r := ParseField(KText, b); r.Some? ==> |r.value.0.text| < 0x1_0000
  {
    hide IsUtf8, FromLE, Pow2;
    WidthBounds();
    if |b| >= 2 { FromLEBound(b[..2]); }
  }

  // ----- the format, byte by byte -----

  /** Byte `k` of a little-endian number is its digit of weight `256^k`. */
  lemma {:induction false} LEByteAt(n: nat, width: nat, k: nat)
    requires k < width
    ensures ToLE(n, width)[k] == (n / Pow2(8 * k)) % 256
  {
    if k > 0 {
      LEByteAt(n / 256, width - 1, k - 1);
      Pow2Byte(k - 1);
      DivideTwice(n, Pow2(8 * (k - 1)));
    }
  }

  lemma DivideTwice(n: nat, b: nat)
    requires b > 0
    ensures (n / 256) / b == n / (256 * b)
  {
    var q, r := n / 256, n % 256;
    var p, t := q / b, q % b;
    var bp := b * p;
    assert q == bp + t && t <= b - 1;
    assert (256 * b) * p == 256 * bp;
    QuotientIs(n, 256 * b, p, 256 * t + r);
  }

  lemma QuotientIs(n: nat, m: nat, q: int, r: int)
    requires m > 0 && 0 <= r < m && n == m * q + r
    ensures n / m == q
  {
    ModIs(n, m, q, r);
    assert m * (n / m) == m * q;
    assert m * (n / m - q) == m * (n / m) - m * q;
    MulZero(m, n / m - q, 0);
  }

  /** A signed number is written as the word it is congruent to. */
  lemma TwosIsCongruent(i: I64)
    ensures ToTwos(i) == i % 0x1_0000_0000_0000_0000 && FromTwos(ToTwos(i)) == i
  {
  }

  /** An absent number is a zero byte, a present one a one byte and the number. */
  function OptionalBytes(o: Option<I64>): Bytes {
    match o
    case None => [0]
    case Some(i) => [1] + ToLE(ToTwos(i), 8)
  }

  /** Kind 0, the symbol behind its two-byte length, time, price and quantity. */
  lemma TickBytes(symbol: Text, executedAt: U64, price: I64, quantity: U64)
    ensures Encode(TradeTick(symbol, executedAt, price, quantity))
         == [0] + ToLE(|symbol| % 0x1_0000, 2) + symbol
            + ToLE(executedAt, 8) + ToLE(ToTwos(price), 8) + ToLE(quantity, 8)
  {
    hide ToLE, ToTwos, IsUtf8;
    var fs := Fields(TradeTick(symbol, executedAt, price, quantity));
    assert fs[1..][1..] == fs[2..] && fs[2..][1..] == fs[3..] && fs[3..][1..] == [];
    assert EncodeFields(fs[3..]) == ToLE(quantity, 8) + [];
    assert EncodeFields(fs[2..]) == ToLE(ToTwos(price), 8) + EncodeFields(fs[3..]);
    assert EncodeFields(fs[1..]) == ToLE(executedAt, 8) + EncodeFields(fs[2..]);
  }

  /** Kind 1, the symbol, the sequence number, bid, bid quantity, ask, ask quantity and last trade. */
  lemma QuoteBytes(symbol: Text, seqNumber: U64, bid: Option<I64>, bidQuantity: U64,
                   ask: Option<I64>, askQuantity: U64, last: Option<I64>)
    ensures Encode(L1QuoteUpdate(symbol, seqNumber, bid, bidQuantity, ask, askQuantity, last))
         == [1] + (ToLE(|symbol| % 0x1_0000, 2) + symbol + ToLE(seqNumber, 8)
                   + OptionalBytes(bid) + ToLE(bidQuantity, 8)
                   + OptionalBytes(ask) + ToLE(askQuantity, 8) + OptionalBytes(last))
  {
    hide ToLE, ToTwos, IsUtf8, EncodeFields;
    var fs := Fields(L1QuoteUpdate(symbol, seqNumber, bid, bidQuantity, ask, askQuantity, last));
    SevenFields(fs);
  }

  lemma SevenFields(fs: seq<Field>)
    requires |fs| == 7
    ensures EncodeFields(fs)
         == EncodeField(fs[0]) + EncodeField(fs[1]) + EncodeField(fs[2]) + EncodeField(fs[3])
            + EncodeField(fs[4]) + EncodeField(fs[5]) + EncodeField(fs[6])
  {
    hide EncodeField, EncodeFields;
    FourFields(fs);
    FirstFields(fs, 5);
    FirstFields(fs, 6);
    FirstFields(fs, 7);
    assert fs[..7] == fs;
  }

  lemma FourFields(fs: seq<Field>)
    requires |fs| >= 4
    ensures EncodeFields(fs[..4])
         == EncodeField(fs[0]) + EncodeField(fs[1]) + EncodeField(fs[2]) + EncodeField(fs[3])
  {
    hide EncodeField, EncodeFields;
    NoFieldsLeft(fs);
    FirstFields(fs, 1);
    assert EncodeFields(fs[..1]) == EncodeField(fs[0]);
    FirstFields(fs, 2);
    FirstFields(fs, 3);
    FirstFields(fs, 4);
  }

  lemma FirstFields(fs: seq<Field>, n: nat)
    requires 0 < n <= |fs|
    ensures EncodeFields(fs[..n]) == EncodeFields(fs[..n - 1]) + EncodeField(fs[n - 1])
  {
    assert fs[..n] == fs[..n - 1] + [fs[n - 1]];
    EncodeFieldsSnoc(fs[..n - 1], fs[n - 1]);
  }

  lemma NoFieldsLeft(fs: seq<Field>)
    ensures EncodeFields(fs[..0]) == []
  {
  }

  /** Other kinds are rejected, and any non-zero tag says that an optional number is present. */
  lemma OtherKindsAreRejected(b: Bytes)
    ensures b == [] || b[0] > 1 ==> Decode(b) == None
  {
  }

  lemma AnyOtherTagIsPresent(tag: Byte, i: I64, junk: Bytes)
    ensures ParseField(KOptional, [tag] + ToLE(ToTwos(i), 8) + junk)
         == if tag == 0 then Some((FOptional(None), ToLE(ToTwos(i), 8) + junk)) else Some((FOptional(Some(i)), junk))
  {
    hide ToLE, FromLE, Pow2, IsUtf8;
    var b := [tag] + ToLE(ToTwos(i), 8) + junk;
    WidthBounds();
    LERoundTrip(ToTwos(i), 8);
    assert b[1..9] == ToLE(ToTwos(i), 8) && b[9..] == junk && b[1..] == ToLE(ToTwos(i), 8) + junk;
  }

  // ----- the encoder -----

  class DatagramBuffer {
    var bytes: Bytes
    const kind: Byte
    ghost var written: seq<Field>

    ghost predicate Valid()
      reads this
    {
      bytes == [kind] + EncodeFields(written)
    }

    constructor (kindByte: Byte)
      ensures Valid() && kind == kindByte && written == []
    {
      bytes, kind, written := [kindByte], kindByte, [];
    }

    method WriteLengthPrefixedString(value: Text)
      requires Valid()
      modifies this
      ensures Valid() && written == old(written) + [FText(value)]
    {
      hide EncodeFields, ToLE, ToTwos, IsUtf8;
      EncodeFieldsSnoc(written, FText(value));
      bytes := bytes + ToLE(|value| % 0x1_0000, 2);
      bytes := bytes + value;
      written := written + [FText(value)];
    }

    method WriteU64LittleEndian(value: U64)
      requires Valid()
      modifies this
      ensures Valid() && written == old(written) + [FU64(value)]
    {
      hide EncodeFields, ToLE, ToTwos, IsUtf8;
      EncodeFieldsSnoc(written, FU64(value));
      bytes := bytes + ToLE(value, 8);
      written := written + [FU64(value)];
    }

    method WriteI64LittleEndian(value: I64)
      requires Valid()
      modifies this
      ensures Valid() && written == old(written) + [FI64(value)]
    {
      hide EncodeFields, ToLE, ToTwos, IsUtf8;
      EncodeFieldsSnoc(written, FI64(value));
      bytes := bytes + ToLE(ToTwos(value), 8);
      written := written + [FI64(value)];
    }

    method WriteOptionalI64(value: Option<I64>)
      requires Valid()
      modifies this
      ensures Valid() && written == old(written) + [FOptional(value)]
    {
      hide EncodeFields, ToLE, ToTwos, IsUtf8;
      EncodeFieldsSnoc(written, FOptional(value));
      match value {
        case Some(inner) =>
          bytes := bytes + [1];
          bytes := bytes + ToLE(ToTwos(inner), 8);
        case None =>
          bytes := bytes + [0];
      }
      written := written + [FOptional(value)];
    }
  }

  lemma Associate(a: Bytes, b: Bytes, c: Bytes)
    ensures (a + b) + c == a + (b + c)
  {
  }

  /** Writing one more field appends its bytes. */
  lemma {:induction false} EncodeFieldsSnoc(fs: seq<Field>, f: Field)
    ensures EncodeFields(fs + [f]) == EncodeFields(fs) + EncodeField(f)
  {
    hide EncodeField;
    if fs == [] {
      assert fs + [f] == [f] && [f][1..] == [];
      assert EncodeFields([f]) == EncodeField(f) + EncodeFields([]);
    } else {
      EncodeFieldsSnoc(fs[1..], f);
      assert (fs + [f])[0] == fs[0] && (fs + [f])[1..] == fs[1..] + [f];
      Associate(EncodeField(fs[0]), EncodeFields(fs[1..]), EncodeField(f));
    }
  }

  method PublishTradeTick(symbol: Text, executedAt: U64, price: I64, quantity: U64) returns (datagram: Bytes)
    ensures datagram == Encode(TradeTick(symbol, executedAt, price, quantity))
  {
    hide EncodeFields;
    var buffer := new DatagramBuffer(TickKind);
    buffer.WriteLengthPrefixedString(symbol);
    buffer.WriteU64LittleEndian(executedAt);
    buffer.WriteI64LittleEndian(price);
    buffer.WriteU64LittleEndian(quantity);
    assert buffer.written == Fields(TradeTick(symbol, executedAt, price, quantity));
    return buffer.bytes;
  }

  method PublishL1Quote(symbol: Text, seqNumber: U64, bid: Option<I64>, bidQuantity: U64,
                        ask: Option<I64>, askQuantity: U64, last: Option<I64>) returns (datagram: Bytes)
    ensures datagram == Encode(L1QuoteUpdate(symbol, seqNumber, bid, bidQuantity, ask, askQuantity, last))
  {
    hide EncodeFields;
    var buffer := new DatagramBuffer(QuoteKind);
    buffer.WriteLengthPrefixedString(symbol);
    buffer.WriteU64LittleEndian(seqNumber);
    buffer.WriteOptionalI64(bid);
    buffer.WriteU64LittleEndian(bidQuantity);
    buffer.WriteOptionalI64(ask);
    buffer.WriteU64LittleEndian(askQuantity);
    buffer.WriteOptionalI64(last);
    assert buffer.written
        == Fields(L1QuoteUpdate(symbol, seqNumber, bid, bidQuantity, ask, askQuantity, last));
    return buffer.bytes;
  }

  // ----- the decoder -----

  class ByteCursor {
    const bytes: Bytes
    var position: nat
    /** The fields to come and the fields read so far. */
    ghost var layout: seq<Kind>
    ghost var done: seq<Field>

    ghost predicate Valid()
      reads this
    {
      position <= |bytes| && |done| <= |layout|
    }

    ghost function Rest(): Bytes
      requires Valid()
      reads this
    {
      bytes[position..]
    }

    /** All the fields of the layout, if the rest of the bytes holds those still to come. */
    ghost function Pending(): Option<seq<Field>>
      requires Valid()
      reads this
    {
      Continue(done, layout, Rest())
    }

    lemma PendingAtStart()
      requires Valid() && done == []
      ensures Pending() == ParseFields(layout, Rest())
    {
      NothingRead(layout, Rest());
    }

    lemma PendingAtEnd()
      requires Valid() && |done| == |layout|
      ensures Pending() == Some(done)
    {
      AllRead(done, layout, Rest());
    }

    ghost predicate Expects(kind: Kind)
      reads this
    {
      |done| < |layout| && layout[|done|] == kind
    }

    constructor (b: Bytes)
      ensures Valid() && Rest() == b && done == []
    {
      bytes, position, layout, done := b, 0, [], [];
    }

    method ReadU8() returns (r: Option<Byte>)
      requires Valid()
      modifies this`position
      ensures Valid()
      ensures if old(Rest()) == [] then r == None && Rest() == old(Rest())
              else r == Some(old(Rest())[0]) && Rest() == old(Rest())[1..]
    {
      if position >= |bytes| { return None; }
      r := Some(bytes[position]);
      position := position + 1;
    }

    method ReadFixedBytes(n: nat) returns (r: Option<Bytes>)
      requires Valid()
      modifies this`position
      ensures Valid()
      ensures if |old(Rest())| < n then r == None && Rest() == old(Rest())
              else r == Some(old(Rest())[..n]) && Rest() == old(Rest())[n..]
    {
      if position + n > |bytes| { return None; }
      r := Some(bytes[position..position + n]);
      assert bytes[position..][..n] == r.value && bytes[position..][n..] == bytes[position + n..];
      position := position + n;
    }

    method ReadU64() returns (r: Option<U64>)
      requires Valid() && Expects(KU64)
      modifies this
      ensures Valid() && layout == old(layout)
      ensures r.None? ==> old(Pending()) == None
      ensures r.Some? ==> |done| == |old(done)| + 1
      ensures r.Some? ==> done == old(done) + [FU64(r.value)] && Pending() == old(Pending())
    {
      hide Continue;
      OneMore(done, layout, Rest());
      var b := ReadFixedBytes(8);
      if b.None? { return None; }
      r := Some(FromU64Bytes(b.value));
      done := done + [FU64(r.value)];
    }

    method ReadI64() returns (r: Option<I64>)
      requires Valid() && Expects(KI64)
      modifies this
      ensures Valid() && layout == old(layout)
      ensures r.None? ==> old(Pending()) == None
      ensures r.Some? ==> |done| == |old(done)| + 1
      ensures r.Some? ==> done == old(done) + [FI64(r.value)] && Pending() == old(Pending())
    {
      hide Continue;
      OneMore(done, layout, Rest());
      var b := ReadFixedBytes(8);
      if b.None? { return None; }
      r := Some(FromTwos(FromU64Bytes(b.value)));
      done := done + [FI64(r.value)];
    }

    method ReadOptionalI64() returns (r: Option<Option<I64>>)
      requires Valid() && Expects(KOptional)
      modifies this
      ensures Valid() && layout == old(layout)
      ensures r.None? ==> old(Pending()) == None
      ensures r.Some? ==> |done| == |old(done)| + 1
      ensures r.Some? ==> done == old(done) + [FOptional(r.value)] && Pending() == old(Pending())
    {
      hide Continue;
      ghost var start := Rest();
      OneMore(done, layout, start);
      var tag := ReadU8();
      if tag.None? { return None; }
      if tag.value == 0 {
        r := Some(None);
      } else {
        var inner := ReadFixedBytes(8);
        if inner.None? { return None; }
        assert start[1..][..8] == start[1..9] && start[1..][8..] == start[9..];
        r := Some(Some(FromTwos(FromU64Bytes(inner.value))));
      }
      done := done + [FOptional(r.value)];
    }

    method ReadLengthPrefixedString() returns (r: Option<Text>)
      requires Valid() && Expects(KText)
      modifies this
      ensures Valid() && layout == old(layout)
      ensures r.None? ==> old(Pending()) == None
      ensures r.Some? ==> |done| == |old(done)| + 1
      ensures r.Some? ==> done == old(done) + [FText(r.value)] && Pending() == old(Pending())
    {
      hide Continue, IsUtf8, FromLE, ParseField;
      ParseText(Rest());
      OneMore(done, layout, Rest());
      var prefix := ReadFixedBytes(2);
      if prefix.None? { return None; }
      var length := FromLE(prefix.value);
      var text := ReadFixedBytes(length);
      if text.None? { return None; }
      if !IsUtf8(text.value) { return None; }
      r := Some(text.value);
      done := done + [FText(text.value)];
    }
  }

  lemma ParseText(b: Bytes)
    ensures ParseField(KText, b) ==
      if |b| < 2 then None
      else
        var length, rest := FromLE(b[..2]), b[2..];
        if |rest| < length || !IsUtf8(rest[..length]) then None
        else Some((FText(rest[..length]), rest[length..]))
  {
    hide FromLE, IsUtf8;
    if |b| >= 2 {
      var length, rest := FromLE(b[..2]), b[2..];
      if |rest| >= length { assert rest[..length] == b[2..2 + length] && rest[length..] == b[2 + length..]; }
    }
  }

  /** What the decoder will have once it has read `done` and goes on with `rest`. */
  ghost function Continue(done: seq<Field>, layout: seq<Kind>, rest: Bytes): Option<seq<Field>>
    requires |done| <= |layout|
  {
    var others := ParseFields(layout[|done|..], rest);
    if others.None? then None else Some(done + others.value)
  }

  lemma OneMore(done: seq<Field>, layout: seq<Kind>, rest: Bytes)
    requires |done| < |layout|
    ensures var r := ParseField(layout[|done|], rest);
      Continue(done, layout, rest) == if r.None? then None else Continue(done + [r.value.0], layout, r.value.1)
  {
    hide ParseField;
    var r := ParseField(layout[|done|], rest);
    if r.Some? {
      assert layout[|done|..][1..] == layout[|done| + 1..];
      var others := ParseFields(layout[|done| + 1..], r.value.1);
      if others.Some? { assert done + ([r.value.0] + others.value) == done + [r.value.0] + others.value; }
    }
  }

  lemma NothingRead(layout: seq<Kind>, rest: Bytes)
    ensures Continue([], layout, rest) == ParseFields(layout, rest)
  {
    assert layout[0..] == layout;
    var fs := ParseFields(layout, rest);
    if fs.Some? { assert [] + fs.value == fs.value; }
  }

  lemma AllRead(done: seq<Field>, layout: seq<Kind>, rest: Bytes)
    requires |done| == |layout|
    ensures Continue(done, layout, rest) == Some(done)
  {
    assert done + [] == done;
  }

  method DecodeMessage(b: Bytes) returns (m: Option<Message>)
    ensures m == Decode(b)
  {
    hide ParseFields, Continue;
    var cursor := new ByteCursor(b);
    var kind := cursor.ReadU8();
    if kind.None? { return None; }
    if kind.value == TickKind {
      cursor.layout := TickLayout;
      m := DecodeTick(cursor);
    } else if kind.value == QuoteKind {
      cursor.layout := QuoteLayout;
      m := DecodeQuote(cursor);
    } else {
      m := None;
    }
  }

  method DecodeTick(cursor: ByteCursor) returns (m: Option<Message>)
    requires cursor.Valid() && cursor.done == [] && cursor.layout == TickLayout
    modifies cursor
    ensures var fs := old(ParseFields(TickLayout, cursor.Rest()));
      m == if fs.None? then None else Some(TickFrom(fs.value))
  {
    hide ParseFields, Continue, ByteCursor.Rest, ByteCursor.Pending;
    cursor.PendingAtStart();
    var symbol := cursor.ReadLengthPrefixedString();
    if symbol.None? { return None; }
    var at := cursor.ReadU64();
    if at.None? { return None; }
    var price := cursor.ReadI64();
    if price.None? { return None; }
    var quantity := cursor.ReadU64();
    if quantity.None? { return None; }
    m := Some(TradeTick(symbol.value, at.value, price.value, quantity.value));
    cursor.PendingAtEnd();
  }

  lemma QuoteFields(m: Message)
    requires m.L1QuoteUpdate?
    ensures Fields(m) == [FText(m.symbol), FU64(m.seqNumber), FOptional(m.bestBid), FU64(m.bestBidQuantity),
                          FOptional(m.bestAsk), FU64(m.bestAskQuantity), FOptional(m.lastTrade)]
  {
  }

  lemma QuoteOfFields(m: Message)
    requires m.L1QuoteUpdate?
    ensures KindsOf(Fields(m)) == QuoteLayout && QuoteFrom(Fields(m)) == m
  {
    MessageFields(m);
  }

  method DecodeQuote(cursor: ByteCursor) returns (m: Option<Message>)
    requires cursor.Valid() && cursor.done == [] && cursor.layout == QuoteLayout
    modifies cursor
    ensures var fs := old(ParseFields(QuoteLayout, cursor.Rest()));
      m == if fs.None? then None else Some(QuoteFrom(fs.value))
  {
    hide ParseFields, Continue, QuoteFrom, KindsOf, Fields, IsUtf8, ByteCursor.Rest, ByteCursor.Pending;
    cursor.PendingAtStart();
    var symbol := cursor.ReadLengthPrefixedString();
    if symbol.None? { return None; }
    var seqNumber := cursor.ReadU64();
    if seqNumber.None? { return None; }
    var bid := cursor.ReadOptionalI64();
    if bid.None? { return None; }
    var bidQuantity := cursor.ReadU64();
    if bidQuantity.None? { return None; }
    var ask := cursor.ReadOptionalI64();
    if ask.None? { return None; }
    var askQuantity := cursor.ReadU64();
    if askQuantity.None? { return None; }
    var last := cursor.ReadOptionalI64();
    if last.None? { return None; }
    m := Some(L1QuoteUpdate(symbol.value, seqNumber.value, bid.value, bidQuantity.value,
                            ask.value, askQuantity.value, last.value));
    QuoteFields(m.value);
    assert cursor.done == Fields(m.value);
    QuoteOfFields(m.value);
    cursor.PendingAtEnd();
  }
}
