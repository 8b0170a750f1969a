/** Codecs of the kind the log relies on exist: numbers in unary, closed by an ending that occurs nowhere else. */
module WitnessCodec {
  import opened OrderTypes
  import opened Utf8
  import opened WriteAheadLog
  import opened CrashSafety

  const Tally: Byte := 0x31
  const Stop: Byte := 0x30

  function Unary(n: nat): seq<Byte> {
    if n == 0 then [Stop] else [Tally] + Unary(n - 1)
  }

  function Unaries(ns: seq<nat>): seq<Byte> {
    if ns == [] then [] else Unary(ns[0]) + Unaries(ns[1..])
  }

  lemma {:induction false} UnaryHead(n: nat, m: nat, p: seq<Byte>, q: seq<Byte>)
    requires Unary(n) + p == Unary(m) + q
    ensures n == m && p == q
  {
    assert (Unary(n) + p)[0] == (Unary(m) + q)[0];
    if n == 0 {
      assert p == (Unary(n) + p)[1..] == (Unary(m) + q)[1..] == q;
    } else {
      assert Unary(n - 1) + p == (Unary(n) + p)[1..] == (Unary(m) + q)[1..] == Unary(m - 1) + q;
      UnaryHead(n - 1, m - 1, p, q);
    }
  }

  lemma {:induction false} UnariesInjective(ns: seq<nat>, ms: seq<nat>)
    requires Unaries(ns) == Unaries(ms)
    ensures ns == ms
  {
    if ns != [] && ms != [] {
      UnaryHead(ns[0], ms[0], Unaries(ns[1..]), Unaries(ms[1..]));
      UnariesInjective(ns[1..], ms[1..]);
      assert ns == [ns[0]] + ns[1..] && ms == [ms[0]] + ms[1..];
    }
  }

  lemma {:induction false} UnaryDigits(n: nat)
    ensures forall i :: 0 <= i < |Unary(n)| ==> Unary(n)[i] == Tally || Unary(n)[i] == Stop
  {
    if n > 0 { UnaryDigits(n - 1); }
  }

  lemma {:induction false} UnariesDigits(ns: seq<nat>)
    ensures forall i :: 0 <= i < |Unaries(ns)| ==> Unaries(ns)[i] == Tally || Unaries(ns)[i] == Stop
  {
    if ns != [] {
      UnaryDigits(ns[0]);
      UnariesDigits(ns[1..]);
    }
  }

  // ----- records as numbers -----

  function Chars(s: string): (ns: seq<nat>)
    ensures |ns| == |s|
  {
    seq(|s|, i requires 0 <= i < |s| => s[i] as nat)
  }

  lemma CharsInjective(s: string, t: string)
    requires Chars(s) == Chars(t)
    ensures s == t
  {
    forall i | 0 <= i < |s| ensures s[i] == t[i] {
      assert Chars(s)[i] == Chars(t)[i];
    }
  }

  function Sign(i: int): nat { if i < 0 then 1 else 0 }

  function Size(i: int): nat { if i < 0 then -i else i }

  function TypeNumber(t: OrderType): nat {
    match t
    case Limit => 0
    case Market => 1
    case StopLossLimit => 2
    case StopLossMarket => 3
  }

  function Header(r: WalRecord): seq<nat> {
    match r
    case OrderAccepted(id, account, side, orderType, limit, trigger, quantity, at) =>
      var stop := if trigger.Some? then trigger.value else 0;
      [0, id, if side == Buy then 0 else 1, TypeNumber(orderType), Sign(limit), Size(limit),
       if trigger.Some? then 1 else 0, Sign(stop), Size(stop), quantity, at, |account|]
    case OrderCancelled(id, was, at) => [1, id, if was then 1 else 0, at]
    case TradeExecuted(t, at) =>
      [2, Sign(t.price), Size(t.price), t.quantity, if t.isBuyAggressor then 1 else 0, at, |t.buyer|, |t.seller|]
  }

  function Names(r: WalRecord): seq<nat> {
    match r
    case OrderAccepted(_, account, _, _, _, _, _, _) => Chars(account)
    case OrderCancelled(_, _, _) => []
    case TradeExecuted(t, _) => Chars(t.buyer) + Chars(t.seller)
  }

  lemma NumbersInjective(r: WalRecord, q: WalRecord)
    requires Header(r) + Names(r) == Header(q) + Names(q)
    ensures r == q
  {
    var a, b := Header(r) + Names(r), Header(q) + Names(q);
    assert a[0] == Header(r)[0] && b[0] == Header(q)[0];
    assert |Header(r)| == |Header(q)|;
    assert Header(r) == a[..|Header(r)|] == b[..|Header(r)|] == Header(q);
    assert Names(r) == a[|Header(r)|..] == b[|Header(r)|..] == Names(q);
    SameHeader(r, q);
  }

  lemma SameHeader(r: WalRecord, q: WalRecord)
    requires Header(r) == Header(q) && Names(r) == Names(q)
    ensures r == q
  {
    assert Header(r)[0] == Header(q)[0];
    match r {
      case OrderAccepted(_, account, _, _, _, _, _, _) =>
        AcceptedFields(r, q);
        CharsInjective(account, q.account);
      case OrderCancelled(_, _, _) =>
        assert forall i :: 0 <= i < 4 ==> Header(r)[i] == Header(q)[i];
      case TradeExecuted(t, _) =>
        assert forall i :: 0 <= i < 8 ==> Header(r)[i] == Header(q)[i];
        var n := |t.buyer|;
        assert Header(r)[6] == Header(q)[6] && Header(r)[1] == Header(q)[1] && Header(r)[2] == Header(q)[2];
        assert Header(r)[3] == Header(q)[3] && Header(r)[4] == Header(q)[4] && Header(r)[5] == Header(q)[5];
        assert Chars(t.buyer) == Names(r)[..n] == Names(q)[..n] == Chars(q.trade.buyer);
        assert Chars(t.seller) == Names(r)[n..] == Names(q)[n..] == Chars(q.trade.seller);
        CharsInjective(t.buyer, q.trade.buyer);
        CharsInjective(t.seller, q.trade.seller);
    }
  }

  lemma AcceptedFields(r: WalRecord, q: WalRecord)
    requires r.OrderAccepted? && q.OrderAccepted? && Header(r) == Header(q)
    ensures r.(account := q.account) == q
  {
    var a, b := Header(r), Header(q);
    assert a[1] == b[1] && a[2] == b[2] && a[3] == b[3] && a[4] == b[4] && a[5] == b[5];
    assert a[6] == b[6] && a[7] == b[7] && a[8] == b[8] && a[9] == b[9] && a[10] == b[10];
  }

  // ----- the codec -----

  /** Closes a line: its last byte occurs nowhere else in a line. */
  predicate IsEnding(e: seq<Byte>) {
    && e != [] && IsUtf8(e) && LF !in e && CR !in e
    && Tally !in e && Stop !in e && e[|e| - 1] !in e[..|e| - 1]
  }

  function Encoding(e: seq<Byte>, r: WalRecord): seq<Byte> {
    Unaries(Header(r) + Names(r)) + e
  }

  ghost function Parsed(e: seq<Byte>, s: seq<Byte>): Option<WalRecord> {
    if exists r :: Encoding(e, r) == s then
      var r :| Encoding(e, r) == s;
      Some(r)
    else None
  }

  ghost function UnaryCodec(e: seq<Byte>): Codec {
    Codec(r => Encoding(e, r), s => Parsed(e, s), s => s == [])
  }

  lemma EncodingInjective(e: seq<Byte>, r: WalRecord, q: WalRecord)
    requires Encoding(e, r) == Encoding(e, q)
    ensures r == q
  {
    var a, b := Unaries(Header(r) + Names(r)), Unaries(Header(q) + Names(q));
    assert a == Encoding(e, r)[..|Encoding(e, r)| - |e|] == Encoding(e, q)[..|Encoding(e, q)| - |e|] == b;
    UnariesInjective(Header(r) + Names(r), Header(q) + Names(q));
    NumbersInjective(r, q);
  }

  lemma PrefixIsNoEncoding(e: seq<Byte>, r: WalRecord, k: nat, q: WalRecord)
    requires IsEnding(e) && k < |Encoding(e, r)|
    ensures Encoding(e, q) != Encoding(e, r)[..k]
  {
    UnariesDigits(Header(r) + Names(r));
    var whole, last := Encoding(e, r), e[|e| - 1];
    var n := |whole| - |e|;
    forall i | 0 <= i < k ensures whole[i] != last {
      if i >= n { assert whole[i] == e[..|e| - 1][i - n]; }
    }
    assert Encoding(e, q)[|Encoding(e, q)| - 1] == last;
  }

  lemma UnaryCodecIsFaithful(e: seq<Byte>)
    requires IsEnding(e)
    ensures Faithful(UnaryCodec(e))
  {
    forall r ensures FaithfulOn(UnaryCodec(e), r) {
      var line := Encoding(e, r);
      UnariesDigits(Header(r) + Names(r));
      AsciiIsUtf8(Unaries(Header(r) + Names(r)));
      AppendUtf8(Unaries(Header(r) + Names(r)), e);
      forall q | Encoding(e, q) == line ensures q == r { EncodingInjective(e, q, r); }
      assert Parsed(e, line) == Some(r);
      forall k | 0 <= k < |line| ensures Parsed(e, line[..k]) == None {
        forall q ensures Encoding(e, q) != line[..k] { PrefixIsNoEncoding(e, r, k, q); }
      }
    }
  }

  const Dot: seq<Byte> := [0x2E]

  /** The two bytes of a letter outside ASCII. */
  const Accented: seq<Byte> := [0xC3, 0xA9]

  lemma AnAsciiCodec()
    ensures Faithful(UnaryCodec(Dot)) && forall r :: IsAscii(UnaryCodec(Dot).encode(r))
  {
    AsciiIsUtf8(Dot);
    UnaryCodecIsFaithful(Dot);
    forall r ensures IsAscii(UnaryCodec(Dot).encode(r)) { UnariesDigits(Header(r) + Names(r)); }
  }

  /** With this faithful codec, behind every log and for every command some cut makes recovery fail. */
  lemma ACodecThatCanFail(log: seq<WalRecord>, next: Stamped)
    ensures Faithful(UnaryCodec(Accented))
    ensures var c := UnaryCodec(Accented);
      var n := |c.encode(RecordsOf(BookOf(log), next)[0])| - 1;
      n >= 0
      && n <= |Log(c, RecordsOf(BookOf(log), next))|
      && Recover(c, Log(c, log) + Log(c, RecordsOf(BookOf(log), next))[..n]) == Failed(NotUtf8)
  {
    hide RecordsOf, Recover, Header, Names, Unaries;
    AccentedIsAnEnding();
    UnaryCodecIsFaithful(Accented);
    var c, r := UnaryCodec(Accented), RecordsOf(BookOf(log), next)[0];
    var n := |c.encode(r)| - 1;
    assert c.encode(r) == Unaries(Header(r) + Names(r)) + Accented;
    SomethingBefore(r);
    CutInsideACharacterDefeatsRecovery(c, log, next, n);
  }

  lemma AccentedIsAnEnding()
    ensures IsEnding(Accented)
  {
    assert CharLength(Accented) == 2 && IsUtf8(Accented[2..]);
  }

  lemma SomethingBefore(r: WalRecord)
    ensures Unaries(Header(r) + Names(r)) != []
  {
    assert (Header(r) + Names(r)) != [];
    assert |Unary((Header(r) + Names(r))[0])| > 0;
  }
}
