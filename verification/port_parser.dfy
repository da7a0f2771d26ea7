/**
  The transport-layer port grammar: a 16-bit unsigned number, a slash and
  one of "?", "tcp", "udp", "icmp", as in "80/tcp". The attributed parser
  stores the number and the protocol in a port; the attribute-less one only
  recognises the same inputs.

  The 16-bit number parser is not part of this model; it is taken as one or
  more decimal digits, as many as there are, whose value must fit in 16
  bits.
 */
module PortParser {
  import opened Wrappers
  import opened ParseCore

  datatype PortType = Unknown | Tcp | Udp | Icmp

  datatype Port = Port(number: nat, kind: PortType)

  /** The largest value plus one of a 16-bit unsigned number. */
  const U16Limit: nat := 0x1_0000

  predicate IsDigit(c: char) {
    '0' <= c <= '9'
  }

  function DigitValue(c: char): nat
    requires IsDigit(c)
  {
    c as nat - '0' as nat
  }

  /** The value of a string of decimal digits. */
  function Value(ds: string): nat
    requires forall i :: 0 <= i < |ds| ==> IsDigit(ds[i])
    decreases |ds|
  {
    if |ds| == 0 then 0 else Value(ds[..|ds| - 1]) * 10 + DigitValue(ds[|ds| - 1])
  }

  /** `u16`: the digits, if their value fits in 16 bits. */
  function U16(s: string): (r: Option<(nat, string)>)
    ensures r.Some? ==> r.value.0 < U16Limit
  {
    PlusClass(IsDigit, s);
    RunLengthMaximal(IsDigit, s);
    match Plus(Chr(IsDigit), s)
    case None => None
    case Some((ds, rest)) =>
      var n := Value(ds);
      if n < U16Limit then Some((n, rest)) else None
  }

  /** `u16` on digits followed by a non-digit, or by nothing: the digits'
      value if it fits, otherwise failure. */
  lemma U16Of(ds: string, t: string)
    requires |ds| >= 1 && forall i :: 0 <= i < |ds| ==> IsDigit(ds[i])
    requires t == [] || !IsDigit(t[0])
    ensures U16(ds + t) == if Value(ds) < U16Limit then Some((Value(ds), t)) else None
  {
    var s := ds + t;
    RunLengthOf(IsDigit, ds, t);
    PlusClass(IsDigit, s);
    assert s[0] == ds[0];
    assert s[..|ds|] == ds && s[|ds|..] == t;
  }

  /** The protocol alternatives, with their actions. */
  function Protocol(): Parser<PortType> {
    Alt(Alt(Alt(Action(Lit("?"), Unknown), Action(Lit("tcp"), Tcp)), Action(Lit("udp"), Udp)), Action(Lit("icmp"), Icmp))
  }

  /** The attributed grammar `u16 >> '/' >> protocol`. */
  function Grammar(): Parser<((nat, ()), PortType)> {
    Seq(Seq(s => U16(s), Lit("/")), Protocol())
  }

  /** The attribute-less grammar: the same sequence without actions. */
  function Recognizer(): Parser<((nat, ()), ())> {
    Seq(Seq(s => U16(s), Lit("/")), Names())
  }

  /** The parser with a port attribute: on success the number and the
      protocol go into the port. */
  function Parse(s: string): (r: Option<(Port, string)>)
    ensures r.Some? ==> r.value.0.number < U16Limit
  {
    match Grammar()(s)
    case None => None
    case Some((((n, _), k), rest)) => Some((Port(n, k), rest))
  }

  /** The attribute-less parser: only whether it matched and what is left.
      It accepts exactly what the grammar's steps accept (a 16-bit number,
      a slash and a protocol name) and leaves the same rest. */
  function Recognize(s: string): (r: Option<string>)
    ensures r.Some? <==> Steps(s).Some?
    ensures r.Some? ==> r.value == Steps(s).value.1
  {
    RecognizerSteps(s);
    match Recognizer()(s)
    case None => None
    case Some((_, rest)) => Some(rest)
  }

  /** The recognizer agrees with the grammar's steps. */
  lemma RecognizerSteps(s: string)
    ensures Recognizer()(s).Some? <==> Steps(s).Some?
    ensures Recognizer()(s).Some? ==> Recognizer()(s).value.1 == Steps(s).value.1
  {
    match U16(s)
    case None =>
    case Some((n, r)) =>
      match Lit("/")(r)
      case None =>
      case Some((_, r')) => NamesAgree(r');
  }

  /** How each protocol is written. */
  function ProtocolText(k: PortType): string {
    match k
    case Unknown => "?"
    case Tcp => "tcp"
    case Udp => "udp"
    case Icmp => "icmp"
  }

  /** Both overloads accept exactly the same inputs and leave the same rest. */
  lemma OverloadsAgree(s: string)
    ensures Recognize(s).Some? <==> Parse(s).Some?
    ensures Parse(s).Some? ==> Recognize(s) == Some(Parse(s).value.1)
  {
    ParseSteps(s);
    RecognizeSteps(s);
    match U16(s)
    case None =>
    case Some((n, r)) =>
      match Lit("/")(r)
      case None =>
      case Some((_, r')) => NamesAgree(r');
  }

  lemma RecognizeSteps(s: string)
    ensures Recognize(s) ==
      match U16(s)
      case None => None
      case Some((_, r)) =>
        match Lit("/")(r)
        case None => None
        case Some((_, r')) =>
          match Names()(r')
          case None => None
          case Some((_, r'')) => Some(r'')
  {
  }

  /** The protocol names without actions. */
  function Names(): Parser<()> {
    Alt(Alt(Alt(Lit("?"), Lit("tcp")), Lit("udp")), Lit("icmp"))
  }

  /** Dropping the actions changes no match and no rest. */
  lemma NamesAgree(t: string)
    ensures Names()(t).Some? <==> Protocol()(t).Some?
    ensures Names()(t).Some? ==> Names()(t).value.1 == Protocol()(t).value.1
  {
  }

  /** The protocol alternatives recognise exactly their written forms. */
  lemma ProtocolSound(s: string, k: PortType, rest: string)
    requires Protocol()(s) == Some((k, rest))
    ensures s == ProtocolText(k) + rest
  {
    var w := ProtocolText(k);
    assert s[..|w|] == w && s[|w|..] == rest;
    assert s == s[..|w|] + s[|w|..];
  }

  lemma ProtocolComplete(k: PortType, rest: string)
    ensures Protocol()(ProtocolText(k) + rest) == Some((k, rest))
  {
    var s := ProtocolText(k) + rest;
    match k
    case Unknown => ActionLitMatches("?", Unknown, rest);
    case Tcp =>
      MissesFirst("?", Unknown, s);
      ActionLitMatches("tcp", Tcp, rest);
    case Udp =>
      MissesFirst("?", Unknown, s);
      MissesFirst("tcp", Tcp, s);
      ActionLitMatches("udp", Udp, rest);
    case Icmp =>
      MissesFirst("?", Unknown, s);
      MissesFirst("tcp", Tcp, s);
      MissesFirst("udp", Udp, s);
      ActionLitMatches("icmp", Icmp, rest);
  }

  /** A literal with an action yields the action's value on its own text. */
  lemma ActionLitMatches<B>(w: string, v: B, t: string)
    ensures Action(Lit(w), v)(w + t) == Some((v, t))
  {
    LitMatches(w, t);
  }

  /** A literal with an action fails on input that starts differently. */
  lemma MissesFirst<B>(w: string, v: B, s: string)
    requires |w| > 0 && |s| > 0 && s[0] != w[0]
    ensures Action(Lit(w), v)(s) == None
  {
    if |w| <= |s| {
      assert s[..|w|][0] != w[0];
    }
  }

  /** The grammar's steps one after the other. */
  function Steps(s: string): Option<(Port, string)> {
    match U16(s)
    case None => None
    case Some((n, r)) =>
      match Lit("/")(r)
      case None => None
      case Some((_, r')) =>
        match Protocol()(r')
        case None => None
        case Some((k, r'')) => Some((Port(n, k), r''))
  }

  lemma ParseSteps(s: string)
    ensures Parse(s) == Steps(s)
  {
  }

  /** What `u16` accepts: the longest run of digits, when there is one and
      its value fits. */
  lemma U16Sound(s: string)
    requires U16(s).Some?
    ensures var n := RunLength(IsDigit, s);
      && 1 <= n && (forall i :: 0 <= i < n ==> IsDigit(s[i]))
      && Value(s[..n]) == U16(s).value.0 && s[n..] == U16(s).value.1
  {
    var n := RunLength(IsDigit, s);
    RunLengthMaximal(IsDigit, s);
    assert s == s[..n] + s[n..];
    U16Of(s[..n], s[n..]);
  }

  /** An accepted input passes each step of the grammar. */
  lemma ParseShape(s: string, p: Port, rest: string)
    requires Parse(s) == Some((p, rest))
    ensures U16(s).Some? && U16(s).value.0 == p.number
    ensures |U16(s).value.1| >= 1 && U16(s).value.1[0] == '/'
    ensures Protocol()(U16(s).value.1[1..]) == Some((p.kind, rest))
  {
    ParseSteps(s);
  }

  /** What an accepted input looks like: a run of digits with the port's
      number as value, a slash, the protocol's written form, and the rest. */
  lemma ParseSound(s: string, p: Port, rest: string)
    requires Parse(s) == Some((p, rest))
    ensures Accepted(s, p, rest)
  {
    ParseShape(s, p, rest);
    ShapeSound(s, p, rest);
  }

  /** `s` is a run of digits with value `p.number`, a slash, the written
      form of `p.kind`, and then `rest`. */
  ghost predicate Accepted(s: string, p: Port, rest: string) {
    exists n: nat ::
      1 <= n <= |s| && (forall i :: 0 <= i < n ==> IsDigit(s[i]))
      && Value(s[..n]) == p.number && s[n..] == "/" + ProtocolText(p.kind) + rest
  }

  lemma ShapeSound(s: string, p: Port, rest: string)
    requires U16(s).Some? && U16(s).value.0 == p.number
    requires |U16(s).value.1| >= 1 && U16(s).value.1[0] == '/'
    requires Protocol()(U16(s).value.1[1..]) == Some((p.kind, rest))
    ensures Accepted(s, p, rest)
  {
    U16Sound(s);
    var after := U16(s).value.1;
    ProtocolSound(after[1..], p.kind, rest);
    AcceptedAt(s, RunLength(IsDigit, s), after, p, rest);
  }

  lemma AcceptedAt(s: string, n: nat, after: string, p: Port, rest: string)
    requires 1 <= n <= |s| && (forall i :: 0 <= i < n ==> IsDigit(s[i]))
    requires Value(s[..n]) == p.number && s[n..] == after
    requires |after| >= 1 && after[0] == '/' && after[1..] == ProtocolText(p.kind) + rest
    ensures Accepted(s, p, rest)
  {
    assert after == "/" + after[1..];
  }

  /** The decimal rendering of a number, without leading zeros. */
  function Decimal(n: nat): (ds: string)
    ensures |ds| >= 1 && forall i :: 0 <= i < |ds| ==> IsDigit(ds[i])
    decreases n
  {
    var d := ['0' + ((n % 10) as char)];
    if n < 10 then d else Decimal(n / 10) + d
  }

  lemma {:induction false} DecimalValue(n: nat)
    ensures Value(Decimal(n)) == n
    decreases n
  {
    var ds := Decimal(n);
    if n >= 10 {
      DecimalValue(n / 10);
      assert ds[..|ds| - 1] == Decimal(n / 10);
    }
  }

  /** How a port is written. */
  function Print(p: Port): string {
    Decimal(p.number) + "/" + ProtocolText(p.kind)
  }

  /** Round trip: a printed port with a 16-bit number parses back to
      itself, whatever follows it. */
  lemma RoundTrip(p: Port, rest: string)
    requires p.number < U16Limit
    ensures Parse(Print(p) + rest) == Some((p, rest))
  {
    var ds := Decimal(p.number);
    var tail := "/" + (ProtocolText(p.kind) + rest);
    assert Print(p) + rest == ds + tail;
    DecimalValue(p.number);
    U16Of(ds, tail);
    LitMatches("/", ProtocolText(p.kind) + rest);
    ProtocolComplete(p.kind, rest);
    ParseSteps(ds + tail);
  }

  /** A number too large for 16 bits is rejected. */
  lemma RejectsWideNumber(p: Port, rest: string)
    requires p.number >= U16Limit
    ensures Parse(Print(p) + rest) == None
  {
    var ds := Decimal(p.number);
    var tail := "/" + (ProtocolText(p.kind) + rest);
    assert Print(p) + rest == ds + tail;
    DecimalValue(p.number);
    U16Of(ds, tail);
  }

  /** Digits followed by anything but a slash are rejected. */
  lemma RejectsMissingSlash(ds: string, rest: string)
    requires |ds| >= 1 && forall i :: 0 <= i < |ds| ==> IsDigit(ds[i])
    requires rest == [] || (!IsDigit(rest[0]) && rest[0] != '/')
    ensures Parse(ds + rest) == None
  {
    U16Of(ds, rest);
    ParseSteps(ds + rest);
  }

  /** A slash followed by none of the protocol names is rejected. */
  lemma RejectsUnknownProtocol(ds: string, rest: string)
    requires |ds| >= 1 && forall i :: 0 <= i < |ds| ==> IsDigit(ds[i])
    requires forall k: PortType :: !IsPrefix(ProtocolText(k), rest)
    ensures Parse(ds + "/" + rest) == None
  {
    var tail := "/" + rest;
    assert ds + "/" + rest == ds + tail;
    U16Of(ds, tail);
    assert tail[1..] == rest;
    ProtocolSoundPrefix(rest);
    ParseSteps(ds + tail);
  }

  predicate IsPrefix(w: string, s: string) {
    |w| <= |s| && s[..|w|] == w
  }

  /** A protocol match is a prefix of its input. */
  lemma ProtocolSoundPrefix(s: string)
    ensures Protocol()(s).Some? ==> IsPrefix(ProtocolText(Protocol()(s).value.0), s)
  {
  }

  /** A well-known port. */
  lemma AcceptsTcp()
    ensures Parse("80/tcp") == Some((Port(80, Tcp), ""))
  {
    var s := Print(Port(80, Tcp)) + "";
    assert Decimal(8) == "8";
    assert Decimal(80) == "80";
    assert s == "80/tcp";
    RoundTrip(Port(80, Tcp), "");
  }

  /** The protocol may be left open. */
  lemma AcceptsUnknown()
    ensures Parse("0/?") == Some((Port(0, Unknown), ""))
  {
    var s := Print(Port(0, Unknown)) + "";
    assert Decimal(0) == "0";
    assert s == "0/?";
    RoundTrip(Port(0, Unknown), "");
  }

  /** What follows the protocol is left over. */
  lemma LeavesRest()
    ensures Parse("53/udp rest") == Some((Port(53, Udp), " rest"))
  {
    assert Decimal(5) == "5";
    assert Decimal(53) == "53";
    assert Print(Port(53, Udp)) + " rest" == "53/udp rest";
    RoundTrip(Port(53, Udp), " rest");
  }

  /** Rejected examples. */
  lemma RejectsExamples()
    ensures Parse("80/sctp") == None
    ensures Parse("80tcp") == None
  {
    forall k: PortType
      ensures !IsPrefix(ProtocolText(k), "sctp")
    {
      assert ProtocolText(k)[0] != 's';
    }
    RejectsUnknownProtocol("80", "sctp");
    assert "80" + "/" + "sctp" == "80/sctp";
    RejectsMissingSlash("80", "tcp");
    assert "80" + "tcp" == "80tcp";
  }

  /** 65536 does not fit in 16 bits. */
  lemma RejectsOverflowExample()
    ensures Parse("65536/tcp") == None
  {
    assert Decimal(6) == "6";
    assert Decimal(65) == "65";
    assert Decimal(655) == "655";
    assert Decimal(6553) == "6553";
    assert Decimal(65536) == "65536";
    assert Print(Port(65536, Tcp)) + "" == "65536/tcp";
    RejectsWideNumber(Port(65536, Tcp), "");
  }
}
