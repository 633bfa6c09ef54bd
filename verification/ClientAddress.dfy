/** The key a network address is counted under. */
module ClientAddress {
  import opened Basics
  import opened Texts
  import opened Ipv6
  import opened Ipv6Expansion

  const SUBNET_GROUPS := 4
  const MAPPED_PREFIX_GROUPS := 5
  const MAPPED_MARKER := "ffff"
  const ZERO_GROUP := "0000"

  datatype Family = V4 | V6

  /** Dotted IPv4, or the eight lower-case four-digit groups of an IPv6 address joined by colons. */
  datatype ParsedIp = ParsedIp(family: Family, canonical: string)

  // ----- What an address text means

  datatype IpText = Ipv4(quad: Quad) | Ipv6(text: Ipv6Text)

  predicate IsIpText(x: IpText) {
    match x
    case Ipv4(quad) => IsQuad(quad)
    case Ipv6(text) => WellFormed(text)
  }

  function PrintIp(x: IpText): string {
    match x
    case Ipv4(quad) => Dotted(quad)
    case Ipv6(text) => Print(text)
  }

  /** Who is counted: a single IPv4 host, or the upper 64 bits of an IPv6 network. */
  datatype Client = Host(quad: Quad) | Network(prefix: seq<nat>)

  predicate IsMapped(vs: seq<nat>)
    requires |vs| == GROUPS
  {
    vs[0] == vs[1] == vs[2] == vs[3] == vs[4] == 0 && vs[5] == 0xffff
  }

  function ClientOfGroups(vs: seq<nat>): Client
    requires |vs| == GROUPS
  {
    if IsMapped(vs) then Host(Quad(vs[6] / BYTE, vs[6] % BYTE, vs[7] / BYTE, vs[7] % BYTE))
    else Network(vs[..SUBNET_GROUPS])
  }

  function ClientOf(x: IpText): Client
    requires IsIpText(x)
  {
    match x
    case Ipv4(quad) => Host(quad)
    case Ipv6(text) => ClientOfGroups(Denote(text))
  }

  /** What is taken from Node's `isIP`: it answers 4 or 6 only for texts of that family. */
  ghost predicate AcceptsOnlyIpTexts(isIP: string -> int) {
    && (forall text :: isIP(text) == 4 ==> exists q :: IsQuad(q) && text == Dotted(q))
    && (forall text :: isIP(text) == 6 ==> exists t :: WellFormed(t) && text == Print(t))
  }

  /** It accepts this text. */
  predicate Accepts(isIP: string -> int, x: IpText) {
    isIP(PrintIp(x)) == if x.Ipv4? then 4 else 6
  }

  // ----- Parsing and normalising

  function ParseGroups(groups: seq<string>): ParsedIp {
    var isMappedV4 :=
      && |groups| > MAPPED_PREFIX_GROUPS
      && (forall i :: 0 <= i < MAPPED_PREFIX_GROUPS ==> groups[i] == ZERO_GROUP)
      && groups[MAPPED_PREFIX_GROUPS] == MAPPED_MARKER;
    if isMappedV4 then
      var high := if |groups| > 6 then groups[6] else ZERO_GROUP;
      var low := if |groups| > 7 then groups[7] else ZERO_GROUP;
      ParsedIp(V4, Join([HexAsDec(Front(high)), HexAsDec(Rest(high)), HexAsDec(Front(low)), HexAsDec(Rest(low))], '.'))
    else ParsedIp(V6, Join(groups, ':'))
  }

  /** `slice(0, 2)` */
  function Front(s: string): string {
    s[..Min(2, |s|)]
  }

  /** `slice(2)` */
  function Rest(s: string): string {
    s[Min(2, |s|)..]
  }

  function HexAsDec(octet: string): string {
    Show(Value(octet, HEX), DEC)
  }

  function ParseIp(isIP: string -> int, text: string): Option<ParsedIp> {
    if isIP(text) == 4 then Some(ParsedIp(V4, text))
    else if isIP(text) != 6 then None
    else Some(ParseGroups(ExpandIpv6(text)))
  }

  function ZeroSubnet(): seq<string> {
    [ZERO_GROUP, ZERO_GROUP, ZERO_GROUP, ZERO_GROUP]
  }

  function Normalise(parsed: ParsedIp): string {
    if parsed.family.V4? then parsed.canonical
    else
      var groups := Split(parsed.canonical, ':');
      Join(groups[..Min(SUBNET_GROUPS, |groups|)] + ZeroSubnet(), ':')
  }

  /** Ordinary IPv6 text for the trusted-proxy list: each group without its leading zeros. */
  function CompressForBlockList(parsed: ParsedIp): string {
    Join(Unpadded(Split(parsed.canonical, ':')), ':')
  }

  function Unpadded(groups: seq<string>): (r: seq<string>)
    ensures |r| == |groups| && forall i :: 0 <= i < |groups| ==> r[i] == Show(Value(groups[i], HEX), HEX)
  {
    seq(|groups|, i requires 0 <= i < |groups| => Show(Value(groups[i], HEX), HEX))
  }

  // ----- The key of a client

  predicate IsClient(c: Client) {
    match c
    case Host(q) => IsQuad(q)
    case Network(prefix) => |prefix| == SUBNET_GROUPS && forall i :: 0 <= i < SUBNET_GROUPS ==> prefix[i] < 65536
  }

  function KeyOf(c: Client): string
    requires IsClient(c)
  {
    match c
    case Host(q) => Dotted(q)
    case Network(prefix) => Join(AllHex4(prefix) + ZeroSubnet(), ':')
  }

  predicate Small(vs: seq<nat>) {
    forall i :: 0 <= i < |vs| ==> vs[i] < 65536
  }

  lemma Hex4Group(v: nat)
    requires v < 65536
    ensures IsGroup(Hex4(v)) && ':' !in Hex4(v) && Lower(Hex4(v)) == Hex4(v)
    ensures Value(Hex4(v), HEX) == v
    ensures Value(Hex4(v)[..2], HEX) == v / BYTE && Value(Hex4(v)[2..], HEX) == v % BYTE
    ensures Hex4(v) == ZERO_GROUP <==> v == 0
    ensures Hex4(v) == MAPPED_MARKER <==> v == 0xffff
  {
    hide DigitChar, DigitValue, Value, Hex4;
    Hex4Shape(v);
    Hex4Values(v);
    SpecialGroups();
    if Hex4(v) == ZERO_GROUP {
      Hex4TellsApart(v, 0);
    }
    if Hex4(v) == MAPPED_MARKER {
      Hex4TellsApart(v, 0xffff);
    }
  }

  lemma Hex4Shape(v: nat)
    requires v < 65536
    ensures IsGroup(Hex4(v)) && ':' !in Hex4(v) && Lower(Hex4(v)) == Hex4(v)
  {
    hide DigitChar, DigitValue;
  }

  lemma Hex4Values(v: nat)
    requires v < 65536
    ensures Value(Hex4(v), HEX) == v
    ensures Value(Hex4(v)[..2], HEX) == v / BYTE && Value(Hex4(v)[2..], HEX) == v % BYTE
  {
    hide DigitChar, DigitValue, Value;
    var g := Hex4(v);
    Hex4Shape(v);
    Unfold(g);
    Places(v);
    TwoDigits(g[..2]);
    TwoDigits(g[2..]);
    assert v / 256 / 16 == v / 4096;
  }

  lemma SpecialGroups()
    ensures Hex4(0) == ZERO_GROUP && Hex4(0xffff) == MAPPED_MARKER
  {
    assert DigitChar(0) == '0' && DigitChar(15) == 'f';
  }

  lemma TwoDigits(s: string)
    requires |s| == 2
    ensures Value(s, HEX) == DigitValue(s[0]) * 16 + DigitValue(s[1])
  {
    assert s[..1][..0] == "" && s[..1][0] == s[0];
    assert Value(s[..1], HEX) == DigitValue(s[0]);
  }

  lemma GroupsAgain(vs: seq<nat>)
    requires vs != [] && Small(vs)
    ensures Split(Join(AllHex4(vs), ':'), ':') == AllHex4(vs)
  {
    hide Hex4;
    forall i | 0 <= i < |vs|
      ensures ':' !in AllHex4(vs)[i]
    {
      Hex4Group(vs[i]);
    }
    SplitUndoesJoin(AllHex4(vs), ':');
  }

  /** Parsing the eight groups of an address finds its client. */
  lemma GroupsGiveClient(vs: seq<nat>)
    requires |vs| == GROUPS && Small(vs)
    ensures IsClient(ClientOfGroups(vs))
    ensures ParseGroups(AllHex4(vs)) ==
      if IsMapped(vs) then ParsedIp(V4, KeyOf(ClientOfGroups(vs))) else ParsedIp(V6, Join(AllHex4(vs), ':'))
    ensures Normalise(ParseGroups(AllHex4(vs))) == KeyOf(ClientOfGroups(vs))
  {
    hide Hex4, Join, Split, Show, Value;
    forall i | 0 <= i < GROUPS
      ensures Hex4(vs[i]) == ZERO_GROUP <==> vs[i] == 0
      ensures Hex4(vs[i]) == MAPPED_MARKER <==> vs[i] == 0xffff
      ensures Value(Hex4(vs[i])[..2], HEX) == vs[i] / BYTE && Value(Hex4(vs[i])[2..], HEX) == vs[i] % BYTE
    {
      Hex4Group(vs[i]);
    }
    GroupsAgain(vs);
    assert AllHex4(vs)[..SUBNET_GROUPS] == AllHex4(vs[..SUBNET_GROUPS]);
  }

  /** An accepted text parses, and normalises to the key of the client it means. */
  lemma TextGivesClientKey(isIP: string -> int, x: IpText)
    requires IsIpText(x) && Accepts(isIP, x)
    ensures IsClient(ClientOf(x))
    ensures ParseIp(isIP, PrintIp(x)).Some?
    ensures Normalise(ParseIp(isIP, PrintIp(x)).value) == KeyOf(ClientOf(x))
  {
    hide Dotted, ExpandIpv6, Print, ParseGroups;
    if x.Ipv6? {
      ExpansionIsDenotation(x.text);
      GroupsGiveClient(Denote(x.text));
    }
  }

  /**
   * So every text that parses at all is counted under the key of the client it means: an IPv4 host,
   * whichever way its address is written, or an IPv6 /64.
   */
  lemma EveryParsedTextHasItsKey(isIP: string -> int, text: string) returns (x: IpText)
    requires AcceptsOnlyIpTexts(isIP) && ParseIp(isIP, text).Some?
    ensures IsIpText(x) && PrintIp(x) == text && IsClient(ClientOf(x))
    ensures Normalise(ParseIp(isIP, text).value) == KeyOf(ClientOf(x))
  {
    hide Dotted, Print, ParseGroups, ExpandIpv6, Normalise, KeyOf, ClientOf;
    if isIP(text) == 4 {
      var q :| IsQuad(q) && text == Dotted(q);
      x := Ipv4(q);
    } else {
      var t :| WellFormed(t) && text == Print(t);
      x := Ipv6(t);
    }
    TextGivesClientKey(isIP, x);
  }

  // ----- Keys tell clients apart, and stand for themselves

  lemma KeyCharacters(c: Client)
    requires IsClient(c)
    ensures c.Host? <==> ':' !in KeyOf(c)
  {
    hide Show, Hex4;
    match c
    case Host(q) =>
      DottedCharacters(q);
    case Network(prefix) =>
      var parts := AllHex4(prefix) + ZeroSubnet();
      assert Join(parts, ':')[|parts[0]|] == ':';
  }

  lemma DottedTellsApart(q: Quad, r: Quad)
    requires Dotted(q) == Dotted(r)
    ensures q == r
  {
    hide Dotted, Show;
    DottedCharacters(q);
    DottedCharacters(r);
    assert Octets(q) == Octets(r);
    forall i | 0 <= i < 4 ensures Octets(q)[i] == Octets(r)[i] { }
    ShowTellsApart(q.a, r.a, DEC);
    ShowTellsApart(q.b, r.b, DEC);
    ShowTellsApart(q.c, r.c, DEC);
    ShowTellsApart(q.d, r.d, DEC);
  }

  function Padded(prefix: seq<nat>): seq<nat> {
    prefix + [0, 0, 0, 0]
  }

  /** A network's key is the full text of its address with the lower half zero. */
  lemma NetworkKeyIsText(prefix: seq<nat>)
    requires IsClient(Network(prefix))
    ensures AllHex4(Padded(prefix)) == AllHex4(prefix) + ZeroSubnet()
    ensures KeyOf(Network(prefix)) == Join(AllHex4(Padded(prefix)), ':')
  {
    SpecialGroups();
  }

  lemma KeysTellClientsApart(c: Client, d: Client)
    requires IsClient(c) && IsClient(d) && KeyOf(c) == KeyOf(d)
    ensures c == d
  {
    hide KeyOf;
    KeyCharacters(c);
    KeyCharacters(d);
    if c.Host? {
      HostKey(c.quad);
      HostKey(d.quad);
      DottedTellsApart(c.quad, d.quad);
    } else {
      NetworkKeyIsText(c.prefix);
      NetworkKeyIsText(d.prefix);
      GroupsAgain(Padded(c.prefix));
      GroupsAgain(Padded(d.prefix));
      AllHex4TellsApart(Padded(c.prefix), Padded(d.prefix));
      assert c.prefix == Padded(c.prefix)[..SUBNET_GROUPS] && d.prefix == Padded(d.prefix)[..SUBNET_GROUPS];
    }
  }

  lemma HostKey(q: Quad)
    requires IsQuad(q)
    ensures KeyOf(Host(q)) == Dotted(q)
  {
  }

  /**
   * Two accepted texts are counted under one key exactly when they mean one client: the same IPv4
   * host, written either way, or IPv6 addresses whose upper 64 bits agree.
   */
  lemma OneKeyPerClient(isIP: string -> int, x: IpText, y: IpText)
    requires IsIpText(x) && IsIpText(y) && Accepts(isIP, x) && Accepts(isIP, y)
    ensures ParseIp(isIP, PrintIp(x)).Some? && ParseIp(isIP, PrintIp(y)).Some?
    ensures Normalise(ParseIp(isIP, PrintIp(x)).value) == Normalise(ParseIp(isIP, PrintIp(y)).value)
       <==> ClientOf(x) == ClientOf(y)
  {
    hide KeyOf, ClientOf, ParseIp, Normalise, PrintIp, Accepts;
    TextGivesClientKey(isIP, x);
    TextGivesClientKey(isIP, y);
    if KeyOf(ClientOf(x)) == KeyOf(ClientOf(y)) {
      KeysTellClientsApart(ClientOf(x), ClientOf(y));
    }
  }

  /**
   * What it means to be one client: the same dotted address; a mapped address is its IPv4 host; and any
   * other IPv6 addresses agree in the first four of their eight groups.
   */
  lemma SameClientExactlyWhen(x: IpText, y: IpText)
    requires IsIpText(x) && IsIpText(y)
    ensures x.Ipv4? && y.Ipv4? ==> (ClientOf(x) == ClientOf(y) <==> x.quad == y.quad)
    ensures x.Ipv4? && y.Ipv6? ==>
      (ClientOf(x) == ClientOf(y) <==>
       Denote(y.text) == [0, 0, 0, 0, 0, 0xffff, x.quad.a * 256 + x.quad.b, x.quad.c * 256 + x.quad.d])
    ensures x.Ipv6? && y.Ipv6? && !IsMapped(Denote(x.text)) && !IsMapped(Denote(y.text)) ==>
      (ClientOf(x) == ClientOf(y) <==> Denote(x.text)[..4] == Denote(y.text)[..4])
    ensures x.Ipv6? ==>
      (IsMapped(Denote(x.text)) <==> Denote(x.text)[..6] == [0, 0, 0, 0, 0, 0xffff])
  {
    hide Denote;
    if x.Ipv4? && y.Ipv6? {
      var vs, q := Denote(y.text), x.quad;
      assert vs == [vs[0], vs[1], vs[2], vs[3], vs[4], vs[5], vs[6], vs[7]];
      TwoBytes(q.a, q.b);
      TwoBytes(q.c, q.d);
      Bytes(vs[6]);
      Bytes(vs[7]);
    }
  }

  lemma Bytes(v: nat)
    ensures v == v / BYTE * 256 + v % BYTE
  {
  }

  /** `::ffff:a.b.c.d` parses exactly as `a.b.c.d`. */
  lemma DottedTailParsesAsItself(isIP: string -> int, q: Quad)
    requires IsQuad(q) && isIP(Dotted(q)) == 4 && isIP("::ffff:" + Dotted(q)) == 6
    ensures ParseIp(isIP, "::ffff:" + Dotted(q)) == ParseIp(isIP, Dotted(q)) == Some(ParsedIp(V4, Dotted(q)))
  {
    hide Dotted, ExpandIpv6, ParseGroups;
    var t := Ipv6Text([], true, ["ffff"], Some(q), None);
    assert Print(t) == "::ffff:" + Dotted(q) by {
      assert Parts(["ffff"], Some(q)) == ["ffff", Dotted(q)];
      assert ["ffff", Dotted(q)][1..] == [Dotted(q)];
      assert Join(["ffff", Dotted(q)], ':') == "ffff" + [':'] + Dotted(q);
      assert Body(t) == "" + "::" + ("ffff" + [':'] + Dotted(q));
    }
    FfffIsWorth();
    assert Denote(t) == [0, 0, 0, 0, 0, 0xffff, q.a * BYTE + q.b, q.c * BYTE + q.d];
    MappedParsesAsIpv4(isIP, q, t);
  }

  lemma FfffIsWorth()
    ensures Value("ffff", HEX) == 0xffff && IsGroup("ffff")
  {
    assert "ffff"[..3] == "fff" && "fff"[..2] == "ff" && "ff"[..1] == "f" && "f"[..0] == "";
  }

  /** Each text of the IPv4-mapped form of an address parses exactly as its dotted text does. */
  lemma MappedParsesAsIpv4(isIP: string -> int, q: Quad, t: Ipv6Text)
    requires IsQuad(q) && WellFormed(t) && isIP(Dotted(q)) == 4 && isIP(Print(t)) == 6
    requires Denote(t) == [0, 0, 0, 0, 0, 0xffff, q.a * BYTE + q.b, q.c * BYTE + q.d]
    ensures ParseIp(isIP, Print(t)) == ParseIp(isIP, Dotted(q)) == Some(ParsedIp(V4, Dotted(q)))
  {
    hide Dotted, Print, ExpandIpv6, ParseGroups, ClientOfGroups, Denote, AllHex4;
    MappedClient(q, Denote(t));
    ExpansionIsDenotation(t);
    GroupsGiveClient(Denote(t));
  }

  lemma MappedClient(q: Quad, vs: seq<nat>)
    requires IsQuad(q) && vs == [0, 0, 0, 0, 0, 0xffff, q.a * BYTE + q.b, q.c * BYTE + q.d]
    ensures IsMapped(vs) && ClientOfGroups(vs) == Host(q)
  {
    TwoBytes(q.a, q.b);
    TwoBytes(q.c, q.d);
  }

  lemma TwoBytes(high: nat, low: nat)
    requires low < BYTE
    ensures (high * BYTE + low) / BYTE == high && (high * BYTE + low) % BYTE == low
  {
  }

  /** The text whose groups are written without compression. */
  function FullText(groups: seq<string>): Ipv6Text {
    Ipv6Text(groups, false, [], None, None)
  }

  lemma FullTextDenotes(vs: seq<nat>, groups: seq<string>)
    requires |vs| == GROUPS == |groups| && Small(vs)
    requires forall i :: 0 <= i < GROUPS ==> IsGroup(groups[i]) && Value(groups[i], HEX) == vs[i]
    ensures WellFormed(FullText(groups)) && Print(FullText(groups)) == Join(groups, ':')
    ensures Denote(FullText(groups)) == vs
  {
    hide Join, Value;
  }

  /** Parsing and normalising a key gives that key again. */
  lemma KeysStandForThemselves(isIP: string -> int, c: Client)
    requires IsClient(c) && isIP(KeyOf(c)) == if c.Host? then 4 else 6
    ensures ParseIp(isIP, KeyOf(c)).Some? && Normalise(ParseIp(isIP, KeyOf(c)).value) == KeyOf(c)
  {
    hide Dotted, Join, Hex4, Value, ParseGroups, ExpandIpv6;
    if c.Network? {
      var vs := Padded(c.prefix);
      NetworkKeyIsText(c.prefix);
      forall i | 0 <= i < GROUPS
        ensures IsGroup(AllHex4(vs)[i]) && Value(AllHex4(vs)[i], HEX) == vs[i]
      {
        Hex4Group(vs[i]);
      }
      FullTextDenotes(vs, AllHex4(vs));
      assert !IsMapped(vs) && vs[..SUBNET_GROUPS] == c.prefix;
      TextGivesClientKey(isIP, Ipv6(FullText(AllHex4(vs))));
    }
  }

  lemma CompressedGroups(vs: seq<nat>)
    requires |vs| == GROUPS && Small(vs)
    ensures ExpandIpv6(CompressForBlockList(ParsedIp(V6, Join(AllHex4(vs), ':')))) == AllHex4(vs)
  {
    hide Join, Hex4, Value, Show, ExpandIpv6;
    GroupsAgain(vs);
    var groups := Unpadded(AllHex4(vs));
    forall i | 0 <= i < GROUPS
      ensures IsGroup(groups[i]) && Value(groups[i], HEX) == vs[i]
    {
      Hex4Group(vs[i]);
      ShortShow(vs[i], 4, 65536);
      ValueUndoesShow(vs[i], HEX);
    }
    FullTextDenotes(vs, groups);
    ExpansionIsDenotation(FullText(groups));
  }

  /** What the trusted-proxy list is asked about is a text of the same address. */
  lemma BlockListTextKeepsAddress(isIP: string -> int, t: Ipv6Text)
    requires WellFormed(t) && isIP(Print(t)) == 6 && !IsMapped(Denote(t))
    ensures ParseIp(isIP, Print(t)).Some?
    ensures ExpandIpv6(CompressForBlockList(ParseIp(isIP, Print(t)).value)) == ExpandIpv6(Print(t))
  {
    hide Print, ExpandIpv6, ParseGroups, CompressForBlockList;
    ExpansionIsDenotation(t);
    GroupsGiveClient(Denote(t));
    CompressedGroups(Denote(t));
  }
}
