/** IPv6 text, what it denotes (sections 2.2 and 2.5.5.2 of RFC 4291), and its expansion to one form. */
module Ipv6 {
  import opened Basics
  import opened Texts

  const GROUPS := 8
  const GROUP_WIDTH := 4
  const BYTE := 256

  // ----- The texts

  datatype Quad = Quad(a: nat, b: nat, c: nat, d: nat)

  predicate IsQuad(q: Quad) {
    q.a < BYTE && q.b < BYTE && q.c < BYTE && q.d < BYTE
  }

  function Octets(q: Quad): seq<string> {
    [Show(q.a, DEC), Show(q.b, DEC), Show(q.c, DEC), Show(q.d, DEC)]
  }

  /** `a.b.c.d`, without leading zeros. */
  function Dotted(q: Quad): string {
    Join(Octets(q), '.')
  }

  /**
   * An IPv6 text: groups of one to four hex digits in either case, at most one `::` for one or more
   * zero groups, possibly an IPv4 address for the last two groups, possibly a zone id.
   */
  datatype Ipv6Text =
    Ipv6Text(left: seq<string>, compressed: bool, right: seq<string>, tail: Option<Quad>, zone: Option<string>)

  predicate IsGroup(g: string) {
    1 <= |g| <= GROUP_WIDTH && forall i :: 0 <= i < |g| ==> IsHexDigit(g[i])
  }

  predicate AllGroups(gs: seq<string>) {
    forall i :: 0 <= i < |gs| ==> IsGroup(gs[i])
  }

  function TailWidth(t: Ipv6Text): nat {
    if t.tail.Some? then 2 else 0
  }

  predicate WellFormed(t: Ipv6Text) {
    && AllGroups(t.left) && AllGroups(t.right)
    && (t.tail.Some? ==> IsQuad(t.tail.value))
    && if t.compressed then |t.left| + |t.right| + TailWidth(t) < GROUPS
       else t.right == [] && |t.left| + TailWidth(t) == GROUPS
  }

  function Parts(gs: seq<string>, tail: Option<Quad>): seq<string> {
    if tail.Some? then gs + [Dotted(tail.value)] else gs
  }

  function Body(t: Ipv6Text): string {
    if t.compressed then Join(t.left, ':') + "::" + Join(Parts(t.right, t.tail), ':')
    else Join(Parts(t.left, t.tail), ':')
  }

  function Print(t: Ipv6Text): string {
    Body(t) + if t.zone.Some? then "%" + t.zone.value else ""
  }

  /** All groups zero, `::` for a single group, a zone, and an IPv4 tail behind six groups are well formed. */
  lemma ShortestAndLongest(groups: seq<string>, q: Quad, zone: string)
    requires |groups| == 8 && AllGroups(groups) && IsQuad(q)
    ensures WellFormed(Ipv6Text([], true, [], None, None)) && Print(Ipv6Text([], true, [], None, None)) == "::"
    ensures WellFormed(Ipv6Text(groups, false, [], None, Some(zone)))
    ensures WellFormed(Ipv6Text(groups[..7], true, [], None, None))
    ensures WellFormed(Ipv6Text([], true, groups[1..], None, None))
    ensures WellFormed(Ipv6Text(groups[..6], false, [], Some(q), None))
    ensures WellFormed(Ipv6Text(groups[..3], true, groups[6..], Some(q), Some(zone)))
  {
    hide IsGroup;
  }

  /** A group is one to four hex digits. */
  lemma GroupsAreHexDigits(g: string)
    ensures IsGroup(g) <==>
      1 <= |g| <= 4 && forall i :: 0 <= i < |g| ==> g[i] in "0123456789abcdefABCDEF"
  {
    hide IsHexDigit;
    forall i | 0 <= i < |g|
      ensures IsHexDigit(g[i]) <==> g[i] in "0123456789abcdefABCDEF"
    {
      HexDigitsAre(g[i]);
    }
  }

  // ----- What they denote

  function GroupValues(gs: seq<string>): (vs: seq<nat>)
    ensures |vs| == |gs| && forall i :: 0 <= i < |gs| ==> vs[i] == Value(gs[i], HEX)
  {
    seq(|gs|, i requires 0 <= i < |gs| => Value(gs[i], HEX))
  }

  function TailValues(tail: Option<Quad>): seq<nat> {
    if tail.None? then [] else [tail.value.a * BYTE + tail.value.b, tail.value.c * BYTE + tail.value.d]
  }

  function Zeros(n: nat): (vs: seq<nat>)
    ensures |vs| == n && forall i :: 0 <= i < n ==> vs[i] == 0
  {
    seq(n, _ => 0)
  }

  /** The eight 16-bit groups. */
  function Denote(t: Ipv6Text): (vs: seq<nat>)
    requires WellFormed(t)
    ensures |vs| == GROUPS
  {
    var missing := if t.compressed then GROUPS - |t.left| - |t.right| - TailWidth(t) else 0;
    GroupValues(t.left) + Zeros(missing) + GroupValues(t.right) + TailValues(t.tail)
  }

  /** Each group is where the text puts it: counted from the left, from the right behind `::`, and zero between. */
  lemma GroupsAreWhereTheyStand(t: Ipv6Text, i: nat)
    requires WellFormed(t)
    ensures i < |t.left| ==> Denote(t)[i] == Value(t.left[i], 16)
    ensures
      var behind := |t.right| + if t.tail.Some? then 2 else 0;
      && (i < |t.right| ==> Denote(t)[8 - behind + i] == Value(t.right[i], 16))
      && (|t.left| <= i < 8 - behind ==> Denote(t)[i] == 0)
    ensures t.tail.Some? ==>
      var q := t.tail.value;
      Denote(t)[6] == q.a * 256 + q.b && Denote(t)[7] == q.c * 256 + q.d
  {
  }

  /** Four lower-case hex digits. */
  function Hex4(v: nat): (s: string)
    requires v < 65536
    ensures |s| == 4
  {
    [DigitChar(v / 4096), DigitChar(v / 256 % 16), DigitChar(v / 16 % 16), DigitChar(v % 16)]
  }

  function AllHex4(vs: seq<nat>): (gs: seq<string>)
    requires forall i :: 0 <= i < |vs| ==> vs[i] < 65536
    ensures |gs| == |vs| && forall i :: 0 <= i < |vs| ==> gs[i] == Hex4(vs[i])
  {
    seq(|vs|, i requires 0 <= i < |vs| => Hex4(vs[i]))
  }

  // ----- The expansion

  predicate DoubleAt(s: string, k: nat) {
    k + 1 < |s| && s[k] == ':' && s[k + 1] == ':'
  }

  /** The index of the first `::`, or the length. */
  function FirstDouble(s: string): (p: nat)
    ensures p <= |s| && (p < |s| ==> DoubleAt(s, p))
    ensures forall k :: 0 <= k < p ==> !DoubleAt(s, k)
  {
    if |s| < 2 then |s|
    else if DoubleAt(s, 0) then 0
    else
      var p := 1 + FirstDouble(s[1..]);
      assert forall k :: 1 <= k < p ==> DoubleAt(s, k) == DoubleAt(s[1..], k - 1);
      p
  }

  function Pad4(g: string): string {
    if |g| < GROUP_WIDTH then seq(GROUP_WIDTH - |g|, _ => '0') + g else g
  }

  function PadAll(gs: seq<string>): (r: seq<string>)
    ensures |r| == |gs| && forall i :: 0 <= i < |gs| ==> r[i] == Pad4(gs[i])
  {
    seq(|gs|, i requires 0 <= i < |gs| => Pad4(gs[i]))
  }

  function ZeroGroups(n: nat): (gs: seq<string>)
    ensures |gs| == n && forall i :: 0 <= i < n ==> gs[i] == "0"
  {
    seq(n, _ => "0")
  }

  function GroupsOf(s: string): seq<string> {
    if s == "" then [] else Split(s, ':')
  }

  function ExpandPlain(source: string): seq<string> {
    var p := FirstDouble(source);
    var left := GroupsOf(source[..p]);
    var right :=
      if p == |source| then []
      else
        var rest := source[p + 2..];
        GroupsOf(rest[..FirstDouble(rest)]);
    var zeros := if p == |source| then 0 else Max(0, GROUPS - |left| - |right|);
    PadAll(left + ZeroGroups(zeros) + right)
  }

  function OctetAt(parts: seq<string>, i: nat): nat {
    if i < |parts| then Value(parts[i], DEC) else 0
  }

  /** The IPv4 tail written as two groups. */
  function TailAsGroups(tail: string): string {
    var parts := Split(tail, '.');
    Show(OctetAt(parts, 0) * BYTE + OctetAt(parts, 1), HEX) + ":" +
    Show(OctetAt(parts, 2) * BYTE + OctetAt(parts, 3), HEX)
  }

  function WithoutTail(source: string): string {
    var at := AfterLast(source, ':');
    var tail := source[at..];
    if '.' in tail then source[..at] + TailAsGroups(tail) else source
  }

  function ExpandIpv6(text: string): seq<string> {
    var source := Lower(text);
    ExpandPlain(WithoutTail(source[..IndexOf(source, '%')]))
  }

  // ----- Proof: characters

  lemma {:induction false} JoinAvoids(parts: seq<string>, sep: char, x: char)
    requires x != sep && forall i :: 0 <= i < |parts| ==> x !in parts[i]
    ensures x !in Join(parts, sep)
  {
    if |parts| > 1 {
      JoinAvoids(parts[1..], sep, x);
    }
  }

  lemma DottedCharacters(q: Quad)
    ensures ':' !in Dotted(q) && '%' !in Dotted(q) && '.' in Dotted(q)
    ensures Lower(Dotted(q)) == Dotted(q)
    ensures Split(Dotted(q), '.') == Octets(q)
  {
    hide Show, Split;
    JoinAvoids(Octets(q), '.', ':');
    JoinAvoids(Octets(q), '.', '%');
    SplitUndoesJoin(Octets(q), '.');
    LowerJoin(Octets(q), '.');
    assert LowerAll(Octets(q)) == Octets(q) by {
      forall i | 0 <= i < 4
        ensures Lower(Octets(q)[i]) == Octets(q)[i]
      {
      }
    }
    assert Dotted(q)[|Octets(q)[0]|] == '.';
  }

  lemma PartsCharacters(gs: seq<string>, tail: Option<Quad>)
    requires AllGroups(gs)
    ensures '%' !in Join(Parts(gs, tail), ':')
    ensures tail.None? ==> '.' !in Join(Parts(gs, tail), ':')
  {
    if tail.Some? {
      DottedCharacters(tail.value);
    } else {
      JoinAvoids(gs, ':', '.');
    }
    JoinAvoids(Parts(gs, tail), ':', '%');
  }

  lemma BodyCharacters(t: Ipv6Text)
    requires WellFormed(t)
    ensures '%' !in Body(t)
    ensures t.tail.None? ==> '.' !in Body(t)
  {
    PartsCharacters(t.left, t.tail);
    PartsCharacters(t.left, None);
    PartsCharacters(t.right, t.tail);
  }

  // ----- Proof: lower case

  function LowerAll(gs: seq<string>): (r: seq<string>)
    ensures |r| == |gs| && forall i :: 0 <= i < |gs| ==> r[i] == Lower(gs[i])
  {
    seq(|gs|, i requires 0 <= i < |gs| => Lower(gs[i]))
  }

  lemma {:induction false} LowerJoin(parts: seq<string>, sep: char)
    requires LowerChar(sep) == sep
    ensures Lower(Join(parts, sep)) == Join(LowerAll(parts), sep)
  {
    if |parts| > 1 {
      LowerJoin(parts[1..], sep);
      assert LowerAll(parts)[1..] == LowerAll(parts[1..]);
      assert Lower(Join(parts, sep)) == Lower(parts[0]) + [sep] + Lower(Join(parts[1..], sep));
    } else if |parts| == 1 {
      assert LowerAll(parts) == [Lower(parts[0])];
    }
  }

  function LowerText(t: Ipv6Text): Ipv6Text {
    t.(left := LowerAll(t.left), right := LowerAll(t.right))
  }

  lemma LowerParts(gs: seq<string>, tail: Option<Quad>)
    ensures Lower(Join(Parts(gs, tail), ':')) == Join(Parts(LowerAll(gs), tail), ':')
  {
    hide Dotted, Join;
    LowerJoin(Parts(gs, tail), ':');
    if tail.Some? {
      DottedCharacters(tail.value);
      assert LowerAll(Parts(gs, tail)) == Parts(LowerAll(gs), tail);
    }
  }

  lemma LowerBody(t: Ipv6Text)
    ensures Lower(Body(t)) == Body(LowerText(t))
  {
    LowerParts(t.left, t.tail);
    LowerParts(t.left, None);
    LowerParts(t.right, t.tail);
    if t.compressed {
      var l, r := Join(t.left, ':'), Join(Parts(t.right, t.tail), ':');
      assert Lower(l + "::" + r) == Lower(l) + "::" + Lower(r);
    }
  }

  lemma {:induction false} LowerKeepsValue(g: string, base: nat)
    ensures Value(Lower(g), base) == Value(g, base)
  {
    if g != "" {
      LowerKeepsValue(g[..|g| - 1], base);
      assert Lower(g)[..|g| - 1] == Lower(g[..|g| - 1]);
    }
  }

  lemma ZoneIsCut(t: Ipv6Text)
    requires WellFormed(t)
    ensures var source := Lower(Print(t)); source[..IndexOf(source, '%')] == Lower(Body(t))
  {
    BodyCharacters(t);
    var source := Lower(Print(t));
    assert forall k :: 0 <= k < |Body(t)| ==> source[k] == Lower(Body(t))[k] != '%';
    if t.zone.Some? {
      assert source[|Body(t)|] == '%';
    }
    assert IndexOf(source, '%') == |Body(t)|;
  }
}
