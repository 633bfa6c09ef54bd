/** The expansion gives every well-formed text the one form of the address it denotes. */
module Ipv6Expansion {
  import opened Basics
  import opened Texts
  import opened Ipv6

  // ----- The IPv4 tail

  /** The same address with the tail written as two groups. */
  function Untailed(t: Ipv6Text): Ipv6Text {
    if t.tail.None? then t
    else
      var q := t.tail.value;
      var pair := [Show(q.a * BYTE + q.b, HEX), Show(q.c * BYTE + q.d, HEX)];
      if t.compressed then t.(right := t.right + pair, tail := None) else t.(left := t.left + pair, tail := None)
  }

  lemma TailReadsBack(q: Quad)
    ensures TailAsGroups(Dotted(q)) == Show(q.a * BYTE + q.b, HEX) + ":" + Show(q.c * BYTE + q.d, HEX)
  {
    hide Dotted, Show;
    DottedCharacters(q);
    ValueUndoesShow(q.a, DEC);
    ValueUndoesShow(q.b, DEC);
    ValueUndoesShow(q.c, DEC);
    ValueUndoesShow(q.d, DEC);
  }

  /** Up to the dotted tail, the two ways of writing the last parts read alike. */
  lemma TailEnds(gs: seq<string>, q: Quad) returns (before: string)
    ensures Join(Parts(gs, Some(q)), ':') == before + Dotted(q)
    ensures Join(gs + [Show(q.a * BYTE + q.b, HEX), Show(q.c * BYTE + q.d, HEX)], ':')
         == before + TailAsGroups(Dotted(q))
    ensures before == "" <==> gs == []
    ensures before != "" ==> before[|before| - 1] == ':'
  {
    hide Dotted, Show;
    TailReadsBack(q);
    var h, l := Show(q.a * BYTE + q.b, HEX), Show(q.c * BYTE + q.d, HEX);
    assert [h, l][1..] == [l];
    assert Join([h, l], ':') == h + ":" + l;
    if gs == [] {
      before := "";
      assert gs + [h, l] == [h, l] && gs + [Dotted(q)] == [Dotted(q)];
    } else {
      before := Join(gs, ':') + ":";
      JoinMore(gs, [Dotted(q)], ':');
      JoinMore(gs, [h, l], ':');
    }
  }

  lemma CutsTail(before: string, q: Quad)
    requires before != "" && before[|before| - 1] == ':'
    ensures WithoutTail(before + Dotted(q)) == before + TailAsGroups(Dotted(q))
  {
    hide Dotted, TailAsGroups;
    DottedCharacters(q);
    var source := before + Dotted(q);
    assert forall k :: |before| <= k < |source| ==> source[k] == Dotted(q)[k - |before|] != ':';
    assert source[|before| - 1] == ':';
    assert AfterLast(source, ':') == |before|;
    assert source[|before|..] == Dotted(q) && source[..|before|] == before;
  }

  lemma TailIsReplaced(t: Ipv6Text)
    requires WellFormed(t)
    ensures WithoutTail(Body(t)) == Body(Untailed(t))
  {
    hide Dotted, Show, TailAsGroups, Join, WithoutTail;
    if t.tail.None? {
      NoTailToReplace(t);
    } else {
      var q := t.tail.value;
      if t.compressed {
        var before := TailEnds(t.right, q);
        var whole := Join(t.left, ':') + "::" + before;
        CutsTail(whole, q);
        assert Join(t.left, ':') + "::" + (before + Dotted(q)) == whole + Dotted(q);
        assert Join(t.left, ':') + "::" + (before + TailAsGroups(Dotted(q))) == whole + TailAsGroups(Dotted(q));
      } else {
        var before := TailEnds(t.left, q);
        CutsTail(before, q);
      }
    }
  }

  lemma NoTailToReplace(t: Ipv6Text)
    requires WellFormed(t) && t.tail.None?
    ensures WithoutTail(Body(t)) == Body(t)
  {
    hide Body;
    BodyCharacters(t);
  }

  // ----- Groups, colons and the missing zeros

  ghost predicate Separable(gs: seq<string>) {
    forall i :: 0 <= i < |gs| ==> gs[i] != "" && ':' !in gs[i]
  }

  lemma {:induction false} NoDoubleInside(gs: seq<string>)
    requires Separable(gs)
    ensures forall k: nat :: !DoubleAt(Join(gs, ':'), k)
    ensures gs != [] ==>
      Join(gs, ':') != "" && Join(gs, ':')[0] != ':' && Join(gs, ':')[|Join(gs, ':')| - 1] != ':'
  {
    if |gs| > 1 {
      NoDoubleInside(gs[1..]);
      var rest, s := Join(gs[1..], ':'), Join(gs, ':');
      var n := |gs[0]|;
      forall k: nat
        ensures !DoubleAt(s, k)
      {
        if k > n {
          assert DoubleAt(s, k) == DoubleAt(rest, k - n - 1);
        } else if k == n {
          assert s[k + 1] == rest[0];
        } else {
          assert s[k] == gs[0][k];
        }
      }
    }
  }

  lemma GroupsReadBack(gs: seq<string>)
    requires Separable(gs)
    ensures GroupsOf(Join(gs, ':')) == gs
    ensures FirstDouble(Join(gs, ':')) == |Join(gs, ':')|
  {
    NoDoubleInside(gs);
    if gs != [] {
      SplitUndoesJoin(gs, ':');
    }
  }

  lemma DoubleIsFound(left: seq<string>, right: seq<string>)
    requires Separable(left)
    ensures FirstDouble(Join(left, ':') + "::" + Join(right, ':')) == |Join(left, ':')|
  {
    NoDoubleInside(left);
    var l := Join(left, ':');
    var s := l + "::" + Join(right, ':');
    assert DoubleAt(s, |l|);
    forall k | 0 <= k < |l|
      ensures !DoubleAt(s, k)
    {
      if k < |l| - 1 {
        assert DoubleAt(s, k) == DoubleAt(l, k);
      } else {
        assert s[k] == l[k];
      }
    }
  }

  lemma FullReadsBack(gs: seq<string>)
    requires Separable(gs)
    ensures ExpandPlain(Join(gs, ':')) == PadAll(gs)
  {
    hide Join, GroupsOf, FirstDouble, PadAll;
    GroupsReadBack(gs);
    var s := Join(gs, ':');
    assert s[..|s|] == s;
    assert gs + ZeroGroups(0) + [] == gs;
  }

  lemma SplitsInTwo(s: string, l: string, r: string)
    requires s == l + "::" + r && FirstDouble(s) == |l| && FirstDouble(r) == |r|
    ensures ExpandPlain(s)
         == PadAll(GroupsOf(l) + ZeroGroups(Max(0, GROUPS - |GroupsOf(l)| - |GroupsOf(r)|)) + GroupsOf(r))
  {
    hide GroupsOf, FirstDouble, PadAll, ZeroGroups;
    assert s[..|l|] == l;
    assert s[|l| + 2..] == r;
    assert r[..|r|] == r;
  }

  lemma CompressedReadsBack(left: seq<string>, right: seq<string>)
    requires Separable(left) && Separable(right)
    ensures ExpandPlain(Join(left, ':') + "::" + Join(right, ':'))
         == PadAll(left + ZeroGroups(Max(0, GROUPS - |left| - |right|)) + right)
  {
    hide Join, GroupsOf, FirstDouble, PadAll, ExpandPlain, ZeroGroups;
    GroupsReadBack(left);
    GroupsReadBack(right);
    DoubleIsFound(left, right);
    SplitsInTwo(Join(left, ':') + "::" + Join(right, ':'), Join(left, ':'), Join(right, ':'));
  }

  // ----- Digits

  lemma {:induction false} ShortShow(v: nat, width: nat, limit: nat)
    requires v < limit
    requires (width == 1 && limit == 16) || (width == 2 && limit == 256)
          || (width == 3 && limit == 4096) || (width == 4 && limit == 65536)
    ensures |Show(v, HEX)| <= width
  {
    if v >= 16 {
      ShortShow(v / 16, width - 1, limit / 16);
    }
  }

  lemma PairIsGroup(a: nat, b: nat)
    requires a < BYTE && b < BYTE
    ensures IsGroup(Show(a * BYTE + b, HEX)) && Lower(Show(a * BYTE + b, HEX)) == Show(a * BYTE + b, HEX)
    ensures Value(Show(a * BYTE + b, HEX), HEX) == a * BYTE + b
  {
    var v := a * BYTE + b;
    ShortShow(v, 4, 65536);
    ValueUndoesShow(v, HEX);
  }

  lemma FourDigits(d3: nat, d2: nat, d1: nat, d0: nat)
    requires d3 < 16 && d2 < 16 && d1 < 16 && d0 < 16
    ensures
      var v := d3 * 4096 + d2 * 256 + d1 * 16 + d0;
      v < 65536 && Hex4(v) == [DigitChar(d3), DigitChar(d2), DigitChar(d1), DigitChar(d0)]
  {
    hide DigitChar;
    LastDigit(d3 * 256 + d2 * 16 + d1, d0);
    LastDigit(d3 * 16 + d2, d1);
    LastDigit(d3, d2);
    var v := d3 * 4096 + d2 * 256 + d1 * 16 + d0;
    assert v / 256 == v / 16 / 16 && v / 4096 == v / 16 / 16 / 16;
  }

  lemma LastDigit(front: nat, last: nat)
    requires last < 16
    ensures (front * 16 + last) / 16 == front && (front * 16 + last) % 16 == last
  {
  }

  /** A group padded to four digits is the four-digit form of its value. */
  lemma PaddedGroup(g: string)
    requires IsGroup(g) && Lower(g) == g
    ensures Value(g, HEX) < 65536
    ensures Pad4(g) == Hex4(Value(g, HEX))
  {
    hide Value, DigitChar, DigitValue, Hex4, PlaceOf, Lower, Pad4;
    PadsTo(g);
    PaddedDigit(g, 0);
    PaddedDigit(g, 1);
    PaddedDigit(g, 2);
    PaddedDigit(g, 3);
    Unfold(g);
    FourDigits(PlaceOf(g, 0), PlaceOf(g, 1), PlaceOf(g, 2), PlaceOf(g, 3));
  }

  function PlaceChar(g: string, i: nat): char
    requires IsGroup(g) && i < 4
  {
    if i < GROUP_WIDTH - |g| then '0' else g[i - (GROUP_WIDTH - |g|)]
  }

  lemma PadsTo(g: string)
    requires IsGroup(g)
    ensures Pad4(g) == [PlaceChar(g, 0), PlaceChar(g, 1), PlaceChar(g, 2), PlaceChar(g, 3)]
  {
  }

  /** The digit at place `i` of four, counting from the left. */
  function PlaceOf(g: string, i: nat): (d: nat)
    requires IsGroup(g) && i < 4
    ensures d < 16
  {
    if i < GROUP_WIDTH - |g| then 0 else DigitValue(g[i - (GROUP_WIDTH - |g|)])
  }

  lemma PaddedDigit(g: string, i: nat)
    requires IsGroup(g) && Lower(g) == g && i < 4
    ensures DigitChar(PlaceOf(g, i)) == PlaceChar(g, i)
  {
    var pad := GROUP_WIDTH - |g|;
    if pad <= i {
      DigitOfValue(g[i - pad]);
      assert Lower(g)[i - pad] == g[i - pad];
    }
  }

  lemma Unfold(g: string)
    requires IsGroup(g)
    ensures Value(g, HEX) == PlaceOf(g, 0) * 4096 + PlaceOf(g, 1) * 256 + PlaceOf(g, 2) * 16 + PlaceOf(g, 3)
  {
    hide DigitValue;
    assert g[..1][..0] == "";
    assert g[..|g|] == g;
    assert Value(g[..1], HEX) == DigitValue(g[0]);
    if |g| >= 2 {
      assert g[..2][..1] == g[..1];
      assert Value(g[..2], HEX) == Value(g[..1], HEX) * 16 + DigitValue(g[1]);
    }
    if |g| >= 3 {
      assert g[..3][..2] == g[..2];
      assert Value(g[..3], HEX) == Value(g[..2], HEX) * 16 + DigitValue(g[2]);
    }
    if |g| >= 4 {
      assert g[..4][..3] == g[..3];
      assert Value(g[..4], HEX) == Value(g[..3], HEX) * 16 + DigitValue(g[3]);
    }
  }

  // ----- The expansion of every text

  ghost predicate LowerGroupsOnly(t: Ipv6Text) {
    && (forall i :: 0 <= i < |t.left| ==> Lower(t.left[i]) == t.left[i])
    && (forall i :: 0 <= i < |t.right| ==> Lower(t.right[i]) == t.right[i])
  }

  lemma UntailedGroups(t: Ipv6Text)
    requires WellFormed(t) && LowerGroupsOnly(t)
    ensures WellFormed(Untailed(t)) && Untailed(t).tail.None? && LowerGroupsOnly(Untailed(t))
    ensures Denote(Untailed(t)) == Denote(t)
  {
    hide Show, Value, Lower;
    if t.tail.Some? {
      var q := t.tail.value;
      PairIsGroup(q.a, q.b);
      PairIsGroup(q.c, q.d);
      var pair := [Show(q.a * BYTE + q.b, HEX), Show(q.c * BYTE + q.d, HEX)];
      assert AllGroups(pair);
      PairValues(if t.compressed then t.right else t.left, pair, q);
    }
  }

  lemma PairValues(gs: seq<string>, pair: seq<string>, q: Quad)
    requires |pair| == 2 && Value(pair[0], HEX) == q.a * BYTE + q.b && Value(pair[1], HEX) == q.c * BYTE + q.d
    ensures GroupValues(gs + pair) == GroupValues(gs) + TailValues(Some(q))
  {
  }

  lemma LowerKeepsMeaning(t: Ipv6Text)
    requires WellFormed(t)
    ensures WellFormed(LowerText(t)) && Denote(LowerText(t)) == Denote(t)
    ensures LowerGroupsOnly(LowerText(t))
  {
    LowerGroups(t.left);
    LowerGroups(t.right);
  }

  lemma LowerGroups(gs: seq<string>)
    requires AllGroups(gs)
    ensures AllGroups(LowerAll(gs)) && GroupValues(LowerAll(gs)) == GroupValues(gs)
    ensures forall i :: 0 <= i < |gs| ==> Lower(LowerAll(gs)[i]) == LowerAll(gs)[i]
  {
    forall i | 0 <= i < |gs|
      ensures IsGroup(Lower(gs[i])) && Value(Lower(gs[i]), HEX) == Value(gs[i], HEX)
      ensures Lower(Lower(gs[i])) == Lower(gs[i])
    {
      LowerKeepsValue(gs[i], HEX);
    }
  }

  lemma PlainExpansion(u: Ipv6Text)
    requires WellFormed(u) && LowerGroupsOnly(u) && u.tail.None?
    ensures forall i :: 0 <= i < GROUPS ==> Denote(u)[i] < 65536
    ensures ExpandPlain(Body(u)) == AllHex4(Denote(u))
  {
    hide Join, ExpandPlain, Value, Pad4, Hex4, Lower;
    forall i | 0 <= i < |u.left|
      ensures Value(u.left[i], HEX) < 65536 && Pad4(u.left[i]) == Hex4(Value(u.left[i], HEX))
      ensures u.left[i] != "" && ':' !in u.left[i]
    {
      PaddedGroup(u.left[i]);
    }
    forall i | 0 <= i < |u.right|
      ensures Value(u.right[i], HEX) < 65536 && Pad4(u.right[i]) == Hex4(Value(u.right[i], HEX))
      ensures u.right[i] != "" && ':' !in u.right[i]
    {
      PaddedGroup(u.right[i]);
    }
    ZeroGroupPads();
    if u.compressed {
      CompressedReadsBack(u.left, u.right);
    } else {
      FullReadsBack(u.left);
    }
  }

  lemma ZeroGroupPads()
    ensures Pad4("0") == Hex4(0)
  {
    PaddedGroup("0");
    assert "0"[..0] == "";
    assert Value("0", HEX) == 0;
  }

  /**
   * The expansion of every well-formed text, compressed or not, in either case, with or without an
   * IPv4 tail and a zone id, is the eight groups it denotes, each as four lower-case hex digits.
   */
  lemma ExpansionIsDenotation(t: Ipv6Text)
    requires WellFormed(t)
    ensures forall i :: 0 <= i < GROUPS ==> Denote(t)[i] < 65536
    ensures ExpandIpv6(Print(t)) == AllHex4(Denote(t))
  {
    hide Body, ExpandPlain, WithoutTail, Print, Lower;
    var lower := LowerText(t);
    ZoneIsCut(t);
    LowerBody(t);
    LowerKeepsMeaning(t);
    TailIsReplaced(lower);
    UntailedGroups(lower);
    PlainExpansion(Untailed(lower));
  }

  lemma Hex4TellsApart(v: nat, w: nat)
    requires v < 65536 && w < 65536 && Hex4(v) == Hex4(w)
    ensures v == w
  {
    hide DigitChar, DigitValue;
    assert DigitValue(Hex4(v)[0]) == v / 4096 && DigitValue(Hex4(w)[0]) == w / 4096;
    assert DigitValue(Hex4(v)[1]) == v / 256 % 16 && DigitValue(Hex4(w)[1]) == w / 256 % 16;
    assert DigitValue(Hex4(v)[2]) == v / 16 % 16 && DigitValue(Hex4(w)[2]) == w / 16 % 16;
    assert DigitValue(Hex4(v)[3]) == v % 16 && DigitValue(Hex4(w)[3]) == w % 16;
    Places(v);
    Places(w);
  }

  lemma Places(v: nat)
    requires v < 65536
    ensures v == v / 4096 * 4096 + v / 256 % 16 * 256 + v / 16 % 16 * 16 + v % 16
  {
    assert v / 256 == v / 4096 * 16 + v / 256 % 16;
    assert v / 16 == v / 256 * 16 + v / 16 % 16;
    assert v == v / 16 * 16 + v % 16;
  }

  lemma AllHex4TellsApart(vs: seq<nat>, ws: seq<nat>)
    requires |vs| == |ws|
    requires forall i :: 0 <= i < |vs| ==> vs[i] < 65536 && ws[i] < 65536
    requires AllHex4(vs) == AllHex4(ws)
    ensures vs == ws
  {
    hide Hex4;
    forall i | 0 <= i < |vs|
      ensures vs[i] == ws[i]
    {
      assert AllHex4(vs)[i] == AllHex4(ws)[i];
      Hex4TellsApart(vs[i], ws[i]);
    }
  }

  /** Two texts expand alike exactly when they are texts of one address. */
  lemma OneFormPerAddress(t: Ipv6Text, u: Ipv6Text)
    requires WellFormed(t) && WellFormed(u)
    ensures ExpandIpv6(Print(t)) == ExpandIpv6(Print(u)) <==> Denote(t) == Denote(u)
  {
    hide ExpandIpv6, Print, AllHex4;
    ExpansionIsDenotation(t);
    ExpansionIsDenotation(u);
    if AllHex4(Denote(t)) == AllHex4(Denote(u)) {
      AllHex4TellsApart(Denote(t), Denote(u));
    }
  }
}
