/** From request headers to a client address: which hop is believed. */
module ForwardedFor {
  import opened Basics
  import opened Texts
  import opened ClientAddress

  datatype Reason = HeaderMissing | HeaderMalformed | AmbiguousHeader | NoUntrustedHop

  datatype Resolution = Resolved(address: string) | Unresolved(reason: Reason)

  predicate IsSpace(c: char) {
    || '\t' <= c <= '\r' || c == ' ' || c == '\U{A0}' || c == '\U{1680}' || '\U{2000}' <= c <= '\U{200A}'
    || c == '\U{2028}' || c == '\U{2029}' || c == '\U{202F}' || c == '\U{205F}' || c == '\U{3000}' || c == '\U{FEFF}'
  }

  function Trim(s: string): string {
    if s != "" && IsSpace(s[0]) then Trim(s[1..])
    else if s != "" && IsSpace(s[|s| - 1]) then Trim(s[..|s| - 1])
    else s
  }

  /** White space: tab to carriage return, the spaces of Unicode, the two line separators, and the byte order mark. */
  lemma SpacesAre(c: char)
    ensures IsSpace(c) <==>
      || c in "\t\n\U{0B}\U{0C}\r \U{A0}\U{1680}\U{2028}\U{2029}\U{202F}\U{205F}\U{3000}\U{FEFF}"
      || c in "\U{2000}\U{2001}\U{2002}\U{2003}\U{2004}\U{2005}\U{2006}\U{2007}\U{2008}\U{2009}\U{200A}"
  {
    if '\t' <= c <= '\r' {
      assert c == '\t' || c == '\n' || c == '\U{0B}' || c == '\U{0C}' || c == '\r';
    }
    if '\U{2000}' <= c <= '\U{200A}' {
      var n := (c - '\U{2000}') as int;
      assert n in {0, 1, 2, 3, 4, 5, 6, 7, 8, 9, 10};
    }
  }

  ghost predicate AllSpace(s: string) {
    forall i :: 0 <= i < |s| ==> IsSpace(s[i])
  }

  /** Trimming takes away exactly the white space at both ends. */
  lemma {:induction false} TrimTakesOuterSpace(s: string) returns (before: string, after: string)
    ensures s == before + Trim(s) + after && AllSpace(before) && AllSpace(after)
    ensures Trim(s) != "" ==> !IsSpace(Trim(s)[0]) && !IsSpace(Trim(s)[|Trim(s)| - 1])
    decreases |s|
  {
    hide IsSpace;
    before, after := "", "";
    if s != "" && IsSpace(s[0]) {
      assert Trim(s) == Trim(s[1..]) && s == [s[0]] + s[1..];
      before, after := TrimTakesOuterSpace(s[1..]);
      before := [s[0]] + before;
    } else if s != "" && IsSpace(s[|s| - 1]) {
      var init := s[..|s| - 1];
      assert Trim(s) == Trim(init) && s == init + [s[|s| - 1]];
      before, after := TrimTakesOuterSpace(init);
      after := after + [s[|s| - 1]];
    }
  }

  function TrimmedHops(parts: seq<string>): seq<string> {
    if parts == [] then []
    else
      var hop := Trim(parts[0]);
      (if hop == "" then [] else [hop]) + TrimmedHops(parts[1..])
  }

  function SplitHops(value: string): seq<string> {
    TrimmedHops(Split(value, ','))
  }

  /** What Node and the configuration decide: which texts are addresses, and which addresses are trusted. */
  datatype Setting = Setting(isIP: string -> int, trusted: ParsedIp -> bool)

  predicate IsTrustedHop(setting: Setting, hop: string) {
    var parsed := ParseIp(setting.isIP, hop);
    parsed.Some? && setting.trusted(parsed.value)
  }

  /** What is said about the first hop from the right that is not a trusted proxy. */
  function Verdict(setting: Setting, hop: string): Resolution {
    match ParseIp(setting.isIP, hop)
    case None => Unresolved(HeaderMalformed)
    case Some(parsed) => Resolved(Normalise(parsed))
  }

  function FromHops(setting: Setting, hops: seq<string>): Resolution {
    if hops == [] then Unresolved(NoUntrustedHop)
    else if IsTrustedHop(setting, hops[|hops| - 1]) then FromHops(setting, hops[..|hops| - 1])
    else Verdict(setting, hops[|hops| - 1])
  }

  /** The `x-forwarded-for` header, read from the right. */
  method FromForwardedFor(setting: Setting, header: Option<string>) returns (resolution: Resolution)
    ensures
      var hops := SplitHops(if header.Some? then header.value else "");
      resolution == if hops == [] then Unresolved(HeaderMissing) else FromHops(setting, hops)
  {
    hide ParseIp, Normalise, SplitHops;
    var hops := SplitHops(if header.Some? then header.value else "");
    if |hops| == 0 {
      return Unresolved(HeaderMissing);
    }
    var i := |hops|;
    assert hops[..i] == hops;
    while i > 0
      invariant 0 <= i <= |hops|
      invariant FromHops(setting, hops[..i]) == FromHops(setting, hops)
    {
      i := i - 1;
      assert hops[..i + 1][..i] == hops[..i];
      var parsed := ParseIp(setting.isIP, hops[i]);
      if parsed == None {
        return Unresolved(HeaderMalformed);
      }
      if setting.trusted(parsed.value) {
        continue;
      }
      return Resolved(Normalise(parsed.value));
    }
    resolution := Unresolved(NoUntrustedHop);
  }

  /** The platform's own header, which holds exactly one address. */
  function FromPlatformHeader(setting: Setting, header: Option<string>): Resolution {
    var hops := SplitHops(if header.Some? then header.value else "");
    if hops == [] then Unresolved(HeaderMissing)
    else if |hops| > 1 then Unresolved(AmbiguousHeader)
    else Verdict(setting, hops[0])
  }

  /** The platform's header resolves exactly when it holds one address and nothing else. */
  lemma PlatformResolvesExactlyWhen(setting: Setting, header: Option<string>, address: string)
    ensures FromPlatformHeader(setting, header) == Resolved(address)
       <==> exists hop :: header.Some? && SplitHops(header.value) == [hop] &&
                          ParseIp(setting.isIP, hop).Some? && Normalise(ParseIp(setting.isIP, hop).value) == address
  {
    hide ParseIp, Normalise, SplitHops;
    NoHops();
    if header.Some? && |SplitHops(header.value)| == 1 {
      assert SplitHops(header.value) == [SplitHops(header.value)[0]];
    }
  }

  /** And it fails to: without an address, with more than one, or with one that is none. */
  lemma PlatformFailsExactlyWhen(setting: Setting, header: Option<string>)
    ensures
      var hops := if header.Some? then SplitHops(header.value) else [];
      var resolution := FromPlatformHeader(setting, header);
      && (resolution == Unresolved(HeaderMissing) <==> hops == [])
      && (resolution == Unresolved(AmbiguousHeader) <==> |hops| >= 2)
      && (resolution == Unresolved(HeaderMalformed) <==> |hops| == 1 && ParseIp(setting.isIP, hops[0]).None?)
      && resolution != Unresolved(NoUntrustedHop)
  {
    hide ParseIp, Normalise, SplitHops;
    NoHops();
  }

  lemma NoHops()
    ensures SplitHops("") == []
  {
    assert Split("", ',') == [""];
    assert [""][1..] == [];
  }

  // ----- Which hop decides

  /** Hop `i` is reached: every hop to its right parses and is trusted. */
  ghost predicate Reached(setting: Setting, hops: seq<string>, i: nat)
    requires i < |hops|
  {
    forall j :: i < j < |hops| ==> IsTrustedHop(setting, hops[j])
  }

  ghost predicate Decides(setting: Setting, hops: seq<string>, i: nat)
    requires i < |hops|
  {
    Reached(setting, hops, i) && !IsTrustedHop(setting, hops[i])
  }

  /** The deciding hop, or the number of hops if all of them are trusted. */
  lemma {:induction false} DecidingHop(setting: Setting, hops: seq<string>) returns (i: nat)
    ensures i <= |hops|
    ensures i == |hops| ==>
      FromHops(setting, hops) == Unresolved(NoUntrustedHop) &&
      forall j :: 0 <= j < |hops| ==> IsTrustedHop(setting, hops[j])
    ensures i < |hops| ==> Decides(setting, hops, i) && FromHops(setting, hops) == Verdict(setting, hops[i])
  {
    hide IsTrustedHop, Verdict;
    i := |hops|;
    if hops != [] {
      var last := |hops| - 1;
      if IsTrustedHop(setting, hops[last]) {
        i := DecidingHop(setting, hops[..last]);
        if i == last {
          i := |hops|;
        }
      } else {
        i := last;
      }
    }
  }

  /**
   * The header resolves to an address exactly when some hop parses, is untrusted and normalises to
   * it, while every hop to its right parses and is trusted.
   */
  lemma ResolvesExactlyWhen(setting: Setting, hops: seq<string>, address: string)
    ensures FromHops(setting, hops) == Resolved(address)
       <==> exists i :: 0 <= i < |hops| && Decides(setting, hops, i) &&
                        ParseIp(setting.isIP, hops[i]).Some? &&
                        Normalise(ParseIp(setting.isIP, hops[i]).value) == address
  {
    hide ParseIp, Normalise, FromHops;
    var d := DecidingHop(setting, hops);
  }

  /**
   * The header is refused as malformed exactly when a hop that is not an address is reached. A
   * malformed hop further left than the client is not looked at.
   */
  lemma MalformedExactlyWhen(setting: Setting, hops: seq<string>)
    ensures FromHops(setting, hops) == Unresolved(HeaderMalformed)
       <==> exists i :: 0 <= i < |hops| && Reached(setting, hops, i) && ParseIp(setting.isIP, hops[i]).None?
  {
    hide ParseIp, Normalise, FromHops;
    var d := DecidingHop(setting, hops);
  }

  /** No hop decides, because there is none or all are trusted proxies, exactly when none is untrusted. */
  lemma UndecidedExactlyWhen(setting: Setting, hops: seq<string>)
    ensures FromHops(setting, hops) == Unresolved(NoUntrustedHop)
       <==> forall i :: 0 <= i < |hops| ==> IsTrustedHop(setting, hops[i])
  {
    hide ParseIp, Normalise, FromHops;
    var d := DecidingHop(setting, hops);
  }

  /** `x, 1.2.3.4` resolves although its left hop is no address: the whole header is not distrusted. */
  lemma LeftGarbageIsNotSeen(setting: Setting)
    requires ParseIp(setting.isIP, "x").None? && setting.isIP("1.2.3.4") == 4
    requires !setting.trusted(ParsedIp(V4, "1.2.3.4"))
    ensures FromHops(setting, SplitHops("x, 1.2.3.4")) == Resolved("1.2.3.4")
  {
    hide SplitHops, Trim, ParseIp;
    var header := "x" + "," + " 1.2.3.4";
    assert header == "x, 1.2.3.4";
    HopsOfConcat("x", " 1.2.3.4");
    TrimsTo("", "x");
    TrimsTo(" ", "1.2.3.4");
    assert "" + "x" == "x";
    OneHop("x");
    OneHop(" " + "1.2.3.4");
    assert " " + "1.2.3.4" == " 1.2.3.4";
    LastHopDecides(setting, ["x"], "1.2.3.4");
  }

  lemma LastHopDecides(setting: Setting, left: seq<string>, hop: string)
    requires setting.isIP(hop) == 4 && !setting.trusted(ParsedIp(V4, hop))
    ensures FromHops(setting, left + [hop]) == Resolved(hop)
  {
  }

  /** Text between commas is one hop without the white space around it, or none if nothing else is there. */
  lemma OneHop(s: string)
    requires ',' !in s
    ensures SplitHops(s) == if Trim(s) == "" then [] else [Trim(s)]
  {
    hide Trim;
    assert IndexOf(s, ',') == |s|;
    assert Split(s, ',') == [s];
    assert [s][1..] == [] && TrimmedHops([]) == [];
    assert TrimmedHops([s]) == (if Trim(s) == "" then [] else [Trim(s)]) + [];
  }

  lemma {:induction false} TrimsTo(space: string, core: string)
    requires AllSpace(space) && core != "" && !IsSpace(core[0]) && !IsSpace(core[|core| - 1])
    ensures Trim(space + core) == core
  {
    hide IsSpace;
    if space == "" {
      assert space + core == core;
    } else {
      assert (space + core)[1..] == space[1..] + core;
      TrimsTo(space[1..], core);
    }
  }

  // ----- What the client prepends

  lemma {:induction false} TrimmedConcat(a: seq<string>, b: seq<string>)
    ensures TrimmedHops(a + b) == TrimmedHops(a) + TrimmedHops(b)
  {
    if a == [] {
      assert a + b == b;
    } else {
      assert (a + b)[1..] == a[1..] + b;
      TrimmedConcat(a[1..], b);
    }
  }

  /** The hops of a header are those before a comma and those behind it. */
  lemma HopsOfConcat(forged: string, value: string)
    ensures SplitHops(forged + "," + value) == SplitHops(forged) + SplitHops(value)
  {
    SplitAppends(forged, value, ',');
    TrimmedConcat(Split(forged, ','), Split(value, ','));
  }

  lemma {:induction false} LeftHopsDoNotMatter(setting: Setting, left: seq<string>, hops: seq<string>)
    requires exists i :: 0 <= i < |hops| && !IsTrustedHop(setting, hops[i])
    ensures FromHops(setting, left + hops) == FromHops(setting, hops)
  {
    var last := |hops| - 1;
    assert (left + hops)[..|left + hops| - 1] == left + hops[..last];
    if IsTrustedHop(setting, hops[last]) {
      var i :| 0 <= i < |hops| && !IsTrustedHop(setting, hops[i]);
      assert hops[..last][i] == hops[i];
      LeftHopsDoNotMatter(setting, left, hops[..last]);
    }
  }

  /**
   * A client cannot steer the result: once the proxies' part of the header holds a hop that is not
   * a trusted proxy, whatever text is put before it, behind a comma, changes nothing.
   */
  lemma PrependingChangesNothing(setting: Setting, forged: string, value: string)
    requires FromHops(setting, SplitHops(value)) != Unresolved(NoUntrustedHop)
    ensures FromHops(setting, SplitHops(forged + "," + value)) == FromHops(setting, SplitHops(value))
    ensures SplitHops(forged + "," + value) != []
  {
    hide SplitHops, ParseIp, FromHops;
    UndecidedExactlyWhen(setting, SplitHops(value));
    HopsOfConcat(forged, value);
    LeftHopsDoNotMatter(setting, SplitHops(forged), SplitHops(value));
  }
}
