/** Who a budget is counted against, and the key of the counter. */
module Subject {
  import opened Basics
  import opened Policy
  import Texts

  const MAX_SUBJECT_PART_LENGTH := 320
  const FIELD_SEPARATOR: char := '\0'

  datatype Subject =
    | Actor(tenantId: string, actorId: string)
    | Client(address: string)
    | UnresolvedClient
    | Identifier(value: string)
    | Global

  /**
   * What the key is made with: the text normalisation (Unicode NFKC, trimmed, lower-cased) and the
   * hash under the server's secret, both taken as given.
   */
  datatype Keying = Keying(normalise: string -> string, hmac: string -> string)

  ghost predicate NoCollisions(keying: Keying) {
    forall a, b :: keying.hmac(a) == keying.hmac(b) ==> a == b
  }

  datatype SubjectProblem = NoCounter | Empty | TooLong

  function KindName(subject: Subject): string {
    match subject
    case Actor(_, _) => "actor"
    case Client(_) => "client"
    case UnresolvedClient => "unresolved-client"
    case Identifier(_) => "identifier"
    case Global => "global"
  }

  function MaterialFor(subject: Subject, keying: Keying): seq<string> {
    match subject
    case Actor(tenantId, actorId) => [tenantId, actorId]
    case Client(address) => [keying.normalise(address)]
    case Identifier(value) => [keying.normalise(value)]
    case UnresolvedClient => []
    case Global => []
  }

  function Join(parts: seq<string>): string {
    Texts.Join(parts, FIELD_SEPARATOR)
  }

  function BuildBucketKey(policyId: string, subject: Subject, keying: Keying): Result<string, SubjectProblem> {
    if subject.Global? then Ok(policyId + ":global")
    else if subject.UnresolvedClient? then Err(NoCounter)
    else
      var parts := MaterialFor(subject, keying);
      if exists i :: 0 <= i < |parts| && |parts[i]| == 0 then Err(Empty)
      else if exists i :: 0 <= i < |parts| && |parts[i]| > MAX_SUBJECT_PART_LENGTH then Err(TooLong)
      else Ok(policyId + ":" + KindName(subject) + ":" + keying.hmac(Join([KindName(subject)] + parts)))
  }

  // ----- The key, kind by kind

  /** What a part may be: not empty, and at most 320 characters. */
  predicate IsUsablePart(part: string) {
    1 <= |part| <= 320
  }

  /** There is a key for a whole policy, and for any other subject exactly when each of its parts is usable. */
  lemma HasKeyExactlyWhen(policyId: string, subject: Subject, keying: Keying)
    ensures BuildBucketKey(policyId, subject, keying).Ok? <==>
      match subject
      case Actor(tenantId, actorId) => IsUsablePart(tenantId) && IsUsablePart(actorId)
      case Client(address) => IsUsablePart(keying.normalise(address))
      case Identifier(value) => IsUsablePart(keying.normalise(value))
      case UnresolvedClient => false
      case Global => true
  {
    var parts := MaterialFor(subject, keying);
    match subject
    case Actor(tenantId, actorId) => assert parts[0] == tenantId && parts[1] == actorId;
    case Client(address) => assert parts[0] == keying.normalise(address);
    case Identifier(value) => assert parts[0] == keying.normalise(value);
    case UnresolvedClient =>
    case Global =>
  }

  /** The policy id and the kind in clear, and the hash of the kind and the parts, separated by NUL. */
  lemma KeyIsText(policyId: string, subject: Subject, keying: Keying)
    requires BuildBucketKey(policyId, subject, keying).Ok?
    ensures BuildBucketKey(policyId, subject, keying).value ==
      match subject
      case Actor(tenantId, actorId) => policyId + ":actor:" + keying.hmac("actor\0" + tenantId + "\0" + actorId)
      case Client(address) => policyId + ":client:" + keying.hmac("client\0" + keying.normalise(address))
      case Identifier(value) => policyId + ":identifier:" + keying.hmac("identifier\0" + keying.normalise(value))
      case UnresolvedClient => ""
      case Global => policyId + ":global"
  {
    if subject.Actor? {
      JoinActor(subject, keying);
      JoinOne("actor", MaterialFor(subject, keying));
      assert "actor" + [FIELD_SEPARATOR] + (subject.tenantId + [FIELD_SEPARATOR] + subject.actorId)
          == "actor\0" + subject.tenantId + "\0" + subject.actorId;
      assert policyId + ":" + "actor" + ":" == policyId + ":actor:";
    } else if subject.Client? {
      JoinOne("client", MaterialFor(subject, keying));
      assert "client" + [FIELD_SEPARATOR] == "client\0";
      assert policyId + ":" + "client" + ":" == policyId + ":client:";
    } else if subject.Identifier? {
      JoinOne("identifier", MaterialFor(subject, keying));
      assert "identifier" + [FIELD_SEPARATOR] == "identifier\0";
      assert policyId + ":" + "identifier" + ":" == policyId + ":identifier:";
    }
  }

  // ----- Isolation

  lemma CutAtFirst(sep: char, p: string, q: string, x: string, y: string)
    requires sep !in p && sep !in q
    requires p + [sep] + x == q + [sep] + y
    ensures p == q && x == y
  {
    var whole := p + [sep] + x;
    assert forall i :: 0 <= i < |p| ==> whole[i] == p[i];
    assert forall i :: 0 <= i < |q| ==> whole[i] == q[i];
    assert whole[|p|] == sep && whole[|q|] == sep;
    assert |p| <= |q| && |q| <= |p|;
    assert p == whole[..|p|] && q == whole[..|q|];
    assert x == whole[|p| + 1..] && y == whole[|q| + 1..];
  }

  lemma JoinOne(part: string, parts: seq<string>)
    requires parts != []
    ensures Join([part] + parts) == part + [FIELD_SEPARATOR] + Join(parts)
  {
    assert ([part] + parts)[1..] == parts;
  }

  lemma JoinActor(subject: Subject, keying: Keying)
    requires subject.Actor?
    ensures MaterialFor(subject, keying) == [subject.tenantId, subject.actorId]
    ensures Join(MaterialFor(subject, keying)) == subject.tenantId + [FIELD_SEPARATOR] + subject.actorId
  {
    JoinOne(subject.tenantId, [subject.actorId]);
    assert [subject.tenantId] + [subject.actorId] == [subject.tenantId, subject.actorId];
  }

  /** The part of the key after the policy id. */
  function KeyTail(subject: Subject, keying: Keying): string {
    if subject.Global? then "global"
    else KindName(subject) + ":" + keying.hmac(Join([KindName(subject)] + MaterialFor(subject, keying)))
  }

  lemma KeyIs(policyId: string, subject: Subject, keying: Keying)
    requires BuildBucketKey(policyId, subject, keying).Ok?
    ensures BuildBucketKey(policyId, subject, keying).value == policyId + ":" + KeyTail(subject, keying)
  {
    if !subject.Global? {
      var digest := keying.hmac(Join([KindName(subject)] + MaterialFor(subject, keying)));
      assert policyId + ":" + KindName(subject) + ":" + digest == policyId + ":" + (KindName(subject) + ":" + digest);
    }
  }

  /** Kinds are told apart by the tail, and within a kind the joined material is. */
  lemma TailsTellMaterialApart(a: Subject, b: Subject, keying: Keying)
    requires NoCollisions(keying) && !a.UnresolvedClient? && !b.UnresolvedClient?
    ensures KeyTail(a, keying) == KeyTail(b, keying)
       <==> KindName(a) == KindName(b) && Join(MaterialFor(a, keying)) == Join(MaterialFor(b, keying))
  {
    assert KeyTail(a, keying)[0] == KindName(a)[0] && KeyTail(b, keying)[0] == KindName(b)[0];
    if KindName(a) == KindName(b) && !a.Global? {
      var kind := KindName(a);
      var x, y := MaterialFor(a, keying), MaterialFor(b, keying);
      JoinOne(kind, x);
      JoinOne(kind, y);
      var p, q := Join([kind] + x), Join([kind] + y);
      assert p[|kind| + 1..] == Join(x) && q[|kind| + 1..] == Join(y);
      var s, t := KeyTail(a, keying), KeyTail(b, keying);
      assert s[|kind| + 1..] == keying.hmac(p) && t[|kind| + 1..] == keying.hmac(q);
    }
  }

  /** The same kind of subject, with the same normalised text or the same ids joined by NUL. */
  predicate ReadAlike(a: Subject, b: Subject, keying: Keying) {
    match (a, b)
    case (Actor(tenantId, actorId), Actor(t, i)) =>
      tenantId + [FIELD_SEPARATOR] + actorId == t + [FIELD_SEPARATOR] + i
    case (Client(address), Client(other)) => keying.normalise(address) == keying.normalise(other)
    case (Identifier(value), Identifier(other)) => keying.normalise(value) == keying.normalise(other)
    case (Global, Global) => true
    case _ => false
  }

  lemma KindsAreApart(a: Subject, b: Subject)
    ensures KindName(a) == KindName(b) <==>
      && (a.Actor? <==> b.Actor?) && (a.Client? <==> b.Client?) && (a.Identifier? <==> b.Identifier?)
      && (a.Global? <==> b.Global?)
  {
    assert |KindName(a)| == if a.Actor? then 5 else if a.UnresolvedClient? then 17 else if a.Identifier? then 10 else 6;
    assert |KindName(b)| == if b.Actor? then 5 else if b.UnresolvedClient? then 17 else if b.Identifier? then 10 else 6;
    assert a.Client? ==> KindName(a)[0] == 'c';
    assert b.Client? ==> KindName(b)[0] == 'c';
    assert a.Global? ==> KindName(a)[0] == 'g';
    assert b.Global? ==> KindName(b)[0] == 'g';
  }

  lemma JoinedAlike(a: Subject, b: Subject, keying: Keying)
    requires !a.UnresolvedClient? && !b.UnresolvedClient?
    ensures KindName(a) == KindName(b) && Join(MaterialFor(a, keying)) == Join(MaterialFor(b, keying))
       <==> ReadAlike(a, b, keying)
  {
    hide KindName;
    KindsAreApart(a, b);
    if a.Actor? && b.Actor? {
      JoinActor(a, keying);
      JoinActor(b, keying);
    }
  }

  /**
   * Two requests with usable policy ids meet in one counter exactly when they name the same policy,
   * the same kind of subject and the same joined material.
   */
  lemma SameCounter(p: string, a: Subject, q: string, b: Subject, keying: Keying)
    requires NoCollisions(keying) && IsPolicyId(p) && IsPolicyId(q)
    requires BuildBucketKey(p, a, keying).Ok? && BuildBucketKey(q, b, keying).Ok?
    ensures BuildBucketKey(p, a, keying) == BuildBucketKey(q, b, keying)
       <==> p == q && ReadAlike(a, b, keying)
  {
    KeyIs(p, a, keying);
    KeyIs(q, b, keying);
    JoinedAlike(a, b, keying);
    hide BuildBucketKey, MaterialFor, KindName, KeyTail, IsPolicyId, ReadAlike;
    assert ':' !in p && ':' !in q by {
      NoColonInId(p);
      NoColonInId(q);
    }
    TailsTellMaterialApart(a, b, keying);
    if BuildBucketKey(p, a, keying) == BuildBucketKey(q, b, keying) {
      CutAtFirst(':', p, q, KeyTail(a, keying), KeyTail(b, keying));
    }
  }

  ghost predicate SeparatorFree(subject: Subject) {
    subject.Actor? ==> FIELD_SEPARATOR !in subject.tenantId && FIELD_SEPARATOR !in subject.actorId
  }

  lemma NoColonInId(id: string)
    requires IsPolicyId(id)
    ensures ':' !in id
  {
  }

  /** The same kind of subject, and the same ids or the same normalised text. */
  predicate IsSameSubject(a: Subject, b: Subject, keying: Keying) {
    match (a, b)
    case (Actor(tenantId, actorId), Actor(t, i)) => tenantId == t && actorId == i
    case (Client(address), Client(other)) => keying.normalise(address) == keying.normalise(other)
    case (Identifier(value), Identifier(other)) => keying.normalise(value) == keying.normalise(other)
    case (Global, Global) => true
    case _ => false
  }

  /**
   * With no NUL in tenant and actor ids, that means: the same policy, and actors with the same ids, or
   * clients or identifiers with the same normalised text, or twice the whole policy.
   */
  lemma BudgetsAreIsolated(p: string, a: Subject, q: string, b: Subject, keying: Keying)
    requires NoCollisions(keying) && IsPolicyId(p) && IsPolicyId(q)
    requires BuildBucketKey(p, a, keying).Ok? && BuildBucketKey(q, b, keying).Ok?
    requires SeparatorFree(a) && SeparatorFree(b)
    ensures BuildBucketKey(p, a, keying) == BuildBucketKey(q, b, keying)
       <==> p == q && IsSameSubject(a, b, keying)
  {
    hide BuildBucketKey, IsPolicyId;
    SameCounter(p, a, q, b, keying);
    if a.Actor? && b.Actor? && ReadAlike(a, b, keying) {
      CutAtFirst(FIELD_SEPARATOR, a.tenantId, b.tenantId, a.actorId, b.actorId);
    }
  }

  // ----- Exactly which actors can be taken for another

  /** A NUL elsewhere in the joined ids would also split them into two acceptable ids. */
  ghost predicate SplitsElsewhere(tenantId: string, actorId: string) {
    var joined := tenantId + [FIELD_SEPARATOR] + actorId;
    exists n :: 1 <= n < |joined| - 1 && n != |tenantId| && joined[n] == FIELD_SEPARATOR
      && n <= MAX_SUBJECT_PART_LENGTH && |joined| - n - 1 <= MAX_SUBJECT_PART_LENGTH
  }

  lemma SplitElsewhereShares(p: string, tenantId: string, actorId: string, keying: Keying)
    returns (other: Subject)
    requires BuildBucketKey(p, Actor(tenantId, actorId), keying).Ok? && SplitsElsewhere(tenantId, actorId)
    ensures other.Actor? && other != Actor(tenantId, actorId)
    ensures BuildBucketKey(p, other, keying) == BuildBucketKey(p, Actor(tenantId, actorId), keying)
  {
    var joined := tenantId + [FIELD_SEPARATOR] + actorId;
    var n :| 1 <= n < |joined| - 1 && n != |tenantId| && joined[n] == FIELD_SEPARATOR
      && n <= MAX_SUBJECT_PART_LENGTH && |joined| - n - 1 <= MAX_SUBJECT_PART_LENGTH;
    other := Actor(joined[..n], joined[n + 1..]);
    assert joined[..n] + [FIELD_SEPARATOR] + joined[n + 1..] == joined;
    SameJoinSameKey(p, Actor(tenantId, actorId), other, keying);
  }

  lemma SameJoinSameKey(p: string, a: Subject, b: Subject, keying: Keying)
    requires a.Actor? && b.Actor? && BuildBucketKey(p, a, keying).Ok?
    requires a.tenantId + [FIELD_SEPARATOR] + a.actorId == b.tenantId + [FIELD_SEPARATOR] + b.actorId
    requires 1 <= |b.tenantId| <= MAX_SUBJECT_PART_LENGTH && 1 <= |b.actorId| <= MAX_SUBJECT_PART_LENGTH
    ensures BuildBucketKey(p, b, keying) == BuildBucketKey(p, a, keying)
  {
    JoinActor(a, keying);
    JoinActor(b, keying);
    JoinOne("actor", MaterialFor(a, keying));
    JoinOne("actor", MaterialFor(b, keying));
  }

  /**
   * An actor shares its counter with no other actor exactly when its joined ids split in no other
   * acceptable place; ids without NUL never do.
   */
  lemma ActorIsAlone(p: string, tenantId: string, actorId: string, keying: Keying)
    requires NoCollisions(keying) && IsPolicyId(p)
    requires BuildBucketKey(p, Actor(tenantId, actorId), keying).Ok?
    ensures
      (forall t, a ::
        BuildBucketKey(p, Actor(t, a), keying) == BuildBucketKey(p, Actor(tenantId, actorId), keying) ==>
        t == tenantId && a == actorId)
      <==> !SplitsElsewhere(tenantId, actorId)
  {
    if SplitsElsewhere(tenantId, actorId) {
      var other := SplitElsewhereShares(p, tenantId, actorId, keying);
      assert other == Actor(other.tenantId, other.actorId);
    } else {
      forall t, a | BuildBucketKey(p, Actor(t, a), keying) == BuildBucketKey(p, Actor(tenantId, actorId), keying)
        ensures t == tenantId && a == actorId
      {
        SharingMeansSplitting(p, tenantId, actorId, t, a, keying);
      }
    }
  }

  lemma SharingMeansSplitting(p: string, tenantId: string, actorId: string, t: string, a: string, keying: Keying)
    requires NoCollisions(keying) && IsPolicyId(p)
    requires BuildBucketKey(p, Actor(tenantId, actorId), keying).Ok?
    requires BuildBucketKey(p, Actor(t, a), keying) == BuildBucketKey(p, Actor(tenantId, actorId), keying)
    ensures (t == tenantId && a == actorId) || SplitsElsewhere(tenantId, actorId)
  {
    SameCounter(p, Actor(t, a), p, Actor(tenantId, actorId), keying);
    JoinActor(Actor(t, a), keying);
    JoinActor(Actor(tenantId, actorId), keying);
    var joined := tenantId + [FIELD_SEPARATOR] + actorId;
    assert |t| != 0 && |a| != 0 && |t| <= MAX_SUBJECT_PART_LENGTH && |a| <= MAX_SUBJECT_PART_LENGTH by {
      var parts := MaterialFor(Actor(t, a), keying);
      assert parts[0] == t && parts[1] == a;
    }
    assert joined[|t|] == FIELD_SEPARATOR;
    if |t| == |tenantId| {
      assert t == joined[..|t|] && a == joined[|t| + 1..];
      assert tenantId == joined[..|t|] && actorId == joined[|t| + 1..];
    }
  }

  /** Two different actors whose ids contain NUL and who therefore spend one budget. */
  lemma NulJoinsTwoActors(p: string, keying: Keying)
    ensures BuildBucketKey(p, Actor("a\0b", "c"), keying).Ok?
    ensures BuildBucketKey(p, Actor("a\0b", "c"), keying) == BuildBucketKey(p, Actor("a", "b\0c"), keying)
  {
    var x, y := Actor("a\0b", "c"), Actor("a", "b\0c");
    JoinActor(x, keying);
    SameJoinSameKey(p, x, y, keying);
  }
}
