/** One named budget, and what makes it usable. */
module Policy {
  import opened Basics
  import Texts

  const MAX_POLICY_ID_LENGTH := 64
  const MAX_POLICY_LIMIT := 100_000
  const MAX_POLICY_WINDOW_SECONDS := 86_400

  /** A number as the program meets it: policies and store answers are not taken on trust. */
  datatype Number = NaN | Infinite(negative: bool) | Finite(value: real) {
    predicate IsInteger() {
      Finite? && value.Floor as real == value
    }
  }

  datatype Policy = Policy(
    id: string,
    limit: Number,
    windowSeconds: Number,
    onBackendFailure: string,
    onUnresolvedClient: Option<string>)

  datatype Problem = BadId | BadLimit | BadWindow | BadFailureMode | BadUnresolvedMode

  predicate IsLower(c: char) {
    'a' <= c <= 'z'
  }

  predicate IsIdChar(c: char) {
    IsLower(c) || '0' <= c <= '9' || c == '-'
  }

  /** `[a-z][a-z0-9-]*` once or more, separated by dots. */
  predicate IsDotted(id: string) {
    && 0 < |id| && IsLower(id[0])
    && (forall i :: 0 <= i < |id| ==> IsIdChar(id[i]) || id[i] == '.')
    && (forall i :: 0 <= i < |id| && id[i] == '.' ==> i + 1 < |id| && IsLower(id[i + 1]))
  }

  /** At least two such parts. */
  predicate IsPolicyId(id: string) {
    IsDotted(id) && '.' in id
  }

  predicate IsIntegerInRange(n: Number, min: int, max: int) {
    n.IsInteger() && min as real <= n.value <= max as real
  }

  function PolicyProblem(policy: Policy): (problem: Option<Problem>)
    ensures problem.None? ==> 1 <= Limit(policy) <= MAX_POLICY_LIMIT
    ensures problem.None? ==> 1 <= WindowSeconds(policy) <= MAX_POLICY_WINDOW_SECONDS
  {
    if |policy.id| > MAX_POLICY_ID_LENGTH || !IsPolicyId(policy.id) then Some(BadId)
    else if !IsIntegerInRange(policy.limit, 1, MAX_POLICY_LIMIT) then Some(BadLimit)
    else if !IsIntegerInRange(policy.windowSeconds, 1, MAX_POLICY_WINDOW_SECONDS) then Some(BadWindow)
    else if policy.onBackendFailure != "deny" && policy.onBackendFailure != "allow" then Some(BadFailureMode)
    else if policy.onUnresolvedClient.Some? && policy.onUnresolvedClient.value !in {"skip", "deny"} then
      Some(BadUnresolvedMode)
    else None
  }

  function Limit(policy: Policy): int {
    if policy.limit.Finite? then policy.limit.value.Floor else 0
  }

  function WindowSeconds(policy: Policy): int {
    if policy.windowSeconds.Finite? then policy.windowSeconds.value.Floor else 0
  }

  /** A whole number as a policy or an answer holds it. */
  function Whole(n: int): Number {
    Finite(n as real)
  }

  /** The limit and the window read are the numbers the policy holds. */
  lemma NumbersAreRead(policy: Policy, n: int)
    ensures policy.limit == Finite(n as real) ==> Limit(policy) == n
    ensures policy.windowSeconds == Finite(n as real) ==> WindowSeconds(policy) == n
    ensures PolicyProblem(policy).None? ==>
      policy.limit == Whole(Limit(policy)) && policy.windowSeconds == Whole(WindowSeconds(policy))
  {
    hide IsPolicyId;
    assert (n as real).Floor == n;
  }

  // ----- The id pattern, part by part

  /** `[a-z][a-z0-9-]*` */
  predicate IsIdPart(part: string) {
    0 < |part| && IsLower(part[0]) && forall i :: 0 <= i < |part| ==> IsIdChar(part[i])
  }

  /** Its characters, one by one: a lower-case letter, then lower-case letters, digits and hyphens. */
  lemma PartCharacters(part: string)
    ensures IsIdPart(part) <==>
      && part != "" && part[0] in Texts.LOWER_LETTERS
      && forall i :: 0 <= i < |part| ==> part[i] in Texts.LOWER_LETTERS || part[i] in Texts.DIGITS || part[i] == '-'
  {
    forall i | 0 <= i < |part|
      ensures IsLower(part[i]) <==> part[i] in Texts.LOWER_LETTERS
      ensures IsIdChar(part[i]) <==> part[i] in Texts.LOWER_LETTERS || part[i] in Texts.DIGITS || part[i] == '-'
    {
      Texts.SmallLetterIs(part[i]);
      Texts.DigitIs(part[i]);
    }
  }

  lemma DottedCuts(a: string, b: string)
    requires '.' !in a
    ensures IsDotted(a + "." + b) <==> IsIdPart(a) && IsDotted(b)
  {
    var id := a + "." + b;
    assert id[|a|] == '.';
    assert forall i :: 0 <= i < |a| ==> id[i] == a[i];
    assert forall i :: 0 <= i < |b| ==> id[|a| + 1 + i] == b[i];
    assert forall i :: |a| < i < |id| ==> id[i] == b[i - |a| - 1];
  }

  lemma {:induction false} DottedIsParts(id: string)
    ensures IsDotted(id) <==> forall p :: 0 <= p < |Texts.Split(id, '.')| ==> IsIdPart(Texts.Split(id, '.')[p])
    decreases |id|
  {
    var i := Texts.IndexOf(id, '.');
    if i < |id| {
      var a, b := id[..i], id[i + 1..];
      assert id == a + "." + b;
      Texts.SplitAt(a, '.', b);
      var parts := Texts.Split(b, '.');
      assert Texts.Split(id, '.') == [a] + parts;
      DottedIsParts(b);
      DottedCuts(a, b);
      assert forall p :: 0 <= p < |parts| ==> ([a] + parts)[p + 1] == parts[p];
      assert ([a] + parts)[0] == a;
    } else {
      assert forall k :: 0 <= k < |id| ==> id[k] != '.';
      assert Texts.Split(id, '.')[0] == id;
    }
  }

  /** An id is usable exactly when splitting it at its dots gives at least two parts of the pattern. */
  lemma IdIsDottedParts(id: string)
    ensures IsPolicyId(id)
       <==> var parts := Texts.Split(id, '.');
            |parts| >= 2 && forall p :: 0 <= p < |parts| ==> IsIdPart(parts[p])
  {
    hide IsDotted, IsIdPart;
    DottedIsParts(id);
  }

  /** The ids, whole numbers and modes that make a policy usable, and nothing else does. */
  lemma UsableExactlyWhen(policy: Policy)
    ensures PolicyProblem(policy).None? <==>
      && |policy.id| <= 64
      && (var parts := Texts.Split(policy.id, '.');
          |parts| >= 2 && forall p :: 0 <= p < |parts| ==> IsIdPart(parts[p]))
      && (exists n :: 1 <= n <= 100_000 && policy.limit == Whole(n))
      && (exists n :: 1 <= n <= 86_400 && policy.windowSeconds == Whole(n))
      && policy.onBackendFailure in {"deny", "allow"}
      && policy.onUnresolvedClient in {None, Some("skip"), Some("deny")}
  {
    hide IsPolicyId, IsIdPart;
    IdIsDottedParts(policy.id);
    InRangeIsWhole(policy.limit, MAX_POLICY_LIMIT);
    InRangeIsWhole(policy.windowSeconds, MAX_POLICY_WINDOW_SECONDS);
  }

  lemma InRangeIsWhole(n: Number, max: int)
    ensures IsIntegerInRange(n, 1, max) <==> exists k :: 1 <= k <= max && n == Whole(k)
  {
    if IsIntegerInRange(n, 1, max) {
      assert n == Whole(n.value.Floor);
    }
  }
}
