/** A copy of a log context that is safe to write: secrets masked, cycles and deep nesting cut off. */
module Redaction {
  import Texts

  const MAX_REDACTION_DEPTH := 8

  type Id = nat

  /** A value: a primitive, a `bigint`, or a reference to an object of the heap. */
  datatype Value = Primitive(text: string) | BigInt(digits: string) | Ref(id: Id)

  /** Arrays, plain objects with their own entries in order, and anything else as its text. */
  datatype Node = Array(items: seq<Value>) | Record(entries: seq<(string, Value)>) | Opaque(text: string)

  type Heap = map<Id, Node>

  ghost predicate Closed(heap: Heap) {
    forall id :: id in heap ==> forall v :: v in Children(heap[id]) ==> InHeap(heap, v)
  }

  predicate InHeap(heap: Heap, v: Value) {
    v.Ref? ==> v.id in heap
  }

  function Children(node: Node): seq<Value> {
    match node
    case Array(items) => items
    case Record(entries) => ValuesOf(entries)
    case Opaque(_) => []
  }

  function ValuesOf(entries: seq<(string, Value)>): (vs: seq<Value>)
    ensures |vs| == |entries| && forall i :: 0 <= i < |vs| ==> vs[i] == entries[i].1
  {
    seq(|entries|, i requires 0 <= i < |entries| => entries[i].1)
  }

  /** What is written: primitives as they are, texts put in their place, arrays and records. */
  datatype Output =
    | Kept(text: string)
    | Text(text: string)
    | List(items: seq<Output>)
    | Fields(entries: seq<(string, Output)>)

  const REDACTED := Text("[REDACTED]")
  const CIRCULAR := Text("[Circular]")
  const TRUNCATED := Text("[Truncated]")

  /** The words a sensitive key contains, the optional separators of the pattern written out. */
  const WORDS := [
    "password", "passwd", "passphrase", "token", "secret", "apikey", "api-key", "api_key", "privatekey", "private-key",
    "private_key", "authorization", "cookie", "creditcard", "credit-card", "credit_card", "cvv"]

  predicate IsSensitive(key: string) {
    exists w :: 0 <= w < |WORDS| && Texts.Contains(Texts.Lower(key), WORDS[w])
  }

  /** The character is this small letter or sign, or the capital of this letter. */
  predicate IsEitherCase(c: char, letter: char) {
    c == letter || ('a' <= letter <= 'z' && c == 'A' + (letter - 'a'))
  }

  /** The word stands at this place of the key, each of its letters in either case. */
  predicate StandsAt(key: string, i: nat, word: string) {
    i + |word| <= |key| && forall k :: 0 <= k < |word| ==> IsEitherCase(key[i + k], word[k])
  }

  lemma WordsAreSmall(w: nat)
    requires w < |WORDS|
    ensures forall k :: 0 <= k < |WORDS[w]| ==> !('A' <= WORDS[w][k] <= 'Z')
  {
  }

  lemma LowersTo(c: char, letter: char)
    requires !('A' <= letter <= 'Z')
    ensures Texts.LowerChar(c) == letter <==> IsEitherCase(c, letter)
  {
    Texts.LowerIsLetterByLetter(c);
    Texts.CapitalIs(c);
    if 'A' <= c <= 'Z' {
      Texts.LetterAt((c - 'A') as nat);
    }
  }

  lemma StandsSomewhere(key: string, word: string)
    requires forall k :: 0 <= k < |word| ==> !('A' <= word[k] <= 'Z')
    ensures Texts.Contains(Texts.Lower(key), word) <==> exists i: nat :: StandsAt(key, i, word)
  {
    hide IsEitherCase, Texts.Contains, Texts.LowerChar;
    var lower := Texts.Lower(key);
    forall i: nat | i + |word| <= |key|
      ensures StandsAt(key, i, word) <==> lower[i..i + |word|] == word
    {
      forall k | 0 <= k < |word|
        ensures lower[i + k] == word[k] <==> IsEitherCase(key[i + k], word[k])
      {
        LowersTo(key[i + k], word[k]);
      }
      var part := lower[i..i + |word|];
      assert forall k :: 0 <= k < |word| ==> part[k] == lower[i + k];
    }
    if Texts.Contains(lower, word) {
      var a, b := Texts.ContainsSplits(lower, word);
      assert lower[|a|..|a| + |word|] == word;
      assert StandsAt(key, |a|, word);
    }
    if i: nat :| StandsAt(key, i, word) {
      Texts.ContainsInside(lower[..i], word, lower[i + |word|..]);
      assert lower == lower[..i] + word + lower[i + |word|..];
    }
  }

  /** A key is sensitive exactly when one of the words stands somewhere in it, each letter in either case. */
  lemma SensitiveExactlyWhen(key: string)
    ensures IsSensitive(key) <==> exists w, i: nat :: 0 <= w < |WORDS| && StandsAt(key, i, WORDS[w])
  {
    hide StandsAt, Texts.Contains, Texts.Lower;
    forall w: nat | w < |WORDS|
      ensures Texts.Contains(Texts.Lower(key), WORDS[w]) <==> exists i: nat :: StandsAt(key, i, WORDS[w])
    {
      WordsAreSmall(w);
      StandsSomewhere(key, WORDS[w]);
    }
  }

  /** Names that carry credentials as surely as the words themselves do. */
  lemma CredentialsAreSensitive()
    ensures IsSensitive("accessToken")
    ensures IsSensitive("x-api-key")
    ensures IsSensitive("newPassword")
  {
    hide IsSensitive;
    SensitiveExactlyWhen("accessToken");
    assert StandsAt("accessToken", 6, WORDS[3]);
    SensitiveExactlyWhen("x-api-key");
    assert StandsAt("x-api-key", 2, WORDS[6]);
    SensitiveExactlyWhen("newPassword");
    assert StandsAt("newPassword", 3, WORDS[0]);
  }

  /** Headers and variables. */
  lemma CookiesAndSecretsAreSensitive()
    ensures IsSensitive("Set-Cookie")
    ensures IsSensitive("AUTH_SECRET")
    ensures IsSensitive("Authorization")
  {
    hide IsSensitive;
    SensitiveExactlyWhen("Set-Cookie");
    assert StandsAt("Set-Cookie", 4, WORDS[12]);
    SensitiveExactlyWhen("AUTH_SECRET");
    assert StandsAt("AUTH_SECRET", 5, WORDS[4]);
    SensitiveExactlyWhen("Authorization");
    assert StandsAt("Authorization", 0, WORDS[11]);
  }

  /** Other words for passwords, and keys with either separator or none. */
  lemma PasswordsAndKeysAreSensitive()
    ensures IsSensitive("passwd")
    ensures IsSensitive("passPhrase")
    ensures IsSensitive("apiKey")
    ensures IsSensitive("API_KEY")
  {
    hide IsSensitive;
    SensitiveExactlyWhen("passwd");
    assert StandsAt("passwd", 0, WORDS[1]);
    SensitiveExactlyWhen("passPhrase");
    assert StandsAt("passPhrase", 0, WORDS[2]);
    SensitiveExactlyWhen("apiKey");
    assert StandsAt("apiKey", 0, WORDS[5]);
    SensitiveExactlyWhen("API_KEY");
    assert StandsAt("API_KEY", 0, WORDS[7]);
  }

  /** Private keys with either separator or none. */
  lemma PrivateKeysAreSensitive()
    ensures IsSensitive("privateKey")
    ensures IsSensitive("Private-Key")
    ensures IsSensitive("PRIVATE_KEY")
  {
    hide IsSensitive;
    SensitiveExactlyWhen("privateKey");
    assert StandsAt("privateKey", 0, WORDS[8]);
    SensitiveExactlyWhen("Private-Key");
    assert StandsAt("Private-Key", 0, WORDS[9]);
    SensitiveExactlyWhen("PRIVATE_KEY");
    assert StandsAt("PRIVATE_KEY", 0, WORDS[10]);
  }

  /** Credit cards with either separator or none, and their codes. */
  lemma CardsAreSensitive()
    ensures IsSensitive("creditCard")
    ensures IsSensitive("Credit-Card")
    ensures IsSensitive("CREDIT_CARD")
    ensures IsSensitive("cvv")
  {
    hide IsSensitive;
    SensitiveExactlyWhen("creditCard");
    assert StandsAt("creditCard", 0, WORDS[13]);
    SensitiveExactlyWhen("Credit-Card");
    assert StandsAt("Credit-Card", 0, WORDS[14]);
    SensitiveExactlyWhen("CREDIT_CARD");
    assert StandsAt("CREDIT_CARD", 0, WORDS[15]);
    SensitiveExactlyWhen("cvv");
    assert StandsAt("cvv", 0, WORDS[16]);
  }

  // ----- The redaction

  function Redact(heap: Heap, v: Value, ancestors: seq<Id>): Output
    requires Closed(heap) && InHeap(heap, v) && |ancestors| <= MAX_REDACTION_DEPTH
    decreases MAX_REDACTION_DEPTH - |ancestors|, 0, 0
  {
    match v
    case Primitive(text) => Kept(text)
    case BigInt(digits) => Text(digits)
    case Ref(id) =>
      if id in ancestors then CIRCULAR
      else if |ancestors| >= MAX_REDACTION_DEPTH then TRUNCATED
      else
        match heap[id]
        case Array(items) => List(RedactItems(heap, items, ancestors + [id]))
        case Opaque(text) => Text(text)
        case Record(entries) =>
          RecordInHeap(heap, id);
          Fields(RedactEntries(heap, entries, ancestors + [id]))
  }

  function RedactItems(heap: Heap, items: seq<Value>, ancestors: seq<Id>): (r: seq<Output>)
    requires Closed(heap) && |ancestors| <= MAX_REDACTION_DEPTH
    requires forall v :: v in items ==> InHeap(heap, v)
    ensures |r| == |items|
    ensures forall i :: 0 <= i < |items| ==> r[i] == Redact(heap, items[i], ancestors)
    decreases MAX_REDACTION_DEPTH - |ancestors|, 1, |items|
  {
    if items == [] then []
    else [Redact(heap, items[0], ancestors)] + RedactItems(heap, items[1..], ancestors)
  }

  function RedactEntries(heap: Heap, entries: seq<(string, Value)>, ancestors: seq<Id>): (r: seq<(string, Output)>)
    requires Closed(heap) && |ancestors| <= MAX_REDACTION_DEPTH
    requires forall i :: 0 <= i < |entries| ==> InHeap(heap, entries[i].1)
    ensures |r| == |entries|
    ensures forall i :: 0 <= i < |entries| ==>
      r[i] == (entries[i].0, RedactField(heap, entries[i].0, entries[i].1, ancestors))
    decreases MAX_REDACTION_DEPTH - |ancestors|, 1, |entries|
  {
    if entries == [] then []
    else
      [(entries[0].0, RedactField(heap, entries[0].0, entries[0].1, ancestors))]
      + RedactEntries(heap, entries[1..], ancestors)
  }

  function RedactField(heap: Heap, key: string, v: Value, ancestors: seq<Id>): Output
    requires Closed(heap) && InHeap(heap, v) && |ancestors| <= MAX_REDACTION_DEPTH
    decreases MAX_REDACTION_DEPTH - |ancestors|, 0, 1
  {
    if IsSensitive(key) then REDACTED else Redact(heap, v, ancestors)
  }

  lemma RecordInHeap(heap: Heap, id: Id)
    requires Closed(heap) && id in heap && heap[id].Record?
    ensures forall i :: 0 <= i < |heap[id].entries| ==> InHeap(heap, heap[id].entries[i].1)
  {
    var entries := heap[id].entries;
    forall i | 0 <= i < |entries|
      ensures InHeap(heap, entries[i].1)
    {
      assert ValuesOf(entries)[i] in Children(heap[id]);
    }
  }

  /** One level of the redaction. */
  lemma RedactLevel(heap: Heap, id: Id, ancestors: seq<Id>)
    requires Closed(heap) && id in heap && id !in ancestors && |ancestors| < MAX_REDACTION_DEPTH
    ensures
      var inner := ancestors + [id];
      match heap[id]
      case Array(items) => Redact(heap, Ref(id), ancestors) == List(RedactItems(heap, items, inner))
      case Opaque(text) => Redact(heap, Ref(id), ancestors) == Text(text)
      case Record(entries) =>
        (RecordInHeap(heap, id); Redact(heap, Ref(id), ancestors) == Fields(RedactEntries(heap, entries, inner)))
  {
    hide RedactItems, RedactEntries, IsSensitive;
  }

  // ----- What is written for one value

  /** Primitives and `bigint`s; a reference to an ancestor; a level too deep; and otherwise one level of the object. */
  lemma ValuesAreWritten(heap: Heap, v: Value, ancestors: seq<Id>)
    requires Closed(heap) && InHeap(heap, v) && |ancestors| <= 8
    ensures v.Primitive? ==> Redact(heap, v, ancestors) == Kept(v.text)
    ensures v.BigInt? ==> Redact(heap, v, ancestors) == Text(v.digits)
    ensures v.Ref? && v.id in ancestors ==> Redact(heap, v, ancestors) == Text("[Circular]")
    ensures v.Ref? && v.id !in ancestors && |ancestors| == 8 ==> Redact(heap, v, ancestors) == Text("[Truncated]")
    ensures v.Ref? && v.id !in ancestors && |ancestors| < 8 ==>
      var inner := ancestors + [v.id];
      var out := Redact(heap, v, ancestors);
      match heap[v.id]
      case Opaque(text) => out == Text(text)
      case Array(items) =>
        && (forall i :: 0 <= i < |items| ==> InHeap(heap, items[i]))
        && out.List? && |out.items| == |items|
        && forall i :: 0 <= i < |items| ==> out.items[i] == Redact(heap, items[i], inner)
      case Record(entries) =>
        && (forall i :: 0 <= i < |entries| ==> InHeap(heap, entries[i].1))
        && out.Fields? && |out.entries| == |entries|
        && forall i :: 0 <= i < |entries| ==>
             out.entries[i] == (entries[i].0, if IsSensitive(entries[i].0) then Text("[REDACTED]")
                                              else Redact(heap, entries[i].1, inner))
  {
    hide IsSensitive, RedactItems, RedactEntries;
    if v.Ref? && heap[v.id].Record? {
      RecordInHeap(heap, v.id);
    }
  }

  /** An object that holds itself is written once, and a mark stands for it inside. */
  lemma SelfReferenceIsMarked(heap: Heap, id: Id, key: string)
    requires Closed(heap) && id in heap && heap[id] == Record([(key, Ref(id))]) && !IsSensitive(key)
    ensures Redact(heap, Ref(id), []) == Fields([(key, Text("[Circular]"))])
  {
    hide IsSensitive, Redact;
    ValuesAreWritten(heap, Ref(id), []);
    ValuesAreWritten(heap, Ref(id), [] + [id]);
    assert Redact(heap, Ref(id), []).entries == [(key, Text("[Circular]"))];
  }

  /** Longer cycles too: two objects that hold each other are each written once. */
  lemma MutualReferencesAreMarked(heap: Heap, a: Id, b: Id, key: string)
    requires Closed(heap) && a != b && a in heap && b in heap && !IsSensitive(key)
    requires heap[a] == Record([(key, Ref(b))]) && heap[b] == Array([Ref(a)])
    ensures Redact(heap, Ref(a), []) == Fields([(key, List([Text("[Circular]")]))])
  {
    hide IsSensitive, Redact;
    ValuesAreWritten(heap, Ref(a), []);
    ValuesAreWritten(heap, Ref(b), [] + [a]);
    ValuesAreWritten(heap, Ref(a), [] + [a] + [b]);
    assert Redact(heap, Ref(b), [] + [a]).items == [Text("[Circular]")];
    assert Redact(heap, Ref(a), []).entries == [(key, List([Text("[Circular]")]))];
  }

  // ----- The output is bounded and holds no value under a sensitive key

  ghost predicate FitsDepth(out: Output, depth: nat)
  {
    match out
    case Kept(_) => true
    case Text(_) => true
    case List(items) => depth > 0 && forall o :: o in items ==> FitsDepth(o, depth - 1)
    case Fields(entries) => depth > 0 && forall e :: e in entries ==> FitsDepth(e.1, depth - 1)
  }

  ghost predicate NoSecrets(out: Output) {
    match out
    case Kept(_) => true
    case Text(_) => true
    case List(items) => forall o :: o in items ==> NoSecrets(o)
    case Fields(entries) => forall e :: e in entries ==> NoSecrets(e.1) && (IsSensitive(e.0) ==> e.1 == REDACTED)
  }

  ghost predicate IsSafe(out: Output, depth: nat) {
    FitsDepth(out, depth) && NoSecrets(out)
  }

  lemma ListIsSafe(items: seq<Output>, depth: nat)
    requires forall i :: 0 <= i < |items| ==> IsSafe(items[i], depth)
    ensures IsSafe(List(items), depth + 1)
  {
    forall o | o in items
      ensures IsSafe(o, depth)
    {
      var i :| 0 <= i < |items| && items[i] == o;
    }
  }

  lemma FieldsAreSafe(entries: seq<(string, Output)>, depth: nat)
    requires forall i :: 0 <= i < |entries| ==>
      IsSafe(entries[i].1, depth) && (IsSensitive(entries[i].0) ==> entries[i].1 == REDACTED)
    ensures IsSafe(Fields(entries), depth + 1)
  {
    hide IsSensitive;
    forall e | e in entries
      ensures IsSafe(e.1, depth) && (IsSensitive(e.0) ==> e.1 == REDACTED)
    {
      var i :| 0 <= i < |entries| && entries[i] == e;
    }
  }

  lemma TextIsSafe(text: string, depth: nat)
    ensures IsSafe(Text(text), depth) && IsSafe(Kept(text), depth)
  {
  }

  /** What is not a reference followed is written as one text. */
  lemma OtherwiseText(heap: Heap, v: Value, ancestors: seq<Id>)
    requires Closed(heap) && InHeap(heap, v) && |ancestors| <= MAX_REDACTION_DEPTH
    requires v.Ref? ==> v.id in ancestors || |ancestors| == MAX_REDACTION_DEPTH || heap[v.id].Opaque?
    ensures Redact(heap, v, ancestors).Text? || Redact(heap, v, ancestors).Kept?
  {
  }

  /**
   * On every object graph, cyclic or not, the output is a tree no deeper than the levels left, in
   * which every sensitive key holds nothing but the placeholder.
   */
  lemma {:induction false} OutputIsSafe(heap: Heap, v: Value, ancestors: seq<Id>)
    requires Closed(heap) && InHeap(heap, v) && |ancestors| <= MAX_REDACTION_DEPTH
    ensures FitsDepth(Redact(heap, v, ancestors), MAX_REDACTION_DEPTH - |ancestors|)
    ensures NoSecrets(Redact(heap, v, ancestors))
    decreases MAX_REDACTION_DEPTH - |ancestors|
  {
    hide IsSensitive, Redact, RedactItems, RedactEntries, FitsDepth, NoSecrets;
    if v.Ref? && v.id !in ancestors && |ancestors| < MAX_REDACTION_DEPTH && !heap[v.id].Opaque? {
      var inner := ancestors + [v.id];
      var left := MAX_REDACTION_DEPTH - |inner|;
      RedactLevel(heap, v.id, ancestors);
      match heap[v.id]
      case Array(items) =>
        forall i | 0 <= i < |items|
          ensures IsSafe(Redact(heap, items[i], inner), left)
        {
          OutputIsSafe(heap, items[i], inner);
        }
        ListIsSafe(RedactItems(heap, items, inner), left);
      case Record(entries) =>
        RecordInHeap(heap, v.id);
        forall i | 0 <= i < |entries|
          ensures IsSafe(RedactField(heap, entries[i].0, entries[i].1, inner), left)
        {
          OutputIsSafe(heap, entries[i].1, inner);
          TextIsSafe(REDACTED.text, left);
        }
        FieldsAreSafe(RedactEntries(heap, entries, inner), left);
    } else {
      OtherwiseText(heap, v, ancestors);
      TextIsSafe(Redact(heap, v, ancestors).text, MAX_REDACTION_DEPTH - |ancestors|);
    }
  }

  // ----- Secrets do not influence the output

  ghost predicate SameButSecrets(a: Node, b: Node) {
    match a
    case Record(entries) =>
      && b.Record? && |b.entries| == |entries|
      && forall i :: 0 <= i < |entries| ==>
           entries[i].0 == b.entries[i].0 && (IsSensitive(entries[i].0) || entries[i].1 == b.entries[i].1)
    case Array(_) => a == b
    case Opaque(_) => a == b
  }

  /** The values that are looked at when a node is written: those not under a sensitive key. */
  ghost predicate LeadsInto(node: Node, ids: set<Id>) {
    match node
    case Array(items) => forall i :: 0 <= i < |items| ==> StaysIn(items[i], ids)
    case Record(entries) =>
      forall i :: 0 <= i < |entries| ==> IsSensitive(entries[i].0) || StaysIn(entries[i].1, ids)
    case Opaque(_) => true
  }

  predicate StaysIn(v: Value, ids: set<Id>) {
    v.Ref? ==> v.id in ids
  }

  /** Everything reached from `ids` without passing a sensitive key lies in `ids`, and is the same but for secrets. */
  ghost predicate SameWhereSeen(a: Heap, b: Heap, ids: set<Id>) {
    forall id :: id in ids ==> id in a && id in b && SameButSecrets(a[id], b[id]) && LeadsInto(a[id], ids)
  }

  lemma SameWritten(a: Heap, b: Heap, id: Id, ancestors: seq<Id>)
    requires Closed(a) && Closed(b) && id in a && id in b && SameButSecrets(a[id], b[id])
    requires id !in ancestors && |ancestors| < MAX_REDACTION_DEPTH
    requires
      var inner := ancestors + [id];
      match a[id]
      case Array(items) =>
        forall i :: 0 <= i < |items| ==>
          InHeap(a, items[i]) && InHeap(b, items[i]) && Redact(a, items[i], inner) == Redact(b, items[i], inner)
      case Record(entries) =>
        forall i :: 0 <= i < |entries| && !IsSensitive(entries[i].0) ==>
          && InHeap(a, entries[i].1) && InHeap(b, entries[i].1)
          && Redact(a, entries[i].1, inner) == Redact(b, entries[i].1, inner)
      case Opaque(_) => true
    ensures Redact(a, Ref(id), ancestors) == Redact(b, Ref(id), ancestors)
  {
    hide IsSensitive, Redact, RedactItems, RedactEntries;
    var inner := ancestors + [id];
    RedactLevel(a, id, ancestors);
    RedactLevel(b, id, ancestors);
    match a[id]
    case Opaque(_) =>
    case Array(items) =>
      assert RedactItems(a, items, inner) == RedactItems(b, items, inner);
    case Record(entries) =>
      RecordInHeap(a, id);
      RecordInHeap(b, id);
      assert RedactEntries(a, entries, inner) == RedactEntries(b, b[id].entries, inner);
  }

  /**
   * Two graphs that look the same wherever one gets without passing a sensitive key are written
   * alike, whatever those keys hold and whatever lies below: no secret can be read off the line.
   */
  lemma {:induction false} SecretsDoNotShow(a: Heap, b: Heap, ids: set<Id>, v: Value, ancestors: seq<Id>)
    requires Closed(a) && Closed(b) && SameWhereSeen(a, b, ids) && StaysIn(v, ids)
    requires |ancestors| <= MAX_REDACTION_DEPTH
    ensures Redact(a, v, ancestors) == Redact(b, v, ancestors)
    decreases MAX_REDACTION_DEPTH - |ancestors|
  {
    if v.Ref? && v.id !in ancestors && |ancestors| < MAX_REDACTION_DEPTH {
      hide IsSensitive, Redact;
      var inner := ancestors + [v.id];
      match a[v.id]
      case Opaque(_) =>
      case Array(items) =>
        forall i | 0 <= i < |items|
          ensures InHeap(a, items[i]) && InHeap(b, items[i]) && Redact(a, items[i], inner) == Redact(b, items[i], inner)
        {
          SecretsDoNotShow(a, b, ids, items[i], inner);
        }
      case Record(entries) =>
        forall i | 0 <= i < |entries| && !IsSensitive(entries[i].0)
          ensures InHeap(a, entries[i].1) && InHeap(b, entries[i].1)
          ensures Redact(a, entries[i].1, inner) == Redact(b, entries[i].1, inner)
        {
          SecretsDoNotShow(a, b, ids, entries[i].1, inner);
        }
      SameWritten(a, b, v.id, ancestors);
    }
  }

  // ----- Graphs without cycles

  function RankOf(rank: map<Id, nat>, v: Value): nat {
    if v.Ref? && v.id in rank then rank[v.id] + 1 else 0
  }

  /** Every reference leads to an object of smaller rank, so no object reaches itself. */
  ghost predicate Ranked(heap: Heap, rank: map<Id, nat>) {
    && heap.Keys <= rank.Keys
    && forall id :: id in heap ==> forall v :: v in Children(heap[id]) ==> RankOf(rank, v) <= rank[id]
  }

  /** The plain value: shared objects appear wherever they are referred to. */
  datatype Tree =
    | Leaf(text: string)
    | Big(digits: string)
    | Odd(text: string)
    | Branches(items: seq<Tree>)
    | Entries(entries: seq<(string, Tree)>)

  ghost function Unfold(heap: Heap, rank: map<Id, nat>, v: Value): Tree
    requires Closed(heap) && Ranked(heap, rank) && InHeap(heap, v)
    decreases RankOf(rank, v), 0, 0
  {
    match v
    case Primitive(text) => Leaf(text)
    case BigInt(digits) => Big(digits)
    case Ref(id) =>
      match heap[id]
      case Opaque(text) => Odd(text)
      case Array(items) => Branches(UnfoldItems(heap, rank, items, rank[id]))
      case Record(entries) =>
        RecordInHeap(heap, id);
        RecordRanked(heap, rank, id);
        Entries(UnfoldEntries(heap, rank, entries, rank[id]))
  }

  ghost function UnfoldItems(heap: Heap, rank: map<Id, nat>, items: seq<Value>, bound: nat): (r: seq<Tree>)
    requires Closed(heap) && Ranked(heap, rank)
    requires forall i :: 0 <= i < |items| ==> InHeap(heap, items[i]) && RankOf(rank, items[i]) <= bound
    ensures |r| == |items| && forall i :: 0 <= i < |items| ==> r[i] == Unfold(heap, rank, items[i])
    decreases bound, 1, |items|
  {
    if items == [] then []
    else [Unfold(heap, rank, items[0])] + UnfoldItems(heap, rank, items[1..], bound)
  }

  ghost function UnfoldEntries(heap: Heap, rank: map<Id, nat>, entries: seq<(string, Value)>, bound: nat)
    : (r: seq<(string, Tree)>)
    requires Closed(heap) && Ranked(heap, rank)
    requires forall i :: 0 <= i < |entries| ==> InHeap(heap, entries[i].1) && RankOf(rank, entries[i].1) <= bound
    ensures |r| == |entries|
    ensures forall i :: 0 <= i < |entries| ==> r[i] == (entries[i].0, Unfold(heap, rank, entries[i].1))
    decreases bound, 1, |entries|
  {
    if entries == [] then []
    else [(entries[0].0, Unfold(heap, rank, entries[0].1))] + UnfoldEntries(heap, rank, entries[1..], bound)
  }

  lemma RecordRanked(heap: Heap, rank: map<Id, nat>, id: Id)
    requires Ranked(heap, rank) && id in heap && heap[id].Record?
    ensures forall i :: 0 <= i < |heap[id].entries| ==> RankOf(rank, heap[id].entries[i].1) <= rank[id]
  {
    var entries := heap[id].entries;
    forall i | 0 <= i < |entries|
      ensures RankOf(rank, entries[i].1) <= rank[id]
    {
      assert ValuesOf(entries)[i] in Children(heap[id]);
    }
  }

  /** A tree as it is written with `depth` levels left: secrets masked, deeper levels cut off. */
  ghost function Render(tree: Tree, depth: nat): Output {
    match tree
    case Leaf(text) => Kept(text)
    case Big(digits) => Text(digits)
    case Odd(text) => if depth == 0 then TRUNCATED else Text(text)
    case Branches(items) =>
      if depth == 0 then TRUNCATED
      else List(seq(|items|, i requires 0 <= i < |items| => Render(items[i], depth - 1)))
    case Entries(entries) =>
      if depth == 0 then TRUNCATED
      else
        Fields(seq(|entries|, i requires 0 <= i < |entries| =>
          (entries[i].0, if IsSensitive(entries[i].0) then REDACTED else Render(entries[i].1, depth - 1))))
  }

  ghost predicate RankedAbove(rank: map<Id, nat>, ancestors: seq<Id>, v: Value) {
    v.Ref? ==> forall a :: a in ancestors ==> a in rank && v.id in rank && rank[v.id] < rank[a]
  }

  /** One level of the unfolding, rendered. */
  lemma RenderLevel(heap: Heap, rank: map<Id, nat>, id: Id, left: nat)
    requires Closed(heap) && Ranked(heap, rank) && id in heap
    ensures
      var out := Render(Unfold(heap, rank, Ref(id)), left + 1);
      match heap[id]
      case Opaque(text) => out == Text(text)
      case Array(items) =>
        && (forall v :: v in items ==> InHeap(heap, v))
        && out.List? && |out.items| == |items|
        && forall i :: 0 <= i < |items| ==> out.items[i] == Render(Unfold(heap, rank, items[i]), left)
      case Record(entries) =>
        && (forall i :: 0 <= i < |entries| ==> InHeap(heap, entries[i].1))
        && out.Fields? && |out.entries| == |entries|
        && forall i :: 0 <= i < |entries| ==>
             out.entries[i]
             == (entries[i].0,
                 if IsSensitive(entries[i].0) then REDACTED else Render(Unfold(heap, rank, entries[i].1), left))
  {
    hide IsSensitive, UnfoldItems, UnfoldEntries;
    if heap[id].Record? {
      RecordInHeap(heap, id);
      RecordRanked(heap, rank, id);
    }
  }

  lemma SameItems(heap: Heap, rank: map<Id, nat>, items: seq<Value>, inner: seq<Id>, out: seq<Output>, left: nat)
    requires Closed(heap) && Ranked(heap, rank) && |inner| <= MAX_REDACTION_DEPTH && |out| == |items|
    requires forall v :: v in items ==>
      InHeap(heap, v) && Redact(heap, v, inner) == Render(Unfold(heap, rank, v), left)
    requires forall i :: 0 <= i < |items| ==> out[i] == Render(Unfold(heap, rank, items[i]), left)
    ensures RedactItems(heap, items, inner) == out
  {
    hide *;
  }

  lemma SameEntries(
      heap: Heap, rank: map<Id, nat>, entries: seq<(string, Value)>, inner: seq<Id>, out: seq<(string, Output)>,
      left: nat)
    requires Closed(heap) && Ranked(heap, rank) && |inner| <= MAX_REDACTION_DEPTH && |out| == |entries|
    requires forall i :: 0 <= i < |entries| ==>
      && InHeap(heap, entries[i].1)
      && Redact(heap, entries[i].1, inner) == Render(Unfold(heap, rank, entries[i].1), left)
      && out[i] == (entries[i].0,
                    if IsSensitive(entries[i].0) then REDACTED else Render(Unfold(heap, rank, entries[i].1), left))
    ensures RedactEntries(heap, entries, inner) == out
  {
    hide RedactEntries, Redact, Render, Unfold, IsSensitive, Closed, Ranked, InHeap;
  }

  lemma SameAsUnfolded(heap: Heap, rank: map<Id, nat>, id: Id, ancestors: seq<Id>)
    requires Closed(heap) && Ranked(heap, rank) && id in heap
    requires id !in ancestors && |ancestors| < MAX_REDACTION_DEPTH
    requires forall v :: v in Children(heap[id]) ==>
      Redact(heap, v, ancestors + [id]) == Render(Unfold(heap, rank, v), MAX_REDACTION_DEPTH - |ancestors| - 1)
    ensures Redact(heap, Ref(id), ancestors)
         == Render(Unfold(heap, rank, Ref(id)), MAX_REDACTION_DEPTH - |ancestors|)
  {
    hide IsSensitive, Redact, Render, Unfold, RedactItems, RedactEntries, Closed, Ranked;
    var left := MAX_REDACTION_DEPTH - |ancestors| - 1;
    RedactLevel(heap, id, ancestors);
    RenderLevel(heap, rank, id, left);
    var inner := ancestors + [id];
    var out := Render(Unfold(heap, rank, Ref(id)), left + 1);
    match heap[id]
    case Opaque(_) =>
    case Array(items) =>
      SameItems(heap, rank, items, inner, out.items, left);
    case Record(entries) =>
      forall i | 0 <= i < |entries|
        ensures Redact(heap, entries[i].1, inner) == Render(Unfold(heap, rank, entries[i].1), left)
      {
        var child := entries[i].1;
        assert child == ValuesOf(entries)[i];
        assert child in Children(heap[id]);
      }
      SameEntries(heap, rank, entries, inner, out.entries, left);
  }

  /**
   * On a graph without cycles the result is the plain unfolding with secrets masked and everything
   * below the eighth level cut off: a shared object is never taken for a cycle.
   */
  lemma {:induction false} AcyclicIsUnfolded(heap: Heap, rank: map<Id, nat>, v: Value, ancestors: seq<Id>)
    requires Closed(heap) && Ranked(heap, rank) && InHeap(heap, v) && |ancestors| <= MAX_REDACTION_DEPTH
    requires RankedAbove(rank, ancestors, v)
    ensures Redact(heap, v, ancestors) == Render(Unfold(heap, rank, v), MAX_REDACTION_DEPTH - |ancestors|)
    decreases MAX_REDACTION_DEPTH - |ancestors|
  {
    hide IsSensitive, Redact, Render, Unfold, Children, Ranked, Closed;
    if v.Ref? && |ancestors| < MAX_REDACTION_DEPTH {
      RankedFurther(heap, rank, v.id, ancestors);
      var inner := ancestors + [v.id];
      forall child | child in Children(heap[v.id])
        ensures Redact(heap, child, inner) == Render(Unfold(heap, rank, child), MAX_REDACTION_DEPTH - |inner|)
      {
        AcyclicIsUnfolded(heap, rank, child, inner);
      }
      SameAsUnfolded(heap, rank, v.id, ancestors);
    } else {
      EndIsRendered(heap, rank, v, ancestors);
    }
  }

  lemma RankedFurther(heap: Heap, rank: map<Id, nat>, id: Id, ancestors: seq<Id>)
    requires Closed(heap) && Ranked(heap, rank) && id in heap && RankedAbove(rank, ancestors, Ref(id))
    ensures id !in ancestors
    ensures forall v :: v in Children(heap[id]) ==> InHeap(heap, v) && RankedAbove(rank, ancestors + [id], v)
  {
    hide Children;
  }

  /** Where nothing is followed: no reference, or no level left. */
  lemma EndIsRendered(heap: Heap, rank: map<Id, nat>, v: Value, ancestors: seq<Id>)
    requires Closed(heap) && Ranked(heap, rank) && InHeap(heap, v) && |ancestors| <= MAX_REDACTION_DEPTH
    requires v.Ref? ==> |ancestors| == MAX_REDACTION_DEPTH && RankedAbove(rank, ancestors, v)
    ensures Redact(heap, v, ancestors) == Render(Unfold(heap, rank, v), MAX_REDACTION_DEPTH - |ancestors|)
  {
    hide IsSensitive, UnfoldItems, UnfoldEntries, Closed, Ranked;
  }

  // ----- When the copy says everything

  /** Nothing in the tree is masked, converted or cut off when `depth` levels are left. */
  ghost predicate IsShown(tree: Tree, depth: nat) {
    match tree
    case Leaf(_) => true
    case Big(_) => false
    case Odd(_) => false
    case Branches(items) => depth > 0 && forall i :: 0 <= i < |items| ==> IsShown(items[i], depth - 1)
    case Entries(entries) =>
      depth > 0 && forall i :: 0 <= i < |entries| ==> !IsSensitive(entries[i].0) && IsShown(entries[i].1, depth - 1)
  }

  /** The plain value an output stands for, if nothing in it was put in another value's place. */
  ghost predicate StandsFor(out: Output, tree: Tree) {
    match tree
    case Leaf(text) => out == Kept(text)
    case Big(_) => false
    case Odd(_) => false
    case Branches(items) =>
      out.List? && |out.items| == |items| && forall i :: 0 <= i < |items| ==> StandsFor(out.items[i], items[i])
    case Entries(entries) =>
      && out.Fields? && |out.entries| == |entries|
      && forall i :: 0 <= i < |entries| ==>
           out.entries[i].0 == entries[i].0 && StandsFor(out.entries[i].1, entries[i].1)
  }

  lemma {:induction false} ShownExactlyWhen(tree: Tree, depth: nat)
    ensures StandsFor(Render(tree, depth), tree) <==> IsShown(tree, depth)
    decreases tree
  {
    hide IsSensitive;
    match tree
    case Leaf(_) =>
    case Big(_) =>
    case Odd(_) =>
    case Branches(items) =>
      if depth > 0 {
        var out := Render(tree, depth);
        forall i | 0 <= i < |items|
          ensures out.items[i] == Render(items[i], depth - 1)
          ensures StandsFor(out.items[i], items[i]) <==> IsShown(items[i], depth - 1)
        {
          ShownExactlyWhen(items[i], depth - 1);
        }
      }
    case Entries(entries) =>
      if depth > 0 {
        var out := Render(tree, depth);
        forall i | 0 <= i < |entries|
          ensures out.entries[i].0 == entries[i].0
          ensures StandsFor(out.entries[i].1, entries[i].1)
             <==> !IsSensitive(entries[i].0) && IsShown(entries[i].1, depth - 1)
        {
          assert out.entries[i]
              == (entries[i].0, if IsSensitive(entries[i].0) then REDACTED else Render(entries[i].1, depth - 1));
          ShownExactlyWhen(entries[i].1, depth - 1);
          TextStandsForNothing(entries[i].1);
        }
      }
  }

  lemma TextStandsForNothing(tree: Tree)
    ensures !StandsFor(REDACTED, tree)
  {
  }

  /**
   * A context without cycles is copied unchanged exactly when it has no sensitive key, no `bigint`,
   * no opaque object and at most eight levels.
   */
  lemma CopiedExactlyWhen(heap: Heap, rank: map<Id, nat>, v: Value)
    requires Closed(heap) && Ranked(heap, rank) && InHeap(heap, v)
    ensures StandsFor(Redact(heap, v, []), Unfold(heap, rank, v))
       <==> IsShown(Unfold(heap, rank, v), MAX_REDACTION_DEPTH)
  {
    hide Redact, Render, StandsFor, IsShown, Unfold, IsSensitive;
    AcyclicIsUnfolded(heap, rank, v, []);
    ShownExactlyWhen(Unfold(heap, rank, v), MAX_REDACTION_DEPTH);
  }
}
