/** The condition evaluators: single matches, composite conditions and keyword lists. Lower-casing works
    character by character; blanks and regular expressions are given. */
module Conditions {
  import opened Texts
  import opened Wrappers

  datatype Field =
    | Subject | FromAddress | FromName | ToAddress | TextBody | HtmlBody | MessageId | ReplyTo | MailboxGroupName
    | OtherField(name: string)

  datatype Operator =
    | Contains | NotContains | Equals | NotEquals | StartsWith | EndsWith | Regex | IsEmpty | IsNotEmpty
    | OtherOperator(name: string)

  datatype Condition =
    | And(conditions: seq<Condition>)
    | Or(conditions: seq<Condition>)
    | Not(condition: Condition)
    | Match(field: Field, operator: Operator, value: string, caseSensitive: bool)
    | OtherKind

  /** The fields an email has a text for. */
  type Email = map<Field, string>

  /** The text operations that are not modelled: `regex(pattern, text, caseSensitive)` is false for a
      pattern that does not compile. */
  datatype Language = Language(lower: char -> char, blank: char -> bool, regex: (string, string, bool) -> bool)
  {
    /** Lowering maps the space, and nothing else, to the space. */
    ghost predicate KeepsSpace() {
      forall c :: lower(c) == ' ' <==> c == ' '
    }

    function Lower(s: string): string {
      seq(|s|, i requires 0 <= i < |s| => lower(s[i]))
    }

    function Prepare(s: string, caseSensitive: bool): string {
      if caseSensitive then s else Lower(s)
    }

    predicate IsBlank(s: string) {
      forall c :: c in s ==> blank(c)
    }
  }

  function FieldValue(field: Field, email: Option<Email>): string {
    if email.Some? && field in email.value && !field.OtherField? then email.value[field] else ""
  }

  // ----- Evaluation -----

  predicate Compare(l: Language, operator: Operator, text: string, word: string, caseSensitive: bool) {
    match operator
    case Contains => Includes(text, word)
    case NotContains => !Includes(text, word)
    case Equals => text == word
    case NotEquals => text != word
    case StartsWith => word <= text
    case EndsWith => |word| <= |text| && text[|text| - |word|..] == word
    case Regex => l.regex(word, text, caseSensitive)
    case IsEmpty => l.IsBlank(text)
    case IsNotEmpty => !l.IsBlank(text)
    case OtherOperator(_) => false
  }

  predicate EvaluateMatch(l: Language, field: Field, operator: Operator, value: string, caseSensitive: bool,
          email: Option<Email>)
  {
    email.Some? &&
    Compare(l, operator, l.Prepare(FieldValue(field, email), caseSensitive), l.Prepare(value, caseSensitive),
            caseSensitive)
  }

  predicate Evaluate(l: Language, c: Condition, email: Option<Email>)
    decreases c
  {
    match c
    case And(conditions) => forall k :: 0 <= k < |conditions| ==> Evaluate(l, conditions[k], email)
    case Or(conditions) => exists k :: 0 <= k < |conditions| && Evaluate(l, conditions[k], email)
    case Not(condition) => !Evaluate(l, condition, email)
    case Match(field, operator, value, caseSensitive) => EvaluateMatch(l, field, operator, value, caseSensitive, email)
    case OtherKind => false
  }

  /** A keyword list with its settings after defaulting. */
  datatype Keywords = Keywords(words: seq<string>, all: bool, fields: seq<Field>, caseSensitive: bool)

  function Join(texts: seq<string>): string {
    if |texts| == 0 then ""
    else if |texts| == 1 then texts[0]
    else Join(texts[..|texts| - 1]) + " " + texts[|texts| - 1]
  }

  function FieldTexts(fields: seq<Field>, email: Option<Email>): seq<string> {
    seq(|fields|, i requires 0 <= i < |fields| => FieldValue(fields[i], email))
  }

  /** Whether any or all of the words occur in the space-joined fields. */
  predicate WordsMatch(l: Language, k: Keywords, email: Option<Email>) {
    var content := l.Prepare(Join(FieldTexts(k.fields, email)), k.caseSensitive);
    if k.all then forall i :: 0 <= i < |k.words| ==> Includes(content, l.Prepare(k.words[i], k.caseSensitive))
    else exists i :: 0 <= i < |k.words| && Includes(content, l.Prepare(k.words[i], k.caseSensitive))
  }

  /** Simple mode: an empty keyword list matches. */
  predicate SimpleKeywordMatch(l: Language, k: Keywords, email: Option<Email>) {
    k.words == [] || WordsMatch(l, k, email)
  }

  // ----- What an operator means -----

  /** The text in which a match looks: as it is, or lowered character by character. */
  function InCase(l: Language, text: string, caseSensitive: bool): string {
    if caseSensitive then text else seq(|text|, i requires 0 <= i < |text| => l.lower(text[i]))
  }

  /** The text of a field: empty for a field without one and for a field outside the list. */
  function TextOf(email: Email, field: Field): string {
    match field
    case OtherField(_) => ""
    case _ => if field in email then email[field] else ""
  }

  /** What each operator asks of the text and the value. */
  ghost predicate Holds(l: Language, operator: Operator, text: string, word: string, caseSensitive: bool) {
    match operator
    case Contains => exists a, b :: text == a + word + b
    case NotContains => !exists a, b :: text == a + word + b
    case Equals => text == word
    case NotEquals => text != word
    case StartsWith => exists b :: text == word + b
    case EndsWith => exists a :: text == a + word
    case Regex => l.regex(word, text, caseSensitive)
    case IsEmpty => forall i :: 0 <= i < |text| ==> l.blank(text[i])
    case IsNotEmpty => exists i :: 0 <= i < |text| && !l.blank(text[i])
    case OtherOperator(_) => false
  }

  lemma IncludesIff(text: string, word: string)
    ensures Includes(text, word) <==> exists a, b :: text == a + word + b
  {
    if Includes(text, word) {
      var i :| 0 <= i <= |text| && OccursAt(text, word, i);
      assert text == text[..i] + word + text[i + |word|..];
    }
    if a, b :| text == a + word + b {
      assert text[|a|..|a| + |word|] == word;
      assert OccursAt(text, word, |a|);
    }
  }

  lemma BeginsIff(text: string, word: string)
    ensures word <= text <==> exists b :: text == word + b
    ensures |word| <= |text| && text[|text| - |word|..] == word <==> exists a :: text == a + word
  {
    if word <= text {
      assert text == word + text[|word|..];
    }
    if |word| <= |text| && text[|text| - |word|..] == word {
      assert text == text[..|text| - |word|] + word;
    }
  }

  lemma CompareIff(l: Language, operator: Operator, text: string, word: string, caseSensitive: bool)
    ensures Compare(l, operator, text, word, caseSensitive) <==> Holds(l, operator, text, word, caseSensitive)
  {
    match operator
    case Contains | NotContains => IncludesIff(text, word);
    case StartsWith | EndsWith => BeginsIff(text, word);
    case _ =>
  }

  /** A match holds exactly when there is an email and its field's text stands to the value as the operator
      says. */
  lemma MatchIff(l: Language, field: Field, operator: Operator, value: string, caseSensitive: bool,
          email: Option<Email>)
    ensures Evaluate(l, Match(field, operator, value, caseSensitive), email) <==>
            email.Some? && Holds(l, operator, InCase(l, TextOf(email.value, field), caseSensitive),
                                 InCase(l, value, caseSensitive), caseSensitive)
  {
    if email.Some? {
      CompareIff(l, operator, InCase(l, TextOf(email.value, field), caseSensitive), InCase(l, value, caseSensitive),
        caseSensitive);
    }
  }

  /** Simple mode matches exactly when the list is empty, or all or some of the words occur in the field texts
      with single spaces between them. */
  lemma SimpleModeIff(l: Language, k: Keywords, email: Email)
    ensures SimpleKeywordMatch(l, k, Some(email)) <==>
            || k.words == []
            || (k.all && forall w :: w in k.words ==> OccursIn(l, k, email, w))
            || (!k.all && exists w :: w in k.words && OccursIn(l, k, email, w))
  {
    forall i | 0 <= i < |k.words|
      ensures Includes(l.Prepare(Join(FieldTexts(k.fields, Some(email))), k.caseSensitive),
                       l.Prepare(k.words[i], k.caseSensitive)) <==>
              OccursIn(l, k, email, k.words[i])
    {
      WordOccursIff(l, k, email, k.words[i]);
    }
  }

  ghost predicate OccursIn(l: Language, k: Keywords, email: Email, word: string) {
    exists a, b :: InCase(l, Spaced(email, k.fields), k.caseSensitive) == a + InCase(l, word, k.caseSensitive) + b
  }

  /** The texts of the fields with single spaces between them. */
  function Spaced(email: Email, fields: seq<Field>): string {
    if fields == [] then ""
    else if |fields| == 1 then TextOf(email, fields[0])
    else TextOf(email, fields[0]) + " " + Spaced(email, fields[1..])
  }

  lemma {:induction false} JoinFirst(texts: seq<string>)
    requires |texts| >= 2
    ensures Join(texts) == texts[0] + " " + Join(texts[1..])
  {
    var n := |texts| - 1;
    assert texts[..n][0] == texts[0] && texts[1..][|texts[1..]| - 1] == texts[n];
    if n >= 2 {
      JoinFirst(texts[..n]);
      assert texts[..n][1..] == texts[1..][..n - 1];
      assert Join(texts[1..]) == Join(texts[1..][..n - 1]) + " " + texts[n];
    } else {
      assert texts[1..] == [texts[1]] && texts[..1] == [texts[0]];
    }
  }

  lemma {:induction false} JoinIsSpaced(email: Email, fields: seq<Field>)
    ensures Join(FieldTexts(fields, Some(email))) == Spaced(email, fields)
  {
    var texts := FieldTexts(fields, Some(email));
    if |fields| >= 2 {
      JoinFirst(texts);
      assert texts[1..] == FieldTexts(fields[1..], Some(email));
      JoinIsSpaced(email, fields[1..]);
    }
  }

  lemma WordOccursIff(l: Language, k: Keywords, email: Email, word: string)
    ensures Includes(l.Prepare(Join(FieldTexts(k.fields, Some(email))), k.caseSensitive),
                     l.Prepare(word, k.caseSensitive)) <==>
            OccursIn(l, k, email, word)
  {
    JoinIsSpaced(email, k.fields);
    IncludesIff(InCase(l, Spaced(email, k.fields), k.caseSensitive), InCase(l, word, k.caseSensitive));
  }

  // ----- Negation -----

  /** The operators that come in pairs. */
  function Opposite(operator: Operator): Option<Operator> {
    match operator
    case Contains => Some(NotContains)
    case NotContains => Some(Contains)
    case Equals => Some(NotEquals)
    case NotEquals => Some(Equals)
    case IsEmpty => Some(IsNotEmpty)
    case IsNotEmpty => Some(IsEmpty)
    case _ => None
  }

  /** An operator's opposite is its negation exactly when there is an email: without one both fail. */
  lemma OppositeNegatesIff(l: Language, m: Condition, email: Option<Email>)
    requires m.Match? && Opposite(m.operator).Some?
    ensures (Evaluate(l, m.(operator := Opposite(m.operator).value), email) <==> Evaluate(l, Not(m), email)) <==>
            email.Some?
    ensures Opposite(Opposite(m.operator).value) == Some(m.operator)
  {
  }

  function Negated(conditions: seq<Condition>): seq<Condition> {
    seq(|conditions|, i requires 0 <= i < |conditions| => Not(conditions[i]))
  }

  /** Negation moves inwards through conjunctions and disjunctions of any length. */
  lemma NegationMovesInwards(l: Language, conditions: seq<Condition>, email: Option<Email>)
    ensures Evaluate(l, Not(And(conditions)), email) <==> Evaluate(l, Or(Negated(conditions)), email)
    ensures Evaluate(l, Not(Or(conditions)), email) <==> Evaluate(l, And(Negated(conditions)), email)
  {
    var negated := Negated(conditions);
    forall i | 0 <= i < |conditions|
      ensures Evaluate(l, negated[i], email) <==> !Evaluate(l, conditions[i], email)
    {
    }
  }

  /** Equality is the strongest of the text operators and containment the weakest; a text that starts
      with the value and is no longer than it equals it. */
  lemma OperatorsAreOrdered(l: Language, field: Field, value: string, caseSensitive: bool, email: Option<Email>)
    ensures Evaluate(l, Match(field, Equals, value, caseSensitive), email) ==>
              Evaluate(l, Match(field, StartsWith, value, caseSensitive), email) &&
              Evaluate(l, Match(field, EndsWith, value, caseSensitive), email)
    ensures Evaluate(l, Match(field, StartsWith, value, caseSensitive), email) ||
            Evaluate(l, Match(field, EndsWith, value, caseSensitive), email) ==>
              Evaluate(l, Match(field, Contains, value, caseSensitive), email)
    ensures Evaluate(l, Match(field, StartsWith, value, caseSensitive), email) &&
            |FieldValue(field, email)| <= |value| ==>
              Evaluate(l, Match(field, Equals, value, caseSensitive), email)
  {
    if email.Some? {
      var text, word := l.Prepare(FieldValue(field, email), caseSensitive), l.Prepare(value, caseSensitive);
      if word <= text {
        assert OccursAt(text, word, 0);
      }
      if |word| <= |text| && text[|text| - |word|..] == word {
        assert OccursAt(text, word, |text| - |word|);
      }
    }
  }

  // ----- The composite condition that a keyword list stands for -----

  function WordInSomeField(word: string, fields: seq<Field>, caseSensitive: bool): Condition {
    Or(seq(|fields|, j requires 0 <= j < |fields| => Match(fields[j], Contains, word, caseSensitive)))
  }

  function AsComposite(k: Keywords): Condition {
    var perWord := seq(|k.words|,
      i requires 0 <= i < |k.words| => WordInSomeField(k.words[i], k.fields, k.caseSensitive));
    if k.all then And(perWord) else Or(perWord)
  }

  predicate IsWord(s: string) {
    s != "" && ' ' !in s
  }

  lemma OccurrenceShifts(a: string, b: string, word: string, i: nat)
    requires OccursAt(b, word, i)
    ensures OccursAt(a + b, word, |a| + i)
  {
    assert (a + b)[|a| + i..|a| + i + |word|] == b[i..i + |word|];
  }

  lemma OccurrenceStays(a: string, b: string, word: string, i: nat)
    requires i + |word| <= |a|
    ensures OccursAt(a + b, word, i) <==> OccursAt(a, word, i)
  {
    assert (a + b)[i..i + |word|] == a[i..i + |word|];
  }

  lemma OccurrenceCovers(text: string, word: string, i: nat, p: nat)
    requires OccursAt(text, word, i)
    ensures i <= p < i + |word| ==> text[p] in word
  {
    if i <= p < i + |word| {
      assert text[p] == text[i..i + |word|][p - i];
    }
  }

  lemma IncludedInPart(a: string, b: string, word: string)
    requires Includes(a, word) || Includes(b, word)
    ensures Includes(a + " " + b, word)
  {
    if Includes(a, word) {
      var i :| 0 <= i <= |a| && OccursAt(a, word, i);
      OccurrenceStays(a, " " + b, word, i);
      assert a + " " + b == a + (" " + b);
    } else {
      var i :| 0 <= i <= |b| && OccursAt(b, word, i);
      OccurrenceShifts(a + " ", b, word, i);
    }
  }

  lemma NotAcrossTheSpace(a: string, b: string, word: string)
    requires IsWord(word) && Includes(a + " " + b, word)
    ensures Includes(a, word) || Includes(b, word)
  {
    var text := a + " " + b;
    var i :| 0 <= i <= |text| && OccursAt(text, word, i);
    OccurrenceCovers(text, word, i, |a|);
    if i + |word| <= |a| {
      assert text == a + (" " + b);
      OccurrenceStays(a, " " + b, word, i);
    } else {
      assert text[i..i + |word|] == b[i - |a| - 1..i - |a| - 1 + |word|];
      assert OccursAt(b, word, i - |a| - 1);
    }
  }

  /** Every part of a joined text contributes its occurrences, whatever the word. */
  lemma {:induction false} IncludedInJoin(texts: seq<string>, j: nat, word: string)
    requires j < |texts| && Includes(texts[j], word)
    ensures Includes(Join(texts), word)
  {
    if |texts| > 1 {
      var init, last := texts[..|texts| - 1], texts[|texts| - 1];
      if j < |texts| - 1 {
        IncludedInJoin(init, j, word);
      }
      IncludedInPart(Join(init), last, word);
    }
  }

  /** A word without spaces that occurs in a joined text occurs in one of its parts. */
  lemma {:induction false} IncludedInSomePart(texts: seq<string>, word: string) returns (j: nat)
    requires IsWord(word) && Includes(Join(texts), word)
    ensures j < |texts| && Includes(texts[j], word)
  {
    if |texts| == 1 {
      j := 0;
    } else if |texts| > 1 {
      var init, last := texts[..|texts| - 1], texts[|texts| - 1];
      NotAcrossTheSpace(Join(init), last, word);
      if Includes(last, word) {
        j := |texts| - 1;
      } else {
        j := IncludedInSomePart(init, word);
      }
    }
  }

  function PrepareAll(l: Language, texts: seq<string>, caseSensitive: bool): seq<string> {
    seq(|texts|, i requires 0 <= i < |texts| => l.Prepare(texts[i], caseSensitive))
  }

  /** Lowering a joined text lowers its parts. */
  lemma {:induction false} PrepareJoin(l: Language, texts: seq<string>, caseSensitive: bool)
    requires l.KeepsSpace()
    ensures l.Prepare(Join(texts), caseSensitive) == Join(PrepareAll(l, texts, caseSensitive))
  {
    var prepared := PrepareAll(l, texts, caseSensitive);
    if |texts| > 1 {
      var init, last := texts[..|texts| - 1], texts[|texts| - 1];
      PrepareJoin(l, init, caseSensitive);
      assert prepared[..|texts| - 1] == PrepareAll(l, init, caseSensitive);
      assert l.Lower(Join(init) + " " + last) == l.Lower(Join(init)) + " " + l.Lower(last);
    } else if |texts| == 1 {
      assert prepared[0] == l.Prepare(texts[0], caseSensitive);
    }
  }

  lemma PreparedWord(l: Language, word: string, caseSensitive: bool)
    requires l.KeepsSpace()
    ensures IsWord(l.Prepare(word, caseSensitive)) <==> IsWord(word)
  {
    var lowered := l.Lower(word);
    if ' ' in word {
      var i :| 0 <= i < |word| && word[i] == ' ';
      assert lowered[i] == ' ';
    }
    if ' ' in lowered {
      var i :| 0 <= i < |lowered| && lowered[i] == ' ';
      assert word[i] == ' ';
    }
  }

  // ----- One keyword -----

  predicate InJoinedFields(l: Language, word: string, fields: seq<Field>, caseSensitive: bool, email: Option<Email>) {
    Includes(l.Prepare(Join(FieldTexts(fields, email)), caseSensitive), l.Prepare(word, caseSensitive))
  }

  /** The composite form of a keyword implies the simple one, for every keyword. */
  lemma CompositeImpliesSimple(l: Language, word: string, fields: seq<Field>, caseSensitive: bool, email: Option<Email>)
    requires l.KeepsSpace() && Evaluate(l, WordInSomeField(word, fields, caseSensitive), email)
    ensures InJoinedFields(l, word, fields, caseSensitive, email)
  {
    var tree := WordInSomeField(word, fields, caseSensitive);
    var j :| 0 <= j < |tree.conditions| && Evaluate(l, tree.conditions[j], email);
    var texts := FieldTexts(fields, email);
    PrepareJoin(l, texts, caseSensitive);
    IncludedInJoin(PrepareAll(l, texts, caseSensitive), j, l.Prepare(word, caseSensitive));
  }

  lemma SimpleImpliesComposite(l: Language, word: string, fields: seq<Field>, caseSensitive: bool, email: Option<Email>)
    requires l.KeepsSpace() && IsWord(word) && email.Some? && InJoinedFields(l, word, fields, caseSensitive, email)
    ensures Evaluate(l, WordInSomeField(word, fields, caseSensitive), email)
  {
    var texts := FieldTexts(fields, email);
    PrepareJoin(l, texts, caseSensitive);
    PreparedWord(l, word, caseSensitive);
    var j := IncludedInSomePart(PrepareAll(l, texts, caseSensitive), l.Prepare(word, caseSensitive));
    assert Evaluate(l, WordInSomeField(word, fields, caseSensitive).conditions[j], email);
  }

  /** The two forms of one keyword agree for these fields and this email. */
  predicate Agree(l: Language, word: string, fields: seq<Field>, caseSensitive: bool, email: Email) {
    InJoinedFields(l, word, fields, caseSensitive, Some(email)) <==>
    Evaluate(l, WordInSomeField(word, fields, caseSensitive), Some(email))
  }

  /** The empty keyword matches without any field, while no field contains it. */
  lemma EmptyKeywordDisagrees(l: Language, caseSensitive: bool)
    ensures !Agree(l, "", [], caseSensitive, map[])
  {
    var text := l.Prepare(Join(FieldTexts([], Some(map[]))), caseSensitive);
    assert OccursAt(text, l.Prepare("", caseSensitive), 0);
  }

  lemma TooShort(text: string, word: string)
    requires |text| < |word|
    ensures !Includes(text, word)
  {
  }

  /** A keyword with a space matches across two fields, while neither field contains it. */
  lemma SpacedKeywordDisagrees(l: Language, word: string, i: nat, caseSensitive: bool)
    requires l.KeepsSpace() && i < |word| && word[i] == ' '
    ensures !Agree(l, word, [Subject, TextBody], caseSensitive, map[Subject := word[..i], TextBody := word[i + 1..]])
  {
    var fields, email := [Subject, TextBody], map[Subject := word[..i], TextBody := word[i + 1..]];
    var texts, whole := FieldTexts(fields, Some(email)), l.Prepare(word, caseSensitive);
    assert Join(texts) == word by {
      assert texts == [word[..i], word[i + 1..]] && texts[..1] == [word[..i]];
      assert word == word[..i] + " " + word[i + 1..];
    }
    assert OccursAt(whole, whole, 0);
    forall j | 0 <= j < 2
      ensures !Evaluate(l, WordInSomeField(word, fields, caseSensitive).conditions[j], Some(email))
    {
      TooShort(l.Prepare(texts[j], caseSensitive), whole);
    }
  }

  /** Exactly the non-empty keywords without a space have the same meaning in both forms. */
  lemma KeywordFormsAgreeIff(l: Language, word: string, caseSensitive: bool)
    requires l.KeepsSpace()
    ensures IsWord(word) <==> forall fields, email :: Agree(l, word, fields, caseSensitive, email)
  {
    if IsWord(word) {
      forall fields, email
        ensures Agree(l, word, fields, caseSensitive, email)
      {
        if InJoinedFields(l, word, fields, caseSensitive, Some(email)) {
          SimpleImpliesComposite(l, word, fields, caseSensitive, Some(email));
        } else if Evaluate(l, WordInSomeField(word, fields, caseSensitive), Some(email)) {
          CompositeImpliesSimple(l, word, fields, caseSensitive, Some(email));
        }
      }
    } else if word == "" {
      EmptyKeywordDisagrees(l, caseSensitive);
    } else {
      var i :| 0 <= i < |word| && word[i] == ' ';
      SpacedKeywordDisagrees(l, word, i, caseSensitive);
    }
  }

  // ----- Keyword lists -----

  lemma WordsMatchIsComposite(l: Language, k: Keywords, email: Email)
    requires l.KeepsSpace() && forall i :: 0 <= i < |k.words| ==> IsWord(k.words[i])
    ensures WordsMatch(l, k, Some(email)) <==> Evaluate(l, AsComposite(k), Some(email))
  {
    var tree := AsComposite(k);
    forall i | 0 <= i < |k.words|
      ensures Includes(l.Prepare(Join(FieldTexts(k.fields, Some(email))), k.caseSensitive),
                       l.Prepare(k.words[i], k.caseSensitive)) <==>
              Evaluate(l, tree.conditions[i], Some(email))
    {
      KeywordFormsAgreeIff(l, k.words[i], k.caseSensitive);
      assert Agree(l, k.words[i], k.fields, k.caseSensitive, email);
    }
  }

  /** Simple mode means the composite condition for every list of proper keywords but one: the empty
      "any" list matches, while the empty disjunction does not. */
  lemma SimpleModeMeansComposite(l: Language, k: Keywords, email: Email)
    requires l.KeepsSpace() && forall i :: 0 <= i < |k.words| ==> IsWord(k.words[i])
    ensures (SimpleKeywordMatch(l, k, Some(email)) <==> Evaluate(l, AsComposite(k), Some(email))) <==>
            (k.words != [] || k.all)
  {
    WordsMatchIsComposite(l, k, email);
  }

  /** A keyword node: advanced mode when a composite condition is given, else simple mode. */
  predicate EvaluateKeyword(l: Language, composite: Option<Condition>, k: Keywords, email: Option<Email>) {
    email.Some? && if composite.Some? then Evaluate(l, composite.value, email) else SimpleKeywordMatch(l, k, email)
  }

  /** Rewriting a node with a list of proper keywords into advanced mode keeps its result, also
      without an email. */
  lemma AdvancedModeKeepsMeaning(l: Language, k: Keywords, email: Option<Email>)
    requires l.KeepsSpace() && forall i :: 0 <= i < |k.words| ==> IsWord(k.words[i])
    requires k.words != [] || k.all
    ensures EvaluateKeyword(l, Some(AsComposite(k)), k, email) <==> EvaluateKeyword(l, None, k, email)
  {
    if email.Some? {
      SimpleModeMeansComposite(l, k, email.value);
    }
  }

  // ----- Classification by keyword sets -----

  datatype KeywordSet = KeywordSet(category: string, keywords: Keywords)

  /** The first set that has keywords and matches, if any. */
  ghost predicate FirstMatch(l: Language, sets: seq<KeywordSet>, email: Option<Email>, i: nat) {
    i < |sets| && Selects(l, sets[i], email) && forall j :: 0 <= j < i ==> !Selects(l, sets[j], email)
  }

  ghost predicate Selects(l: Language, s: KeywordSet, email: Option<Email>) {
    s.keywords.words != [] && WordsMatch(l, s.keywords, email)
  }

  method ClassifyByKeywords(l: Language, sets: seq<KeywordSet>, defaultCategory: string, email: Option<Email>)
    returns (category: string)
    ensures forall i: nat :: FirstMatch(l, sets, email, i) ==> category == sets[i].category
    ensures (forall i :: 0 <= i < |sets| ==> !Selects(l, sets[i], email)) ==> category == defaultCategory
  {
    for i := 0 to |sets|
      invariant forall j :: 0 <= j < i ==> !Selects(l, sets[j], email)
    {
      var set_ := sets[i];
      if set_.keywords.words == [] {
        continue;
      }
      if WordsMatch(l, set_.keywords, email) {
        assert Selects(l, set_, email);
        return set_.category;
      }
    }
    return defaultCategory;
  }
}
